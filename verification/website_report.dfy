/** `WebsiteReport` (test2_sub1/main.cpp): a title, a site type and the
    visitor counts per day.  The count `noDays` and the array are kept as
    the class keeps them, separately, because `operator*` can leave a
    one-element array next to a count of 0; `None` is the null array. */
module WebsiteReport {
  import opened Wrappers

  datatype WebsiteType = News | Blog | Technical | Ecommerce | General

  datatype Report = Report(title: string, noDays: int, visitors: Option<seq<int>>, kind: WebsiteType)

  /** The default constructor. */
  const DefaultReport: Report := Report("(empty)", 0, None, General)

  /** What the constructors and `setVisitorsPerDay` establish: the array is
      null with count 0, or holds exactly `noDays` counts. */
  predicate Consistent(r: Report) {
    (r.visitors.None? && r.noDays == 0) ||
    (r.visitors.Some? && r.noDays >= 1 && |r.visitors.value| == r.noDays)
  }

  /** What every reachable report satisfies: the first `noDays` entries of
      the array exist. */
  predicate WellFormed(r: Report) {
    r.noDays >= 0 && (r.noDays > 0 ==> r.visitors.Some? && |r.visitors.value| >= r.noDays)
  }

  /** The days a report holds, as its count says. */
  function Days(r: Report): seq<int>
    requires WellFormed(r)
  {
    if r.noDays == 0 then [] else r.visitors.value[..r.noDays]
  }

  /** The caller's array holds at least `size` entries when it is used. */
  predicate Readable(arr: Option<seq<int>>, size: int) {
    size < 1 || arr.None? || size <= |arr.value|
  }

  /** The scan of `isArrayValid` from index `i` on. */
  function NoNegativeFrom(arr: seq<int>, size: nat, i: nat): (r: bool)
    requires i <= size <= |arr|
    ensures r <==> forall k | i <= k < size :: arr[k] >= 0
    decreases size - i
  {
    if i == size then true
    else if arr[i] < 0 then false
    else NoNegativeFrom(arr, size, i + 1)
  }

  /** `isArrayValid`: a null or empty array passes; otherwise no count may
      be negative. */
  function IsArrayValid(arr: Option<seq<int>>, size: int): (r: bool)
    requires Readable(arr, size)
    ensures r <==> arr.None? || size < 1 || forall k | 0 <= k < size :: arr.value[k] >= 0
  {
    if arr.None? || size < 1 then true else NoNegativeFrom(arr.value, size, 0)
  }

  /** The array logic shared by the constructor and `setVisitorsPerDay`:
      the new count and array. */
  function AcceptDays(noDays: int, arr: Option<seq<int>>): (r: (int, Option<seq<int>>))
    requires Readable(arr, noDays)
    ensures noDays >= 1 && arr.Some? && IsArrayValid(arr, noDays) ==> r == (noDays, Some(arr.value[..noDays]))
    ensures !(noDays >= 1 && arr.Some? && IsArrayValid(arr, noDays)) ==> r == (0, None)
  {
    if noDays < 1 then (0, None)
    else if arr.None? then (0, None)
    else if !IsArrayValid(arr, noDays) then (0, None)
    else (noDays, Some(arr.value[..noDays]))
  }

  /** The parametrized constructor: a title shorter than 3 becomes "". */
  function NewReport(title: string, noDays: int, arr: Option<seq<int>>, kind: WebsiteType): (r: Report)
    requires Readable(arr, noDays)
    ensures Consistent(r)
    ensures (r.noDays, r.visitors) == AcceptDays(noDays, arr)
    ensures r.title == (if |title| < 3 then "" else title) && r.kind == kind
    ensures forall k | 0 <= k < |Days(r)| :: Days(r)[k] >= 0
    ensures r.noDays > 0 ==> arr.Some? && 0 < noDays <= |arr.value| && Days(r) == arr.value[..noDays]
  {
    var (n, a) := AcceptDays(noDays, arr);
    Report(if |title| < 3 then "" else title, n, a, kind)
  }

  /** `setVisitorsPerDay`: the old array is always dropped. */
  function SetVisitorsPerDay(r: Report, noDays: int, arr: Option<seq<int>>): (s: Report)
    requires Readable(arr, noDays)
    ensures Consistent(s)
    ensures (s.noDays, s.visitors) == AcceptDays(noDays, arr)
    ensures s.title == r.title && s.kind == r.kind
  {
    var (n, a) := AcceptDays(noDays, arr);
    r.(noDays := n, visitors := a)
  }

  /** The copy constructor: copies `noDays` entries, and a count of 0 gives
      the null array whatever the original held. */
  function Copy(r: Report): (c: Report)
    requires WellFormed(r)
    ensures Consistent(c) && Days(c) == Days(r)
    ensures c.title == r.title && c.kind == r.kind
    ensures Consistent(r) ==> c == r
  {
    if r.noDays == 0 then r.(visitors := None)
    else
      assert Consistent(r) ==> r.visitors.value[..r.noDays] == r.visitors.value;
      r.(visitors := Some(r.visitors.value[..r.noDays]))
  }

  /** `operator*` as written: on a copy, a null array becomes `[v]` with the
      count left at 0; otherwise `v` is appended and the count grows. */
  function Times(r: Report, v: int): (s: Report)
    requires WellFormed(r)
    ensures WellFormed(s) && s.title == r.title && s.kind == r.kind
    ensures r.noDays > 0 ==> Consistent(s) && Days(s) == Days(r) + [v]
    ensures r.noDays == 0 ==> s.noDays == 0 && s.visitors == Some([v])
  {
    var c := Copy(r);
    if c.visitors.None? then c.(visitors := Some([v]))
    else c.(visitors := Some(c.visitors.value + [v]), noDays := c.noDays + 1)
  }

  /** On a report without days, `*` never records anything: the value sits
      behind a count of 0, and the copy the next `*` makes drops it. */
  lemma TimesNeverCountsFirstDay(r: Report, a: int, b: int)
    requires WellFormed(r) && r.noDays == 0
    ensures Days(Times(r, a)) == [] && Days(Times(Times(r, a), b)) == []
    ensures Times(Times(r, a), b).visitors == Some([b])
    ensures Days(Copy(Times(r, a))) == [] && Copy(Times(r, a)).visitors == None
  {
  }

  /** `operator*` with the count raised in both branches. */
  function TimesCounted(r: Report, v: int): (s: Report)
    requires WellFormed(r)
    ensures Consistent(s) && Days(s) == Days(r) + [v]
    ensures s.title == r.title && s.kind == r.kind
  {
    var c := Copy(r);
    if c.visitors.None? then c.(visitors := Some([v]), noDays := 1)
    else c.(visitors := Some(c.visitors.value + [v]), noDays := c.noDays + 1)
  }

  /** Repeated `*` with the count raised appends every value in order. */
  lemma {:induction false} TimesCountedTwice(r: Report, a: int, b: int)
    requires WellFormed(r)
    ensures Days(TimesCounted(TimesCounted(r, a), b)) == Days(r) + [a, b]
  {
    assert Days(r) + [a] + [b] == Days(r) + [a, b];
  }

}
