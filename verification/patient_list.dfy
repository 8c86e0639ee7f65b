/** The `Doctor` of test2_sub2/main.cpp: a name, a specialty and the list
    of patient names.  The class keeps a count and an array that is null
    exactly when the count is 0; here the list is one sequence, empty for
    the null array.  A caller's possibly-null array is an `Option`. */
module PatientList {
  import opened Wrappers

  datatype Specialty = Surgeon | Cardiologist | Neurologist | Pneumologist | Internist | General

  datatype Doctor = Doctor(name: string, patients: seq<string>, specialty: Specialty)

  /** The default constructor. */
  const DefaultDoctor: Doctor := Doctor("(empty)", [], General)

  /** The array a caller passes must hold at least `size` entries when it
      is not null and `size` is positive. */
  predicate Readable(arr: Option<seq<string>>, size: int) {
    size < 1 || arr.None? || size <= |arr.value|
  }

  /** The restriction every stored patient name meets. */
  predicate LongEnough(name: string) {
    |name| > 3
  }

  /** The scan of `isArrayValid` from index `i` on. */
  function AllLongFrom(arr: seq<string>, size: nat, i: nat): (r: bool)
    requires i <= size <= |arr|
    ensures r <==> forall k | i <= k < size :: LongEnough(arr[k])
    decreases size - i
  {
    if i == size then true
    else if |arr[i]| <= 3 then false
    else AllLongFrom(arr, size, i + 1)
  }

  /** `isArrayValid`: a null or empty array passes; otherwise every one of
      the first `size` names must be longer than 3 characters. */
  function IsArrayValid(arr: Option<seq<string>>, size: int): (r: bool)
    requires Readable(arr, size)
    ensures r <==> size < 1 || arr.None? || forall k | 0 <= k < size :: LongEnough(arr.value[k])
  {
    if size < 1 || arr.None? then true else AllLongFrom(arr.value, size, 0)
  }

  /** The shared array logic of the constructor and `setPatientsNames`:
      copy the first `count` names when `count >= 1`, the array is not null
      and every name is long enough; otherwise the list is empty. */
  function AcceptPatients(count: int, names: Option<seq<string>>): (r: seq<string>)
    requires Readable(names, count)
    ensures count >= 1 && names.Some? && IsArrayValid(names, count) ==> r == names.value[..count]
    ensures !(count >= 1 && names.Some? && IsArrayValid(names, count)) ==> r == []
    ensures forall k | 0 <= k < |r| :: LongEnough(r[k])
  {
    if count < 1 then []
    else if names.None? then []
    else if !IsArrayValid(names, count) then []
    else names.value[..count]
  }

  /** The parametrized constructor: a name shorter than 3 becomes "". */
  function NewDoctor(name: string, count: int, names: Option<seq<string>>, specialty: Specialty): (r: Doctor)
    requires Readable(names, count)
    ensures r.name == (if |name| < 3 then "" else name)
    ensures r.patients == AcceptPatients(count, names) && r.specialty == specialty
  {
    Doctor(if |name| < 3 then "" else name, AcceptPatients(count, names), specialty)
  }

  /** `setPatientsNames`: the old list is always dropped. */
  function SetPatientsNames(d: Doctor, count: int, names: Option<seq<string>>): (r: Doctor)
    requires Readable(names, count)
    ensures r.patients == AcceptPatients(count, names)
    ensures r.(patients := d.patients) == d
  {
    d.(patients := AcceptPatients(count, names))
  }

  /** The position of the first occurrence of `v`, or `|s|`. */
  function FirstIndex(s: seq<string>, v: string): (r: nat)
    ensures r <= |s|
    ensures r < |s| ==> s[r] == v
    ensures forall k | 0 <= k < r :: s[k] != v
  {
    if |s| == 0 then 0
    else if s[0] == v then 0
    else 1 + FirstIndex(s[1..], v)
  }

  /** `operator/=`: remove the first occurrence of `value`.  Nothing
      changes for an empty list, an empty value or an absent value; removing
      the only patient leaves the null array and count 0. */
  method RemovePatient(d: Doctor, value: string) returns (r: Doctor)
    ensures |d.patients| == 0 || value == "" || value !in d.patients ==> r == d
    ensures value != "" && value in d.patients ==>
              var idx := FirstIndex(d.patients, value);
              r == d.(patients := d.patients[..idx] + d.patients[idx + 1..])
  {
    if |d.patients| == 0 || value == "" {
      return d;
    }
    var idx := -1;
    var i := 0;
    while i < |d.patients|
      invariant 0 <= i <= |d.patients|
      invariant value !in d.patients[..i]
    {
      if d.patients[i] == value {
        idx := i;
        break;
      }
      i := i + 1;
    }
    if idx == -1 {
      assert d.patients[..i] == d.patients;
      return d;
    }
    assert idx == FirstIndex(d.patients, value) by {
      assert value !in d.patients[..idx];
    }
    if |d.patients| == 1 {
      return d.(patients := []);
    }
    var kept: seq<string> := [];
    i := 0;
    while i < |d.patients|
      invariant 0 <= i <= |d.patients|
      invariant kept == if i <= idx then d.patients[..i] else d.patients[..idx] + d.patients[idx + 1..i]
    {
      if i != idx {
        kept := kept + [d.patients[i]];
      }
      i := i + 1;
    }
    return d.(patients := kept);
  }

  /** Removal takes out exactly one copy of the value. */
  lemma {:induction false} RemoveOneCopy(s: seq<string>, v: string)
    requires v in s
    ensures var idx := FirstIndex(s, v);
            multiset(s[..idx] + s[idx + 1..]) + multiset{v} == multiset(s)
  {
    var idx := FirstIndex(s, v);
    assert s == s[..idx] + [v] + s[idx + 1..];
  }

  /** The names joined with '-', no dash after the last. */
  function Join(names: seq<string>): string
    requires |names| >= 1
  {
    if |names| == 1 then names[0] else names[0] + "-" + Join(names[1..])
  }

  /** The string cast: "(None)" for the null array, else the joined names. */
  method ToText(d: Doctor) returns (text: string)
    ensures |d.patients| == 0 ==> text == "(None)"
    ensures |d.patients| > 0 ==> text == Join(d.patients)
  {
    if |d.patients| == 0 {
      return "(None)";
    }
    var n := |d.patients|;
    text := "";
    var i := 0;
    while i < n
      invariant 0 <= i <= n
      invariant i < n ==> text + Join(d.patients[i..]) == Join(d.patients)
      invariant i == n ==> text == Join(d.patients)
    {
      assert d.patients[i..][1..] == d.patients[i + 1..];
      text := text + (if i != n - 1 then d.patients[i] + "-" else d.patients[i]);
      i := i + 1;
    }
  }

  /** Splitting at every '-' (the inverse of `Join` for dash-free names). */
  function Split(t: string): (r: seq<string>)
    ensures |r| >= 1
  {
    if |t| == 0 then [""]
    else if t[0] == '-' then [""] + Split(t[1..])
    else
      var rest := Split(t[1..]);
      [[t[0]] + rest[0]] + rest[1..]
  }

  /** A dash-free prefix sticks to the first piece. */
  lemma {:induction false} SplitPrefix(x: string, tail: string)
    requires '-' !in x
    ensures Split(x + tail) == [x + Split(tail)[0]] + Split(tail)[1..]
    decreases |x|
  {
    var pieces := Split(tail);
    if |x| > 0 {
      var t := x + tail;
      assert t[0] == x[0] && x[0] != '-';
      assert t[1..] == x[1..] + tail;
      assert '-' !in x[1..] by {
        assert forall c | c in x[1..] :: c in x;
      }
      SplitPrefix(x[1..], tail);
      var rest := Split(t[1..]);
      assert Split(t) == [[x[0]] + rest[0]] + rest[1..];
      assert [x[0]] + (x[1..] + pieces[0]) == x + pieces[0];
    } else {
      assert x + tail == tail && x + pieces[0] == pieces[0];
      assert pieces == [pieces[0]] + pieces[1..];
    }
  }

  /** The cast's text determines the list when no name contains '-'. */
  lemma {:induction false} SplitJoin(names: seq<string>)
    requires |names| >= 1
    requires forall k | 0 <= k < |names| :: '-' !in names[k]
    ensures Split(Join(names)) == names
    decreases |names|
  {
    if |names| == 1 {
      SplitPrefix(names[0], "");
      assert names[0] + "" == names[0];
    } else {
      var rest := Join(names[1..]);
      SplitJoin(names[1..]);
      assert Join(names) == names[0] + ("-" + rest);
      SplitPrefix(names[0], "-" + rest);
      assert ("-" + rest)[1..] == rest;
      assert Split("-" + rest) == [""] + names[1..];
      assert names[0] + "" == names[0];
      assert names == [names[0]] + names[1..];
    }
  }

}
