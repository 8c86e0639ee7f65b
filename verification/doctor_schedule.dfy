/** `Doctor` (hw8/main.cpp): a name, a list of specialties and a weekly
    working slot, each guarded by a setter that repairs bad input instead
    of rejecting it.  The specialty array and its count are one sequence;
    the empty sequence is the null array with count 0, and a caller's
    possibly-null array is an `Option`. */
module DoctorSchedule {
  import opened Wrappers

  datatype Doctor = Doctor(name: string, specialties: seq<string>, day: int, start: int, end: int)

  /** The default constructor. */
  const DefaultDoctor: Doctor := Doctor("", [], 1, 8, 16)

  /** The working slot every `Doctor` keeps: a weekday and a non-empty
      range of hours within one day. */
  predicate ValidSlot(d: Doctor) {
    1 <= d.day <= 7 && 0 <= d.start < d.end <= 23
  }

  /** Raise `h` to `lo`, then lower it to `hi` (the two `if`s of each setter). */
  function Clamp(h: int, lo: int, hi: int): (r: int)
    requires lo <= hi
    ensures lo <= r <= hi
    ensures lo <= h <= hi ==> r == h
    ensures h < lo ==> r == lo
    ensures h > hi ==> r == hi
  {
    var raised := if h < lo then lo else h;
    if raised > hi then hi else raised
  }

  /** `setName`: names shorter than 3 characters become "". */
  function SetName(d: Doctor, n: string): (r: Doctor)
    ensures |n| >= 3 ==> r.name == n
    ensures |n| < 3 ==> r.name == ""
    ensures r.(name := d.name) == d
  {
    if |n| >= 3 then d.(name := n) else d.(name := "")
  }

  /** `setSpecialties`: copies the first `count` entries when `count > 0` and
      the array is not null; otherwise the list becomes empty.  The caller
      must pass an array of at least `count` entries. */
  function SetSpecialties(d: Doctor, specs: Option<seq<string>>, count: int): (r: Doctor)
    requires specs.None? || count <= |specs.value|
    ensures count > 0 && specs.Some? ==>
              (|r.specialties| == count && forall i | 0 <= i < count :: r.specialties[i] == specs.value[i])
    ensures !(count > 0 && specs.Some?) ==> r.specialties == []
    ensures r.(specialties := d.specialties) == d
  {
    if count > 0 && specs.Some? then d.(specialties := specs.value[..count])
    else d.(specialties := [])
  }

  /** `setPreferredWorkingDay`: clamp into 1..7. */
  function SetDay(d: Doctor, day: int): (r: Doctor)
    ensures 1 <= r.day <= 7
    ensures 1 <= day <= 7 ==> r.day == day
    ensures day < 1 ==> r.day == 1
    ensures day > 7 ==> r.day == 7
    ensures r.(day := d.day) == d
  {
    d.(day := Clamp(day, 1, 7))
  }

  /** `setWorkingHoursStart`: clamp into 0..23, then below the end hour. */
  function SetStart(d: Doctor, h: int): (r: Doctor)
    ensures r.start < d.end
    ensures 0 <= h <= 23 && h < d.end ==> r.start == h
    ensures r.start == (if Clamp(h, 0, 23) < d.end then Clamp(h, 0, 23) else d.end - 1)
    ensures r.(start := d.start) == d
  {
    var c := Clamp(h, 0, 23);
    d.(start := if c >= d.end then d.end - 1 else c)
  }

  /** `setWorkingHoursEnd`: clamp into 0..23, then above the start hour. */
  function SetEnd(d: Doctor, h: int): (r: Doctor)
    ensures r.end > d.start
    ensures 0 <= h <= 23 && h > d.start ==> r.end == h
    ensures r.end == (if Clamp(h, 0, 23) > d.start then Clamp(h, 0, 23) else d.start + 1)
    ensures r.(end := d.end) == d
  {
    var c := Clamp(h, 0, 23);
    d.(end := if c <= d.start then d.start + 1 else c)
  }

  /** The parametrized constructor: hours start at 0..23, then the setters
      run in the order name, specialties, day, start, end. */
  function NewDoctor(n: string, specs: Option<seq<string>>, count: int, day: int, startHour: int, endHour: int): (r: Doctor)
    requires specs.None? || count <= |specs.value|
    ensures ValidSlot(r)
    ensures r.name == (if |n| >= 3 then n else "")
    ensures r.specialties == (if count > 0 && specs.Some? then specs.value[..count] else [])
    ensures r.day == Clamp(day, 1, 7)
    ensures r.start == (if Clamp(startHour, 0, 23) < 23 then Clamp(startHour, 0, 23) else 22)
    ensures r.end == (if Clamp(endHour, 0, 23) > r.start then Clamp(endHour, 0, 23) else r.start + 1)
    ensures 0 <= startHour < endHour <= 23 ==> r.start == startHour && r.end == endHour
  {
    var d := Doctor("", [], 1, 0, 23);
    SetEnd(SetStart(SetDay(SetSpecialties(SetName(d, n), specs, count), day), startHour), endHour)
  }

  /** Either hour setter keeps a valid slot valid. */
  lemma HourSettersKeepSlot(d: Doctor, h: int)
    requires ValidSlot(d)
    ensures ValidSlot(SetStart(d, h)) && ValidSlot(SetEnd(d, h))
  {
  }

  /** `hasSpecialty`: a linear search of the list. */
  method HasSpecialty(d: Doctor, s: string) returns (found: bool)
    ensures found <==> s in d.specialties
  {
    var i := 0;
    while i < |d.specialties|
      invariant 0 <= i <= |d.specialties|
      invariant s !in d.specialties[..i]
    {
      if d.specialties[i] == s {
        return true;
      }
      i := i + 1;
    }
    assert d.specialties[..i] == d.specialties;
    return false;
  }

  /** `worksAt`: the preferred day, between the start and end hours inclusive. */
  function WorksAt(d: Doctor, day: int, hour: int): (r: bool)
    ensures ValidSlot(d) && r ==> 1 <= day <= 7 && 0 <= hour <= 23
    ensures ValidSlot(d) && day == d.day && (hour == d.start || hour == d.end) ==> r
    ensures day != d.day ==> !r
  {
    day == d.day && hour >= d.start && hour <= d.end
  }

  /** Setting the start hour below the current end hour and then a later end
      hour means working exactly those hours on the preferred day. */
  lemma WorksAtSetHours(d: Doctor, startHour: int, endHour: int, hour: int)
    requires ValidSlot(d) && 0 <= startHour < endHour <= 23 && startHour < d.end
    ensures WorksAt(SetEnd(SetStart(d, startHour), endHour), d.day, hour) <==> startHour <= hour <= endHour
  {
  }

  /** A start hour at or past the current end hour is pulled back to one
      hour before it, so the doctor also works the hours in between. */
  lemma WorksAtLateStart(d: Doctor, startHour: int, endHour: int, hour: int)
    requires ValidSlot(d) && 0 <= startHour < endHour <= 23 && startHour >= d.end
    ensures SetStart(d, startHour).start == d.end - 1
    ensures WorksAt(SetEnd(SetStart(d, startHour), endHour), d.day, hour) <==> d.end - 1 <= hour <= endHour
  {
  }

}
