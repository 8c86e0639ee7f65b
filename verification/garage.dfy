/** `Vehicle` and `Garage` (hw6/hw6.cpp).  A vehicle is a record whose
    setters reject bad values by leaving the field as it was.  The garage
    is a growable array: `slots` is the whole allocation (its length is the
    capacity) and the first `size` slots hold the stored vehicles.  The
    static `Vehicle::idCounter` is passed in and returned explicitly. */
module Garage {

  datatype VehicleType = Sedan | Coupe | Hatchback | Minivan | Convertible | Suv | Pickup | Unknown

  datatype Vehicle = Vehicle(make: string, model: string, vehicleType: VehicleType, id: int, year: int)

  /** The default constructor: empty strings, `UNKNOWN`, ID 0, year 0. */
  const DefaultVehicle: Vehicle := Vehicle("", "", Unknown, 0, 0)

  /** `Vehicle::idCounter` starts at 1. */
  const FirstId: int := 1

  // ---- setters ------------------------------------------------------

  /** `setMake`: an empty make is rejected. */
  function SetMake(v: Vehicle, make: string): (r: Vehicle)
    ensures r.make == (if make != "" then make else v.make)
    ensures r.(make := v.make) == v
  {
    if make != "" then v.(make := make) else v
  }

  /** `setModel`: an empty model is rejected. */
  function SetModel(v: Vehicle, model: string): (r: Vehicle)
    ensures r.model == (if model != "" then model else v.model)
    ensures r.(model := v.model) == v
  {
    if model != "" then v.(model := model) else v
  }

  function SetVehicleType(v: Vehicle, t: VehicleType): (r: Vehicle)
    ensures r.vehicleType == t && r.(vehicleType := v.vehicleType) == v
  {
    v.(vehicleType := t)
  }

  /** `setYear`: only years in 0..2025 are stored. */
  function SetYear(v: Vehicle, year: int): (r: Vehicle)
    ensures 0 <= year <= 2025 ==> r.year == year
    ensures !(0 <= year <= 2025) ==> r.year == v.year
    ensures r.(year := v.year) == v
  {
    if year > -1 && year < 2026 then v.(year := year) else v
  }

  /** The parametrized constructor: start from the defaults, take the ID
      from the counter (post-increment) and apply the validating setters. */
  function NewVehicle(make: string, model: string, t: VehicleType, year: int, idCounter: int): (r: (Vehicle, int))
    ensures r.0.id == idCounter && r.1 == idCounter + 1
    ensures r.0.make == make || (make == "" && r.0.make == "")
    ensures r.0.model == model || (model == "" && r.0.model == "")
    ensures r.0.vehicleType == t
    ensures r.0.year == (if 0 <= year <= 2025 then year else 0)
  {
    var v := DefaultVehicle.(id := idCounter);
    (SetYear(SetVehicleType(SetModel(SetMake(v, make), model), t), year), idCounter + 1)
  }

  /** Constructing one vehicle after another gives distinct, increasing IDs. */
  lemma ConsecutiveIds(a: (string, string, VehicleType, int), b: (string, string, VehicleType, int), idCounter: int)
    ensures var first := NewVehicle(a.0, a.1, a.2, a.3, idCounter);
            var second := NewVehicle(b.0, b.1, b.2, b.3, first.1);
            first.0.id < second.0.id && second.1 == idCounter + 2
  {
  }

  // ---- type names ---------------------------------------------------

  /** `Vehicle::changeMap`: one entry per enumerator, `UNKNOWN` included. */
  const ChangeMap: seq<(string, VehicleType)> := [
    ("SEDAN", Sedan), ("COUPE", Coupe), ("HATCHBACK", Hatchback), ("MINIVAN", Minivan),
    ("CONVERTIBLE", Convertible), ("SUV", Suv), ("PICKUP", Pickup), ("UNKNOWN", Unknown)
  ]

  /** `toupper` in the C locale: only 'a'..'z' change. */
  function ToUpper(c: char): char {
    if 'a' <= c <= 'z' then (c as int - 32) as char else c
  }

  function Upper(s: string): (r: string)
    ensures |r| == |s|
    ensures forall i | 0 <= i < |s| :: r[i] == ToUpper(s[i])
  {
    seq(|s|, i requires 0 <= i < |s| => ToUpper(s[i]))
  }

  /** The lookup loop of `stringToVehicleType` from entry `i` on. */
  function LookupName(s: string, i: nat): (r: VehicleType)
    requires i <= |ChangeMap|
    ensures (exists j | i <= j < |ChangeMap| :: ChangeMap[j].0 == s && ChangeMap[j].1 == r)
            || (r == Unknown && forall j | i <= j < |ChangeMap| :: ChangeMap[j].0 != s)
    decreases |ChangeMap| - i
  {
    if i == |ChangeMap| then Unknown
    else if ChangeMap[i].0 == s then ChangeMap[i].1
    else LookupName(s, i + 1)
  }

  /** The lookup loop of `vehicleTypeToString` from entry `i` on. */
  function LookupType(t: VehicleType, i: nat): (r: string)
    requires i <= |ChangeMap|
    ensures (exists j | i <= j < |ChangeMap| :: ChangeMap[j].1 == t && ChangeMap[j].0 == r)
            || (r == "UNKNOWN" && forall j | i <= j < |ChangeMap| :: ChangeMap[j].1 != t)
    decreases |ChangeMap| - i
  {
    if i == |ChangeMap| then "UNKNOWN"
    else if ChangeMap[i].1 == t then ChangeMap[i].0
    else LookupType(t, i + 1)
  }

  /** Each name and each type occurs once in the table. */
  lemma ChangeMapDistinct()
    ensures forall i, j | 0 <= i < j < |ChangeMap| :: ChangeMap[i].0 != ChangeMap[j].0
    ensures forall i, j | 0 <= i < j < |ChangeMap| :: ChangeMap[i].1 != ChangeMap[j].1
  {
  }

  /** `stringToVehicleType`: upper-case, then the type the table pairs with
      that name, and `UNKNOWN` when no name matches. */
  function StringToVehicleType(s: string): (r: VehicleType)
    ensures forall j | 0 <= j < |ChangeMap| :: ChangeMap[j].0 == Upper(s) ==> r == ChangeMap[j].1
    ensures (forall j | 0 <= j < |ChangeMap| :: ChangeMap[j].0 != Upper(s)) ==> r == Unknown
  {
    ChangeMapDistinct();
    LookupName(Upper(s), 0)
  }

  /** `vehicleTypeToString`: the name the table pairs with the type. */
  function VehicleTypeToString(t: VehicleType): (r: string)
    ensures forall j | 0 <= j < |ChangeMap| :: ChangeMap[j].1 == t ==> r == ChangeMap[j].0
  {
    ChangeMapDistinct();
    LookupType(t, 0)
  }

  /** A string without lower-case letters is its own upper-case form. */
  lemma UpperFixed(s: string)
    requires forall i | 0 <= i < |s| :: !('a' <= s[i] <= 'z')
    ensures Upper(s) == s
  {
  }

  /** Table entry `j` converts both ways. */
  lemma {:induction false} EntryRoundTrip(j: nat)
    requires j < |ChangeMap|
    ensures VehicleTypeToString(ChangeMap[j].1) == ChangeMap[j].0
    ensures StringToVehicleType(ChangeMap[j].0) == ChangeMap[j].1
  {
    var name := ChangeMap[j].0;
    assert forall i | 0 <= i < |name| :: 'A' <= name[i] <= 'Z';
    UpperFixed(name);
  }

  /** Every type is listed, so its name converts back to it. */
  lemma {:induction false} TypeNameRoundTrip(t: VehicleType)
    ensures StringToVehicleType(VehicleTypeToString(t)) == t
  {
    var j := match t
      case Sedan => 0 case Coupe => 1 case Hatchback => 2 case Minivan => 3
      case Convertible => 4 case Suv => 5 case Pickup => 6 case Unknown => 7;
    EntryRoundTrip(j);
  }

  /** Case does not matter to the conversion. */
  lemma {:induction false} StringToVehicleTypeUpper(s: string)
    ensures StringToVehicleType(Upper(s)) == StringToVehicleType(s)
  {
    assert Upper(Upper(s)) == Upper(s);
  }

  // ---- the garage ---------------------------------------------------

  datatype GarageState = GarageState(slots: seq<Vehicle>, size: nat)

  /** `size` never exceeds the capacity `|slots|`. */
  type Garage = g: GarageState | g.size <= |g.slots| witness GarageState([], 0)

  /** The vehicles in use, in order. */
  function Stored(g: Garage): seq<Vehicle> {
    g.slots[..g.size]
  }

  /** Invariant kept by the garage operations: unused slots hold default
      vehicles, and stored IDs are distinct and already handed out. */
  predicate Valid(g: Garage, idCounter: int) {
    (forall i | g.size <= i < |g.slots| :: g.slots[i] == DefaultVehicle) &&
    (forall i | 0 <= i < g.size :: FirstId <= g.slots[i].id < idCounter) &&
    (forall i, j | 0 <= i < j < g.size :: g.slots[i].id != g.slots[j].id)
  }

  /** `resize`: 100 more default slots, stored vehicles kept in place. */
  function Resize(g: Garage): (r: Garage)
    ensures |r.slots| == |g.slots| + 100 && r.size == g.size
    ensures Stored(r) == Stored(g)
    ensures forall i | |g.slots| <= i < |r.slots| :: r.slots[i] == DefaultVehicle
  {
    GarageState(g.slots + seq(100, _ => DefaultVehicle), g.size)
  }

  /** `indexOfID`: the first stored position holding `id`, or -1. */
  function IndexOfId(g: Garage, id: int): (r: int)
    ensures -1 <= r < g.size
    ensures r == -1 <==> forall i | 0 <= i < g.size :: g.slots[i].id != id
    ensures r >= 0 ==> g.slots[r].id == id && forall i | 0 <= i < r :: g.slots[i].id != id
  {
    IndexFrom(g, id, 0)
  }

  function IndexFrom(g: Garage, id: int, start: nat): (r: int)
    requires start <= g.size
    ensures r == -1 || start <= r < g.size
    ensures r == -1 <==> forall i | start <= i < g.size :: g.slots[i].id != id
    ensures r >= 0 ==> g.slots[r].id == id && forall i | start <= i < r :: g.slots[i].id != id
    decreases g.size - start
  {
    if start == g.size then -1
    else if g.slots[start].id == id then start
    else IndexFrom(g, id, start + 1)
  }

  /** `addVehicle`: grow by 100 only when full, then store the new vehicle
      after the others; the counter advances by one. */
  function AddVehicle(g: Garage, idCounter: int, make: string, model: string, typeName: string, year: int): (r: (Garage, int))
    ensures |r.0.slots| == (if g.size == |g.slots| then |g.slots| + 100 else |g.slots|)
    ensures Stored(r.0) == Stored(g) + [NewVehicle(make, model, StringToVehicleType(typeName), year, idCounter).0]
    ensures r.1 == idCounter + 1
  {
    var grown := if g.size == |g.slots| then Resize(g) else g;
    var (v, next) := NewVehicle(make, model, StringToVehicleType(typeName), year, idCounter);
    var r := GarageState(grown.slots[g.size := v], g.size + 1);
    assert Stored(r) == Stored(grown) + [v];
    (r, next)
  }

  /** `updateVehicle`: an unknown ID changes nothing; otherwise the setters
      run on the vehicle with that ID, which keeps its ID and position. */
  function UpdateVehicle(g: Garage, id: int, make: string, model: string, typeName: string, year: int): (r: (bool, Garage))
    ensures r.0 <==> IndexOfId(g, id) != -1
    ensures !r.0 ==> r.1 == g
    ensures r.0 ==> var idx := IndexOfId(g, id);
      r.1.size == g.size && |r.1.slots| == |g.slots| &&
      r.1.slots[idx] == SetVehicleType(SetYear(SetModel(SetMake(g.slots[idx], make), model), year),
                                       StringToVehicleType(typeName)) &&
      r.1.slots[idx].id == id &&
      forall i | 0 <= i < |g.slots| && i != idx :: r.1.slots[i] == g.slots[i]
  {
    var idx := IndexOfId(g, id);
    if idx == -1 then (false, g)
    else
      var v := SetVehicleType(SetYear(SetModel(SetMake(g.slots[idx], make), model), year),
                              StringToVehicleType(typeName));
      (true, GarageState(g.slots[idx := v], g.size))
  }

  /** The garage with the stored vehicle at `idx` removed: later vehicles
      one place to the left, a default vehicle in the freed slot. */
  function WithoutIndex(g: Garage, idx: nat): (r: Garage)
    requires idx < g.size
    ensures r.size == g.size - 1 && |r.slots| == |g.slots|
    ensures forall i | 0 <= i < |r.slots| :: r.slots[i] == ShiftedSlot(g, idx, i)
  {
    GarageState(seq(|g.slots|, i requires 0 <= i < |g.slots| => ShiftedSlot(g, idx, i)), g.size - 1)
  }

  function ShiftedSlot(g: Garage, idx: nat, i: nat): Vehicle
    requires idx < g.size && i < |g.slots|
  {
    if i < idx then g.slots[i]
    else if i < g.size - 1 then g.slots[i + 1]
    else if i == g.size - 1 then DefaultVehicle
    else g.slots[i]
  }

  /** Removal keeps the order of the other stored vehicles. */
  lemma WithoutIndexStored(g: Garage, idx: nat)
    requires idx < g.size
    ensures Stored(WithoutIndex(g, idx)) == Stored(g)[..idx] + Stored(g)[idx + 1..]
  {
  }

  /** `deleteVehicle`: an unknown ID changes nothing; otherwise the later
      vehicles shift one place left, `size` drops by one and the freed last
      slot is reset to a default vehicle. */
  method DeleteVehicle(g: Garage, id: int) returns (ok: bool, r: Garage)
    ensures ok <==> IndexOfId(g, id) != -1
    ensures !ok ==> r == g
    ensures ok ==> r == WithoutIndex(g, IndexOfId(g, id))
  {
    var idx := IndexOfId(g, id);
    if idx == -1 {
      return false, g;
    }
    var slots := g.slots;
    var i := idx + 1;
    while i < g.size
      invariant idx + 1 <= i <= g.size && |slots| == |g.slots|
      invariant forall k | 0 <= k < i - 1 :: slots[k] == ShiftedSlot(g, idx, k)
      invariant forall k | i <= k < |slots| :: slots[k] == g.slots[k]
    {
      slots := slots[i - 1 := slots[i]];
      i := i + 1;
    }
    slots := slots[g.size - 1 := DefaultVehicle];
    r := GarageState(slots, g.size - 1);
    assert r.slots == WithoutIndex(g, idx).slots;
    return true, r;
  }

  /** Adding keeps the invariant, and the new vehicle is found by its ID at
      the end of the stored ones. */
  lemma {:induction false} AddKeepsValid(g: Garage, idCounter: int, make: string, model: string, typeName: string, year: int)
    requires Valid(g, idCounter) && idCounter >= FirstId
    ensures var (r, next) := AddVehicle(g, idCounter, make, model, typeName, year);
            Valid(r, next) && IndexOfId(r, idCounter) == g.size
  {
    var (r, next) := AddVehicle(g, idCounter, make, model, typeName, year);
    assert forall i | 0 <= i < g.size :: r.slots[i] == Stored(r)[i] == Stored(g)[i] == g.slots[i];
    assert r.slots[g.size] == Stored(r)[g.size];
    assert forall i | r.size <= i < |r.slots| :: r.slots[i] == DefaultVehicle by {
      if g.size == |g.slots| {
        assert forall i | r.size <= i < |r.slots| :: r.slots[i] == Resize(g).slots[i];
      } else {
        assert forall i | r.size <= i < |r.slots| :: r.slots[i] == g.slots[i];
      }
    }
  }

  /** Updating keeps the invariant: the ID of the updated vehicle is kept. */
  lemma UpdateKeepsValid(g: Garage, idCounter: int, id: int, make: string, model: string, typeName: string, year: int)
    requires Valid(g, idCounter)
    ensures Valid(UpdateVehicle(g, id, make, model, typeName, year).1, idCounter)
  {
  }

  /** Deleting keeps the invariant, and the deleted ID is no longer found. */
  lemma {:induction false} DeleteKeepsValid(g: Garage, idCounter: int, idx: nat)
    requires Valid(g, idCounter) && idx < g.size
    ensures Valid(WithoutIndex(g, idx), idCounter)
    ensures IndexOfId(WithoutIndex(g, idx), g.slots[idx].id) == -1
  {
    var r := WithoutIndex(g, idx);
    assert forall i | 0 <= i < r.size :: r.slots[i] == g.slots[if i < idx then i else i + 1];
  }

}
