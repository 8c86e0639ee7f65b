/** `Animal` (lab10/main.cpp): a name and an age, with a bounds-checked
    index into the name, increment and decrement in both forms, and `+`
    with an int on either side.  An operator that changes the object
    returns the object after the change together with the value the C++
    expression yields. */
module Animal {
  import opened Wrappers

  datatype Animal = Animal(name: string, age: int)

  /** The default constructor. */
  const DefaultAnimal: Animal := Animal("", 0)

  /** What `operator[]` throws (a string literal in the C++ code). */
  datatype IndexError = OutOfRange

  /** The read-only `operator[]`: throws unless `0 <= index < name.length()`. */
  function At(a: Animal, index: int): (r: Result<char, IndexError>)
    ensures r.Ok? <==> 0 <= index < |a.name|
    ensures r.Ok? ==> r.value == a.name[index]
  {
    if index < 0 || index >= |a.name| then Err(OutOfRange) else Ok(a.name[index])
  }

  /** Writing through the reference the non-const `operator[]` returns:
      same bounds check, then only that character changes. */
  function Store(a: Animal, index: int, c: char): (r: Result<Animal, IndexError>)
    ensures r.Ok? <==> 0 <= index < |a.name|
    ensures r.Ok? ==> r.value.age == a.age && |r.value.name| == |a.name|
    ensures r.Ok? ==> At(r.value, index) == Ok(c)
    ensures r.Ok? ==> forall k | 0 <= k < |a.name| && k != index :: At(r.value, k) == At(a, k)
  {
    if index < 0 || index >= |a.name| then Err(OutOfRange) else Ok(a.(name := a.name[index := c]))
  }

  /** `++a`: the object itself, one year older. */
  function PreIncrement(a: Animal): (r: (Animal, Animal))
    ensures r.0 == a.(age := a.age + 1) && r.1 == r.0
  {
    var updated := a.(age := a.age + 1);
    (updated, updated)
  }

  /** `a++`: the object becomes one year older; the expression is a copy
      taken before. */
  function PostIncrement(a: Animal): (r: (Animal, Animal))
    ensures r.0 == PreIncrement(a).0 && r.1 == a
  {
    var before := a;
    (PreIncrement(a).0, before)
  }

  /** `--a` */
  function PreDecrement(a: Animal): (r: (Animal, Animal))
    ensures r.0 == a.(age := a.age - 1) && r.1 == r.0
  {
    var updated := a.(age := a.age - 1);
    (updated, updated)
  }

  /** `a--` */
  function PostDecrement(a: Animal): (r: (Animal, Animal))
    ensures r.0 == PreDecrement(a).0 && r.1 == a
  {
    var before := a;
    (PreDecrement(a).0, before)
  }

  /** `a + val`: a copy with the age raised; `a` is untouched. */
  function PlusInt(a: Animal, val: int): (r: Animal)
    ensures r.name == a.name && r.age == a.age + val
  {
    var tmp := a;
    tmp.(age := tmp.age + val)
  }

  /** The friend `val + a`. */
  function IntPlus(val: int, a: Animal): (r: Animal)
    ensures r.name == a.name && r.age == val + a.age
  {
    var tmp := a;
    tmp.(age := tmp.age + val)
  }

  /** Both forms of `+` agree, and adding twice adds the sum. */
  lemma PlusProperties(a: Animal, x: int, y: int)
    ensures IntPlus(x, a) == PlusInt(a, x)
    ensures PlusInt(PlusInt(a, x), y) == PlusInt(a, x + y)
    ensures PlusInt(a, 1) == PreIncrement(a).0 && PlusInt(a, -1) == PreDecrement(a).0
  {
  }

  /** An increment followed by a decrement, in any form, restores the object. */
  lemma IncrementDecrementInverse(a: Animal)
    ensures PreDecrement(PreIncrement(a).0).0 == a
    ensures PostDecrement(PostIncrement(a).0).0 == a
    ensures PreIncrement(PreDecrement(a).0).0 == a
  {
  }

  /** Copy assignment: the target takes the source's name and age; on
      self-assignment the guard skips the copy, which leaves the same
      value. */
  function Assign(target: Animal, source: Animal): (r: Animal)
    ensures r.name == source.name && r.age == source.age
  {
    if target == source then target else Animal(source.name, source.age)
  }

}
