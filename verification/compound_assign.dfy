/** The compound assignments of `StringAsNumber` (hw9/main.cpp): each one
    replaces the left operand by the binary operator's result.  Values are
    immutable here, so the right operand is untouched by construction and
    the updated left operand is the method's result. */
module CompoundAssign {
  import opened Wrappers
  import opened BigNumber
  import opened Additive
  import opened Multiplicative
  import opened CDivision

  /** `x += y` */
  method AddAssign(x: BigInt, y: BigInt) returns (updated: BigInt)
    ensures IntOf(updated) == IntOf(x) + IntOf(y)
  {
    updated := Add(x, y);
  }

  /** `x -= y` */
  method SubAssign(x: BigInt, y: BigInt) returns (updated: BigInt)
    ensures IntOf(updated) == IntOf(x) - IntOf(y)
  {
    updated := Sub(x, y);
  }

  /** `x *= y` */
  method MulAssign(x: BigInt, y: BigInt) returns (updated: BigInt)
    ensures IntOf(updated) == IntOf(x) * IntOf(y)
  {
    updated := Mul(x, y);
  }

  /** `x /= y`: the exception of `operator/` escapes before the assignment,
      so on a zero divisor `x` keeps its value. */
  method DivAssign(x: BigInt, y: BigInt) returns (updated: BigInt, thrown: Option<DivError>)
    ensures thrown.Some? <==> IntOf(y) == 0
    ensures thrown.Some? ==> updated == x
    ensures thrown.None? ==> IntOf(updated) == TruncDiv(IntOf(x), IntOf(y))
  {
    var r := Div(x, y);
    if r.Err? {
      return x, Some(r.error);
    }
    return r.value, None;
  }

}
