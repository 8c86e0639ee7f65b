/** `operator*` and `operator/` of `StringAsNumber` (hw9/main.cpp:413-536):
    schoolbook multiplication into a buffer of `lhsLen + rhsLen` zeros, and
    integer division by chunked subtraction of the divisor times powers of
    ten.  Division by zero throws in the source; here it is an `Err`. */
module Multiplicative {
  import opened Wrappers
  import opened Digits
  import opened BigNumber
  import opened Additive
  import opened CDivision

  /** `memset(result, '0', n)`. */
  function Zeros(n: nat): (z: seq<char>)
    ensures |z| == n && AllDigits(z)
    ensures forall i | 0 <= i < n :: z[i] == '0'
  {
    seq(n, _ => '0')
  }

  lemma {:induction false} ZerosValue(n: nat)
    ensures ValueOf(Zeros(n)) == 0
    decreases n
  {
    if n > 0 {
      assert Zeros(n)[..n - 1] == Zeros(n - 1);
      ZerosValue(n - 1);
    }
  }

  /** Every place from `place` upwards (indices below `|s| - place`) still holds '0'. */
  predicate ZeroFrom(s: seq<char>, place: nat) {
    forall idx | 0 <= idx < |s| - place :: s[idx] == '0'
  }

  /** Writing at a place below `place` keeps the places above it zero. */
  lemma {:induction false} ZeroFromUpdate(s: seq<char>, index: nat, c: char, place: nat)
    requires ZeroFrom(s, place) && index < |s| && index >= |s| - place
    ensures ZeroFrom(s[index := c], place)
  {
    var t := s[index := c];
    forall idx | 0 <= idx < |s| - place
      ensures t[idx] == '0'
    {
      assert idx != index;
    }
  }

  /** Storing the row's final carry in a '0' place adds it at that place. */
  lemma {:induction false} StoreCarry(s: seq<char>, place: nat, carry: nat)
    requires AllDigits(s) && place < |s| && ZeroFrom(s, place) && carry < 10
    ensures AllDigits(s[|s| - 1 - place := DigitChar(carry)])
    ensures ZeroFrom(s[|s| - 1 - place := DigitChar(carry)], place + 1)
    ensures ValueOf(s[|s| - 1 - place := DigitChar(carry)]) == ValueOf(s) + Scaled(carry, place)
  {
    var index := |s| - 1 - place;
    assert s[index] == '0';
    ValueUpdate(s, index, DigitChar(carry));
    ScaledZero(place);
    var t := s[index := DigitChar(carry)];
    forall idx | 0 <= idx < |s| - (place + 1)
      ensures t[idx] == '0'
    {
      assert idx != index;
    }
  }

  lemma {:induction false} DigitProduct(a: nat, b: nat)
    requires a < 10 && b < 10
    ensures a * b <= 81
  {
    if a > 0 {
      assert a * b <= a * 9;
    }
  }

  /** One inner step of the multiplication: the digit at place `k + m` goes
      from its old value to `digit` and `next` is carried, which adds the partial
      product `prod` at place `m` of the current row (the row sits at place `k`). */
  lemma {:induction false} MulPlaceStep(s: seq<char>, index: nat, k: nat, m: nat,
                                        prod: nat, carry: nat, digit: nat, next: nat,
                                        start: int, partial: int)
    requires AllDigits(s) && index < |s| && |s| - 1 - index == k + m && digit < 10
    requires ValueOf(s) + Scaled(carry, k + m) == start + Scaled(partial, k)
    requires DigitValue(s[index]) + prod + carry == digit + 10 * next
    ensures AllDigits(s[index := DigitChar(digit)])
    ensures ValueOf(s[index := DigitChar(digit)]) + Scaled(next, k + m + 1)
         == start + Scaled(partial + Scaled(prod, m), k)
  {
    var place := k + m;
    var before := DigitValue(s[index]);
    ValueUpdate(s, index, DigitChar(digit));
    ScaledShift(next, place);
    ScaledAdd(digit, 10 * next, place);
    ScaledAdd(before + prod, carry, place);
    ScaledAdd(before, prod, place);
    ScaledCompose(prod, m, k);
    ScaledAdd(partial, Scaled(prod, m), k);
  }

  /** The running row total grows by the next partial product. */
  lemma {:induction false} RowStep(d: nat, low: int, r: nat, m: nat)
    ensures d * (low + Scaled(r, m)) == d * low + Scaled(d * r, m)
  {
    ScaledProduct(r, m);
    ScaledProduct(d * r, m);
    assert d * (r * Pow10(m)) == (d * r) * Pow10(m);
  }

  /** A finished row `d * rhs` at place `k` adds `d * 10^k` copies of `rhs`. */
  lemma {:induction false} RowTotal(low: int, d: nat, v: nat, k: nat)
    ensures low * v + Scaled(d * v, k) == (low + Scaled(d, k)) * v
  {
    ScaledProduct(d * v, k);
    ScaledProduct(d, k);
    assert (d * v) * Pow10(k) == (d * Pow10(k)) * v;
  }

  /** One pass of the outer loop of `operator*`: add `d * rhs` into the
      buffer with its last digit at place `k`, carrying from place to place,
      and store the final carry at place `k + |rhs|`, which is still '0'. */
  method AddRow(buffer: seq<char>, d: nat, rhs: seq<char>, k: nat) returns (result: seq<char>)
    requires AllDigits(buffer) && AllDigits(rhs) && d < 10
    requires k + |rhs| < |buffer| && ZeroFrom(buffer, k + |rhs|)
    ensures |result| == |buffer| && AllDigits(result)
    ensures ZeroFrom(result, k + |rhs| + 1)
    ensures ValueOf(result) == ValueOf(buffer) + Scaled(d * ValueOf(rhs), k)
  {
    var size, rhsLen := |buffer|, |rhs|;
    result := buffer;
    var carry := 0;
    ghost var partial := 0;
    ScaledZero(k);
    var j := rhsLen - 1;
    while j >= 0
      invariant -1 <= j <= rhsLen - 1
      invariant |result| == size && AllDigits(result)
      invariant 0 <= carry <= 9
      invariant ZeroFrom(result, k + rhsLen)
      invariant partial == d * LowValue(rhs, rhsLen - 1 - j)
      invariant ValueOf(result) + Scaled(carry, k + (rhsLen - 1 - j)) == ValueOf(buffer) + Scaled(partial, k)
    {
      var rhsDigit := DigitValue(rhs[j]);
      var pos := k + (rhsLen - 1 - j);
      var index := (size - 1) - pos;
      DigitProduct(d, rhsDigit);
      var curr := DigitValue(result[index]) + d * rhsDigit + carry;
      MulPlaceStep(result, index, k, rhsLen - 1 - j, d * rhsDigit, carry, curr % 10, curr / 10,
                   ValueOf(buffer), partial);
      ZeroFromUpdate(result, index, DigitChar(curr % 10), k + rhsLen);
      RowStep(d, LowValue(rhs, rhsLen - 1 - j), rhsDigit, rhsLen - 1 - j);
      result := result[index := DigitChar(curr % 10)];
      carry := curr / 10;
      partial := partial + Scaled(d * rhsDigit, rhsLen - 1 - j);
      j := j - 1;
    }
    LowValueAll(rhs, rhsLen);
    if carry > 0 {
      var index := (size - 1) - (k + rhsLen);
      StoreCarry(result, k + rhsLen, carry);
      result := result[index := DigitChar(DigitValue(result[index]) + carry)];
    } else {
      ScaledZero(k + rhsLen);
    }
  }

  /** The digit loops of `operator*`: for each digit of `lhs` from the
      right, add that digit times `rhs` into a zeroed buffer at the digit's place. */
  method MulDigits(lhs: seq<char>, rhs: seq<char>) returns (result: seq<char>)
    requires AllDigits(lhs) && AllDigits(rhs)
    ensures |result| == |lhs| + |rhs|
    ensures AllDigits(result)
    ensures ValueOf(result) == ValueOf(lhs) * ValueOf(rhs)
  {
    var lhsLen, rhsLen := |lhs|, |rhs|;
    var size := lhsLen + rhsLen;
    result := Zeros(size);
    ZerosValue(size);
    var i := lhsLen - 1;
    while i >= 0
      invariant -1 <= i <= lhsLen - 1
      invariant |result| == size && AllDigits(result)
      invariant ZeroFrom(result, lhsLen - 1 - i + rhsLen)
      invariant ValueOf(result) == LowValue(lhs, lhsLen - 1 - i) * ValueOf(rhs)
    {
      var k := lhsLen - 1 - i;
      var lhsDigit := DigitValue(lhs[i]);
      RowTotal(LowValue(lhs, k), lhsDigit, ValueOf(rhs), k);
      result := AddRow(result, lhsDigit, rhs, k);
      i := i - 1;
    }
    LowValueAll(lhs, lhsLen);
  }

  /** The sign of a product and its magnitude. */
  lemma {:induction false} ProductSign(x: int, y: int)
    ensures var m := (if x < 0 then -x else x) * (if y < 0 then -y else y);
            x * y == (if (x < 0) != (y < 0) then -m else m)
    ensures x != 0 && y != 0 ==> (if x < 0 then -x else x) * (if y < 0 then -y else y) > 0
  {
    var ax, ay := (if x < 0 then -x else x), (if y < 0 then -y else y);
    if x < 0 && y >= 0 {
      assert x * y == -(ax * ay);
    } else if x >= 0 && y < 0 {
      assert x * y == -(ax * ay);
    } else if x < 0 && y < 0 {
      assert x * y == ax * ay;
    }
    if x != 0 && y != 0 {
      assert ax * ay >= ax;
    }
  }

  /** `operator*`: zero if either side is zero, otherwise the product of the
      magnitudes, negative exactly when the signs differ. */
  method Mul(a: BigInt, b: BigInt) returns (r: BigInt)
    ensures IntOf(r) == IntOf(a) * IntOf(b)
  {
    ConstantValues();
    ProductSign(IntOf(a), IntOf(b));
    // `StringAsNumber("0")` is `Zero` (LiteralConstants)
    if Eq(a, Zero) || Eq(b, Zero) {
      r := Zero;
      return;
    }
    var negative := IsNegative(a) != IsNegative(b);
    var lhsDigits, rhsDigits := Magnitude(a), Magnitude(b);
    var result := MulDigits(lhsDigits, rhsDigits);
    var out := FromDigits(result);
    if negative {
      out := Negated(out);
    }
    r := out;
  }

  lemma TimesTen(m: int, d: int)
    ensures (m * d) * 10 == (m * 10) * d
  {
  }

  datatype DivError = DivideByZero

  /** The inner loop of `operator/`: multiply the divisor by ten while the
      product still fits in what is left of the dividend. */
  method LargestChunk(divisor: BigInt, left: BigInt) returns (currentDivisor: BigInt, multiple: BigInt)
    requires 1 <= IntOf(divisor) <= IntOf(left)
    ensures IntOf(multiple) >= 1
    ensures IntOf(currentDivisor) == IntOf(multiple) * IntOf(divisor)
    ensures IntOf(divisor) <= IntOf(currentDivisor) <= IntOf(left) < IntOf(currentDivisor) * 10
  {
    ConstantValues();
    var ten := Ten;
    currentDivisor := divisor;
    multiple := One;
    while true
      invariant IntOf(multiple) >= 1
      invariant IntOf(currentDivisor) == IntOf(multiple) * IntOf(divisor)
      invariant IntOf(divisor) <= IntOf(currentDivisor) <= IntOf(left)
      decreases IntOf(left) - IntOf(currentDivisor)
    {
      var next := Mul(currentDivisor, ten);
      if Gt(next, left) {
        break;
      }
      currentDivisor := next;
      multiple := Mul(multiple, ten);
      TimesTen(IntOf(multiple) / 10, IntOf(divisor));
    }
  }

  /** Moving a chunk `m * d` from the rest to the quotient keeps `q * d + rest`. */
  lemma {:induction false} ChunkStep(q: int, rest: int, m: int, d: int, q': int, rest': int)
    requires q' == q + m && rest' == rest - m * d
    ensures q' * d + rest' == q * d + rest
  {
    Distribute(q, m, d);
  }

  /** The outer loop of `operator/` on magnitudes: subtract the largest
      chunk and add its multiple to the quotient until the rest is smaller
      than the divisor. */
  method ChunkedDivide(dividend: BigInt, divisor: BigInt) returns (quotient: BigInt)
    requires IntOf(dividend) >= 0 && IntOf(divisor) >= 1
    ensures IntOf(quotient) == IntOf(dividend) / IntOf(divisor)
    ensures IntOf(quotient) >= 0
  {
    var left := dividend;
    quotient := Zero;
    ConstantValues();
    while Ge(left, divisor)
      invariant IntOf(quotient) >= 0 && IntOf(left) >= 0
      invariant IntOf(quotient) * IntOf(divisor) + IntOf(left) == IntOf(dividend)
      decreases IntOf(left)
    {
      var currentDivisor, multiple := LargestChunk(divisor, left);
      ghost var q, rest := IntOf(quotient), IntOf(left);
      left := Sub(left, currentDivisor);
      quotient := Add(quotient, multiple);
      ChunkStep(q, rest, IntOf(multiple), IntOf(divisor), IntOf(quotient), IntOf(left));
    }
    QuotientUnique(IntOf(dividend), IntOf(divisor), IntOf(quotient), IntOf(left));
  }

  /** Negating the quotient of the magnitudes when the signs differ is `TruncDiv`. */
  lemma SignedQuotient(x: int, y: int, q: int, negative: bool, result: int)
    requires y != 0 && q == Abs(x) / Abs(y) && negative == ((x < 0) != (y < 0))
    requires negative && q != 0 ==> result == -q
    requires !(negative && q != 0) ==> result == q
    ensures result == TruncDiv(x, y)
  {
  }

  /** `operator/`: throws on a zero divisor; `0 / x` is zero; otherwise the
      quotient of the magnitudes, negated when the signs differ and the
      quotient is not zero. */
  method Div(a: BigInt, b: BigInt) returns (r: Result<BigInt, DivError>)
    ensures r.Err? <==> IntOf(b) == 0
    ensures r.Ok? ==> IntOf(r.value) == TruncDiv(IntOf(a), IntOf(b))
  {
    ConstantValues();
    if Eq(b, Zero) {
      return Err(DivideByZero);
    }
    if Eq(a, Zero) {
      assert Abs(IntOf(a)) / Abs(IntOf(b)) == 0;
      return Ok(Zero);
    }
    var quotient := SignedChunkedDivide(a, b);
    return Ok(quotient);
  }

  /** The part of `operator/` after the zero checks. */
  method SignedChunkedDivide(a: BigInt, b: BigInt) returns (quotient: BigInt)
    requires IntOf(b) != 0
    ensures IntOf(quotient) == TruncDiv(IntOf(a), IntOf(b))
  {
    ghost var x, y := IntOf(a), IntOf(b);
    var negative := IsNegative(a) != IsNegative(b);
    var left := AbsValue(a);
    var divisor := AbsValue(b);
    ConstantValues();
    var zero := Zero;
    quotient := ChunkedDivide(left, divisor);
    ghost var q := IntOf(quotient);
    if negative && Ne(quotient, zero) {
      quotient := Negated(quotient);
    }
    SignedQuotient(x, y, q, negative, IntOf(quotient));
  }

}
