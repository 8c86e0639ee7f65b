/** `operator+` and `operator-` of `StringAsNumber` (hw9/main.cpp:208-411):
    schoolbook addition with carry and subtraction with borrow on digit
    strings, walked from the last digit, plus the sign dispatch that turns
    mixed-sign additions into subtractions and back. */
module Additive {
  import opened Wrappers
  import opened Digits
  import opened BigNumber

  /** One iteration of the addition loop keeps "written digits plus carry
      equal the low places of both operands": writing `digit` at place `k`
      and carrying `next` accounts for place `k` of both operands. */
  lemma {:induction false} AddPlaceStep(lhs: seq<char>, rhs: seq<char>, before: seq<char>, carry: nat, digit: nat, next: nat)
    requires AllDigits(lhs) && AllDigits(rhs) && AllDigits(before) && digit < 10
    requires ValueOf(before) + Scaled(carry, |before|) == LowValue(lhs, |before|) + LowValue(rhs, |before|)
    requires PlaceDigit(lhs, |before|) + PlaceDigit(rhs, |before|) + carry == digit + 10 * next
    ensures AllDigits([DigitChar(digit)] + before)
    ensures ValueOf([DigitChar(digit)] + before) + Scaled(next, |before| + 1)
         == LowValue(lhs, |before| + 1) + LowValue(rhs, |before| + 1)
  {
    var k := |before|;
    var da, db := PlaceDigit(lhs, k), PlaceDigit(rhs, k);
    ValuePrepend(DigitChar(digit), before);
    ScaledShift(next, k);
    ScaledAdd(digit, 10 * next, k);
    ScaledAdd(da + db, carry, k);
    ScaledAdd(da, db, k);
  }

  /** A carry out of the top place would be worth at least `10 * p`, more
      than two operands below `p` can produce. */
  lemma NoCarryArith(r: int, carry: int, scaled: int, a: int, b: int, p: int)
    requires r >= 0 && 0 <= a < p && 0 <= b < p && carry >= 0
    requires carry == 0 ==> scaled == 0
    requires carry > 0 ==> scaled >= 10 * p
    requires r + scaled == a + b
    ensures carry == 0 && r == a + b
  {
  }

  /** After max + 1 places nothing is left to carry. */
  lemma {:induction false} AddNoFinalCarry(lhs: seq<char>, rhs: seq<char>, result: seq<char>, carry: nat, size: nat)
    requires AllDigits(lhs) && AllDigits(rhs) && AllDigits(result)
    requires |lhs| < size && |rhs| < size
    requires ValueOf(result) + Scaled(carry, size) == LowValue(lhs, size) + LowValue(rhs, size)
    ensures carry == 0
    ensures ValueOf(result) == ValueOf(lhs) + ValueOf(rhs)
  {
    var p := Pow10(size - 1);
    assert ValueOf(result) + Scaled(carry, size) == ValueOf(lhs) + ValueOf(rhs) by {
      LowValueAll(lhs, size);
      LowValueAll(rhs, size);
    }
    assert ValueOf(lhs) < p by {
      ValueBound(lhs);
      Pow10Monotone(|lhs|, size - 1);
    }
    assert ValueOf(rhs) < p by {
      ValueBound(rhs);
      Pow10Monotone(|rhs|, size - 1);
    }
    ScaledZero(size);
    ScaledMonotone(0, carry, size);
    assert Pow10(size) == 10 * p;
    NoCarryArith(ValueOf(result), carry, Scaled(carry, size), ValueOf(lhs), ValueOf(rhs), p);
  }

  /** The same-sign branch of `operator+`: add the digit strings place by
      place into a buffer one digit longer than the longer operand. */
  method AddDigits(lhs: seq<char>, rhs: seq<char>) returns (result: seq<char>)
    requires AllDigits(lhs) && AllDigits(rhs)
    ensures |result| == (if |lhs| > |rhs| then |lhs| else |rhs|) + 1
    ensures AllDigits(result)
    ensures ValueOf(result) == ValueOf(lhs) + ValueOf(rhs)
  {
    var size := (if |lhs| > |rhs| then |lhs| else |rhs|) + 1;
    var lhsPos, rhsPos, resPos := |lhs| - 1, |rhs| - 1, size - 1;
    var carry := 0;
    result := [];
    while resPos >= 0
      invariant -1 <= resPos <= size - 1
      invariant |result| == size - 1 - resPos
      invariant lhsPos == |lhs| - 1 - |result| && rhsPos == |rhs| - 1 - |result|
      invariant AllDigits(result)
      invariant 0 <= carry
      invariant ValueOf(result) + Scaled(carry, |result|) == LowValue(lhs, |result|) + LowValue(rhs, |result|)
    {
      var lhsDigit := if lhsPos >= 0 then DigitValue(lhs[lhsPos]) else 0;
      var rhsDigit := if rhsPos >= 0 then DigitValue(rhs[rhsPos]) else 0;
      var sum := lhsDigit + rhsDigit + carry;
      AddPlaceStep(lhs, rhs, result, carry, sum % 10, sum / 10);
      carry := sum / 10;
      result := [DigitChar(sum % 10)] + result;
      lhsPos, rhsPos, resPos := lhsPos - 1, rhsPos - 1, resPos - 1;
    }
    AddNoFinalCarry(lhs, rhs, result, carry, size);
  }

  /** One iteration of the subtraction loop keeps "written digits plus the
      low places of the subtrahend equal the low places of the minuend plus
      the pending borrow". */
  lemma {:induction false} SubPlaceStep(big: seq<char>, small: seq<char>, before: seq<char>,
                     borrow: nat, next: nat, digit: nat)
    requires AllDigits(big) && AllDigits(small) && AllDigits(before) && digit < 10
    requires ValueOf(before) + LowValue(small, |before|) == LowValue(big, |before|) + Scaled(borrow, |before|)
    requires digit + borrow + PlaceDigit(small, |before|) == PlaceDigit(big, |before|) + 10 * next
    ensures AllDigits([DigitChar(digit)] + before)
    ensures ValueOf([DigitChar(digit)] + before) + LowValue(small, |before| + 1)
         == LowValue(big, |before| + 1) + Scaled(next, |before| + 1)
  {
    var k := |before|;
    var bd, sd := PlaceDigit(big, k), PlaceDigit(small, k);
    ValuePrepend(DigitChar(digit), before);
    ScaledShift(next, k);
    ScaledAdd(bd, 10 * next, k);
    ScaledAdd(digit + borrow, sd, k);
    ScaledAdd(digit, borrow, k);
  }

  /** Subtracting a smaller value leaves no borrow past the leading place. */
  lemma {:induction false} SubNoFinalBorrow(big: seq<char>, small: seq<char>, result: seq<char>, borrow: nat)
    requires AllDigits(big) && AllDigits(small) && AllDigits(result)
    requires |result| == |big| && |small| <= |big| && ValueOf(big) > ValueOf(small)
    requires ValueOf(result) + LowValue(small, |big|) == LowValue(big, |big|) + Scaled(borrow, |big|)
    ensures borrow == 0
    ensures ValueOf(result) == ValueOf(big) - ValueOf(small)
  {
    LowValueAll(small, |big|);
    LowValueAll(big, |big|);
    ValueBound(result);
    ScaledMonotone(0, borrow, |big|);
    ScaledZero(|big|);
  }

  /** The same-sign branch of `operator-` once the larger magnitude is known:
      subtract place by place, borrowing from the next place when needed. */
  method SubDigits(big: seq<char>, small: seq<char>) returns (result: seq<char>)
    requires IsCanonical(big) && IsCanonical(small)
    requires ValueOf(big) > ValueOf(small)
    ensures |result| == |big|
    ensures AllDigits(result)
    ensures ValueOf(result) == ValueOf(big) - ValueOf(small)
  {
    LengthOrder(big, small);
    var bigLen, smallLen := |big|, |small|;
    var bigPos, smallPos, resPos := bigLen - 1, smallLen - 1, bigLen - 1;
    var borrow := 0;
    result := [];
    while resPos >= 0
      invariant -1 <= resPos <= bigLen - 1
      invariant |result| == bigLen - 1 - resPos
      invariant bigPos == resPos && smallPos == smallLen - 1 - |result|
      invariant AllDigits(result)
      invariant 0 <= borrow <= 1
      invariant ValueOf(result) + LowValue(small, |result|) == LowValue(big, |result|) + Scaled(borrow, |result|)
    {
      var previous := borrow;
      var bigDigit := DigitValue(big[bigPos]) - borrow;
      var smallDigit := if smallPos >= 0 then DigitValue(small[smallPos]) else 0;
      if bigDigit < smallDigit {
        bigDigit := bigDigit + 10;
        borrow := 1;
      } else {
        borrow := 0;
      }
      SubPlaceStep(big, small, result, previous, borrow, bigDigit - smallDigit);
      result := [DigitChar(bigDigit - smallDigit)] + result;
      bigPos, smallPos, resPos := bigPos - 1, smallPos - 1, resPos - 1;
    }
    SubNoFinalBorrow(big, small, result, borrow);
  }

  /** How many operands are negative: the sign dispatch only ever calls back
      with two non-negative operands. */
  function NegativeCount(a: BigInt, b: BigInt): nat {
    (if a.negative then 1 else 0) + (if b.negative then 1 else 0)
  }

  /** `operator+`: the canonical form of the sum. */
  method Add(a: BigInt, b: BigInt) returns (r: BigInt)
    ensures IntOf(r) == IntOf(a) + IntOf(b)
    decreases NegativeCount(a, b)
  {
    var leftNeg, rightNeg := IsNegative(a), IsNegative(b);
    IntOfZero(a);
    IntOfZero(b);
    if leftNeg && !rightNeg {
      // -x + y = y - x
      var temp := AbsValue(a);
      r := Sub(b, temp);
      return;
    }
    if !leftNeg && rightNeg {
      // x + (-y) = x - y
      var temp := AbsValue(b);
      r := Sub(a, temp);
      return;
    }
    var lhsDigits, rhsDigits := Magnitude(a), Magnitude(b);
    var result := AddDigits(lhsDigits, rhsDigits);
    var out := FromDigits(result);
    if leftNeg && rightNeg {
      CanonicalZero(lhsDigits);
      out := Negated(out);
    }
    r := out;
  }

  /** `operator-`: the canonical form of the difference. */
  method Sub(a: BigInt, b: BigInt) returns (r: BigInt)
    ensures IntOf(r) == IntOf(a) - IntOf(b)
    decreases NegativeCount(a, b)
  {
    var leftNeg, rightNeg := IsNegative(a), IsNegative(b);
    IntOfZero(a);
    IntOfZero(b);
    if leftNeg && !rightNeg {
      // -x - y = -(x + y)
      var temp := AbsValue(a);
      var res := Add(temp, b);
      CanonicalZero(Magnitude(a));
      r := Negated(res);
      return;
    }
    if !leftNeg && rightNeg {
      // x - (-y) = x + y
      var temp := AbsValue(b);
      r := Add(a, temp);
      return;
    }
    r := SubSameSign(a, b);
  }

  /** The same-sign half of `operator-`: equal magnitudes give zero; otherwise
      the smaller magnitude is taken from the larger and the sign follows from
      which was larger, flipped when both operands are negative. */
  method SubSameSign(a: BigInt, b: BigInt) returns (r: BigInt)
    requires a.negative == b.negative
    ensures IntOf(r) == IntOf(a) - IntOf(b)
  {
    var lhsDigits, rhsDigits := Magnitude(a), Magnitude(b);
    var cmp := CompareAbs(lhsDigits, rhsDigits);
    if cmp == 0 {
      r := Zero;
      IntOfZero(r);
      return;
    }
    var negative := false;
    var big, small := lhsDigits, rhsDigits;
    if cmp < 0 {
      negative := true;
      big, small := rhsDigits, lhsDigits;
    }
    var result := SubDigits(big, small);
    var out := FromDigits(result);
    if a.negative {
      // -x - (-y) = -(x - y)
      negative := !negative;
    }
    if negative {
      out := Negated(out);
    }
    r := out;
  }

}
