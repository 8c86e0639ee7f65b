/** Integer division as C and C++ define it (section 7.6.5 of ISO/IEC
    14882): the quotient truncates toward zero.  Dafny's own `/` is
    Euclidean, so the C operator is written out here and related to it. */
module CDivision {

  function Abs(x: int): nat {
    if x < 0 then -x else x
  }

  /** C++ integer division: the quotient of the magnitudes, negated when the
      signs differ (truncation toward zero). */
  function TruncDiv(x: int, y: int): int
    requires y != 0
  {
    var q := Abs(x) / Abs(y);
    if (x < 0) != (y < 0) then -q else q
  }

  lemma {:induction false} MulMonotone(x: int, y: int, d: int)
    requires x <= y && d >= 0
    ensures x * d <= y * d
  {
    assert y * d - x * d == (y - x) * d;
  }

  lemma Distribute(a: int, b: int, c: int)
    ensures (a + b) * c == a * c + b * c
  {
  }

  /** Dafny's `/` on a positive divisor is the only quotient leaving a
      remainder in `[0, d)`. */
  lemma {:induction false} QuotientUnique(a: int, d: int, q: int, rem: int)
    requires d > 0 && 0 <= rem < d && q * d + rem == a
    ensures q == a / d
  {
    var q0 := a / d;
    assert q0 * d + a % d == a;
    if q < q0 {
      MulMonotone(q + 1, q0, d);
      Distribute(q, 1, d);
    } else if q > q0 {
      MulMonotone(q0 + 1, q, d);
      Distribute(q0, 1, d);
    }
  }

  lemma NegateBoth(a: int, b: int)
    ensures (-a) * (-b) == a * b && (-a) * b == -(a * b) && a * (-b) == -(a * b)
  {
  }

  /** The quotient truncates toward zero, so the remainder `x - q*y` is smaller than `y`
      in magnitude and is zero or has the sign of `x`. */
  lemma {:induction false} TruncDivRemainder(x: int, y: int)
    requires y != 0
    ensures Abs(x - TruncDiv(x, y) * y) < Abs(y)
    ensures x - TruncDiv(x, y) * y == 0 || (x - TruncDiv(x, y) * y < 0 <==> x < 0)
  {
    var ax, ay := Abs(x) as int, Abs(y) as int;
    var q, r0 := ax / ay, ax % ay;
    assert q * ay + r0 == ax;
    var t := TruncDiv(x, y);
    NegateBoth(q, ay);
    if x < 0 {
      assert x - t * y == -r0;
    } else {
      assert x - t * y == r0;
    }
  }

  /** ... and those two properties determine the quotient. */
  lemma {:induction false} TruncDivUnique(x: int, y: int, q: int)
    requires y != 0
    requires Abs(x - q * y) < Abs(y)
    requires x - q * y == 0 || (x - q * y < 0 <==> x < 0)
    ensures q == TruncDiv(x, y)
  {
    var rem := x - q * y;
    NegateBoth(q, y);
    if x >= 0 && y > 0 {
      QuotientUnique(x, y, q, rem);
    } else if x >= 0 {
      QuotientUnique(x, -y, -q, rem);
    } else if y > 0 {
      QuotientUnique(-x, y, -q, -rem);
    } else {
      QuotientUnique(-x, -y, q, -rem);
    }
  }

  /** Dividing an exact multiple gives the factor back. */
  lemma {:induction false} TruncDivExact(x: int, y: int)
    requires y != 0
    ensures TruncDiv(x * y, y) == x
  {
    TruncDivUnique(x * y, y, x);
  }

}
