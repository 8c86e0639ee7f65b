/** `SensorBuffer` (lab9/main.cpp): a named, scaled buffer of `int` readings
    with element-wise compound operators.  The C++ class keeps a `size` and
    a heap array that is null exactly when `size` is 0; here the readings
    are one sequence and the empty sequence plays the null array.  Copies
    are values, so the binary operators (a copy followed by the compound
    operator) are the compound operators themselves.  Readings are
    mathematical integers; the bitwise operators act on their 32-bit two's
    complement form. */
module SensorBuffer {
  import opened Wrappers
  import opened CDivision

  datatype Buffer = Buffer(name: string, scale: int, data: seq<int>)

  /** The parametrized constructor: `new int[size]` throws for a negative
      size; the fresh array's contents are indeterminate and given as
      `contents`. */
  function Create(name: string, scale: int, size: int, contents: seq<int>): (r: Option<Buffer>)
    requires size < 0 || |contents| == size
    ensures r.None? <==> size < 0
    ensures r.Some? ==> r.value.name == name && r.value.scale == scale && |r.value.data| == size
  {
    if size < 0 then None
    else Some(Buffer(name, scale, if size == 0 then [] else contents))
  }

  /** `setValue`: writes inside the buffer only. */
  function SetValue(b: Buffer, index: int, value: int): (r: Buffer)
    ensures |r.data| == |b.data| && r.name == b.name && r.scale == b.scale
    ensures 0 <= index < |b.data| ==> r.data[index] == value
    ensures forall i | 0 <= i < |b.data| && i != index :: r.data[i] == b.data[i]
  {
    if 0 <= index < |b.data| then b.(data := b.data[index := value]) else b
  }

  // ---- element-wise combination -------------------------------------

  /** The loop shared by the buffer-with-buffer operators: the first
      `min(size, other.size)` positions combine, the rest keep their value,
      and an empty operand makes the whole operation a no-op. */
  function Zip(a: seq<int>, b: seq<int>, op: (int, int) -> int): (r: seq<int>)
    ensures |r| == |a|
    ensures forall i | 0 <= i < |a| :: r[i] == (if i < |b| then op(a[i], b[i]) else a[i])
  {
    if |a| == 0 || |b| == 0 then a
    else seq(|a|, i requires 0 <= i < |a| => if i < |b| then op(a[i], b[i]) else a[i])
  }

  /** The loop shared by the buffer-with-int operators. */
  function MapAll(a: seq<int>, v: int, op: (int, int) -> int): (r: seq<int>)
    ensures |r| == |a|
    ensures forall i | 0 <= i < |a| :: r[i] == op(a[i], v)
  {
    seq(|a|, i requires 0 <= i < |a| => op(a[i], v))
  }

  /** `/=` with a buffer divides only where the divisor is non-zero. */
  function GuardedDiv(x: int, y: int): int {
    if y != 0 then TruncDiv(x, y) else x
  }

  function AddBuffer(b: Buffer, other: Buffer): (r: Buffer)
    ensures r.name == b.name && r.scale == b.scale && |r.data| == |b.data|
    ensures forall i | 0 <= i < |b.data| ::
      r.data[i] == (if i < |other.data| then b.data[i] + other.data[i] else b.data[i])
  {
    b.(data := Zip(b.data, other.data, (x, y) => x + y))
  }

  function SubBuffer(b: Buffer, other: Buffer): (r: Buffer)
    ensures r.name == b.name && r.scale == b.scale && |r.data| == |b.data|
    ensures forall i | 0 <= i < |b.data| ::
      r.data[i] == (if i < |other.data| then b.data[i] - other.data[i] else b.data[i])
  {
    b.(data := Zip(b.data, other.data, (x, y) => x - y))
  }

  function MulBuffer(b: Buffer, other: Buffer): (r: Buffer)
    ensures r.name == b.name && r.scale == b.scale && |r.data| == |b.data|
    ensures forall i | 0 <= i < |b.data| ::
      r.data[i] == (if i < |other.data| then b.data[i] * other.data[i] else b.data[i])
  {
    b.(data := Zip(b.data, other.data, (x, y) => x * y))
  }

  function DivBuffer(b: Buffer, other: Buffer): (r: Buffer)
    ensures r.name == b.name && r.scale == b.scale && |r.data| == |b.data|
    ensures forall i | 0 <= i < |b.data| && (i >= |other.data| || other.data[i] == 0) ::
      r.data[i] == b.data[i]
    ensures forall i | 0 <= i < |b.data| && i < |other.data| && other.data[i] != 0 ::
      r.data[i] == TruncDiv(b.data[i], other.data[i])
  {
    b.(data := Zip(b.data, other.data, GuardedDiv))
  }

  function AddScalar(b: Buffer, v: int): (r: Buffer)
    ensures r.name == b.name && r.scale == b.scale && |r.data| == |b.data|
    ensures forall i | 0 <= i < |b.data| :: r.data[i] == b.data[i] + v
  {
    b.(data := MapAll(b.data, v, (x, y) => x + y))
  }

  function SubScalar(b: Buffer, v: int): (r: Buffer)
    ensures r.name == b.name && r.scale == b.scale && |r.data| == |b.data|
    ensures forall i | 0 <= i < |b.data| :: r.data[i] == b.data[i] - v
  {
    b.(data := MapAll(b.data, v, (x, y) => x - y))
  }

  function MulScalar(b: Buffer, v: int): (r: Buffer)
    ensures r.name == b.name && r.scale == b.scale && |r.data| == |b.data|
    ensures forall i | 0 <= i < |b.data| :: r.data[i] == b.data[i] * v
  {
    b.(data := MapAll(b.data, v, (x, y) => x * y))
  }

  /** `/=` with an int: dividing by zero leaves the buffer as it is. */
  function DivScalar(b: Buffer, v: int): (r: Buffer)
    ensures v == 0 ==> r == b
    ensures r.name == b.name && r.scale == b.scale && |r.data| == |b.data|
    ensures v != 0 ==> forall i | 0 <= i < |b.data| :: r.data[i] == TruncDiv(b.data[i], v)
  {
    if |b.data| == 0 || v == 0 then b
    else b.(data := MapAll(b.data, v, GuardedDiv))
  }

  // ---- inverse pairs ------------------------------------------------

  /** `(b += o) -= o` restores `b`. */
  lemma {:induction false} SubUndoesAdd(b: Buffer, other: Buffer)
    ensures SubBuffer(AddBuffer(b, other), other) == b
  {
    var r := SubBuffer(AddBuffer(b, other), other);
    assert r.data == b.data;
  }

  lemma {:induction false} SubUndoesAddScalar(b: Buffer, v: int)
    ensures SubScalar(AddScalar(b, v), v) == b
  {
    var r := SubScalar(AddScalar(b, v), v);
    assert r.data == b.data;
  }

  /** `(b *= v) /= v` restores `b` for a non-zero `v`, since C division of an
      exact multiple is exact. */
  lemma {:induction false} DivUndoesMulScalar(b: Buffer, v: int)
    requires v != 0
    ensures DivScalar(MulScalar(b, v), v) == b
  {
    var r := DivScalar(MulScalar(b, v), v);
    forall i | 0 <= i < |b.data|
      ensures r.data[i] == b.data[i]
    {
      TruncDivExact(b.data[i], v);
    }
  }

  /** `(b *= o) /= o` restores `b` when `o` holds no zero where it is used. */
  lemma {:induction false} DivUndoesMulBuffer(b: Buffer, other: Buffer)
    requires forall i | 0 <= i < |other.data| && i < |b.data| :: other.data[i] != 0
    ensures DivBuffer(MulBuffer(b, other), other) == b
  {
    var r := DivBuffer(MulBuffer(b, other), other);
    forall i | 0 <= i < |b.data|
      ensures r.data[i] == b.data[i]
    {
      if i < |other.data| {
        TruncDivExact(b.data[i], other.data[i]);
      }
    }
  }

  // ---- bitwise operators ---------------------------------------------

  function Pow2(k: nat): (p: nat)
    ensures p >= 1
  {
    if k == 0 then 1 else 2 * Pow2(k - 1)
  }

  const TwoTo32: nat := 0x1_0000_0000

  lemma {:induction false} Pow2Of32()
    ensures Pow2(32) == TwoTo32
  {
    assert Pow2(8) == 0x100;
    assert Pow2(16) == 0x1_0000;
    assert Pow2(24) == 0x100_0000;
  }

  predicate IsInt32(x: int) {
    -0x8000_0000 <= x < 0x8000_0000
  }

  /** The 32-bit two's complement pattern of `x`, as an unsigned number
      (the value reduced modulo 2^32). */
  function Unsigned(x: int): (u: nat)
    ensures u < TwoTo32
  {
    x % TwoTo32
  }

  /** The `int` a 32-bit pattern denotes. */
  function Signed(u: nat): (r: int)
    requires u < TwoTo32
    ensures IsInt32(r)
    ensures Unsigned(r) == u
  {
    if u < 0x8000_0000 then u else u - TwoTo32
  }

  /** Patterns and 32-bit integers correspond one to one. */
  lemma SignedUnsigned(x: int)
    requires IsInt32(x)
    ensures Signed(Unsigned(x)) == x
  {
  }

  /** A bitwise operator on the low `k` bits: bit by bit, lowest first. */
  function Bitwise(x: nat, y: nat, k: nat, op: (bool, bool) -> bool): (r: nat)
    ensures r < Pow2(k)
  {
    if k == 0 then 0
    else 2 * Bitwise(x / 2, y / 2, k - 1, op) + (if op(x % 2 == 1, y % 2 == 1) then 1 else 0)
  }

  function AndBit(p: bool, q: bool): bool { p && q }

  function OrBit(p: bool, q: bool): bool { p || q }

  function XorBit(p: bool, q: bool): bool { p != q }

  /** Bit `i` of `x`, counting from the lowest. */
  predicate Bit(x: nat, i: nat) {
    (x / Pow2(i)) % 2 == 1
  }

  /** Dividing by `2 * p` is halving and then dividing by `p`. */
  lemma {:induction false} DivTwice(z: nat, p: nat)
    requires p >= 1
    ensures z / (2 * p) == (z / 2) / p
  {
    var a, b := (z / 2) / p, (z / 2) % p;
    assert z / 2 == p * a + b;
    assert a * (2 * p) == 2 * (p * a);
    QuotientUnique(z, 2 * p, a, 2 * b + z % 2);
  }

  /** Bit `i < k` of the result is `op` of bit `i` of each operand. */
  lemma {:induction false} BitwiseBit(x: nat, y: nat, k: nat, op: (bool, bool) -> bool, i: nat)
    requires i < k
    ensures Bit(Bitwise(x, y, k, op), i) == op(Bit(x, i), Bit(y, i))
  {
    var z := Bitwise(x, y, k, op);
    var high := Bitwise(x / 2, y / 2, k - 1, op);
    var low := if op(x % 2 == 1, y % 2 == 1) then 1 else 0;
    HalveParts(z, high, low);
    if i > 0 {
      BitwiseBit(x / 2, y / 2, k - 1, op, i - 1);
      DivTwice(z, Pow2(i - 1));
      DivTwice(x, Pow2(i - 1));
      DivTwice(y, Pow2(i - 1));
    }
  }

  /** Every bit below `k` at once. */
  lemma {:induction false} BitwiseBits(x: nat, y: nat, k: nat, op: (bool, bool) -> bool)
    ensures forall i | 0 <= i < k :: Bit(Bitwise(x, y, k, op), i) == op(Bit(x, i), Bit(y, i))
  {
    forall i | 0 <= i < k
      ensures Bit(Bitwise(x, y, k, op), i) == op(Bit(x, i), Bit(y, i))
    {
      BitwiseBit(x, y, k, op, i);
    }
  }

  /** `x & y` on `int`s: each bit of the 32-bit pattern is set exactly when
      it is set in both operands' patterns. */
  function BitAnd(x: int, y: int): (r: int)
    ensures IsInt32(r)
    ensures forall i | 0 <= i < 32 :: Bit(Unsigned(r), i) == (Bit(Unsigned(x), i) && Bit(Unsigned(y), i))
  {
    Pow2Of32();
    BitwiseBits(Unsigned(x), Unsigned(y), 32, AndBit);
    Signed(Bitwise(Unsigned(x), Unsigned(y), 32, AndBit))
  }

  /** `x | y`: a bit is set exactly when it is set in either operand. */
  function BitOr(x: int, y: int): (r: int)
    ensures IsInt32(r)
    ensures forall i | 0 <= i < 32 :: Bit(Unsigned(r), i) == (Bit(Unsigned(x), i) || Bit(Unsigned(y), i))
  {
    Pow2Of32();
    BitwiseBits(Unsigned(x), Unsigned(y), 32, OrBit);
    Signed(Bitwise(Unsigned(x), Unsigned(y), 32, OrBit))
  }

  /** `x ^ y`: a bit is set exactly when the operands' bits differ. */
  function BitXor(x: int, y: int): (r: int)
    ensures IsInt32(r)
    ensures forall i | 0 <= i < 32 :: Bit(Unsigned(r), i) == (Bit(Unsigned(x), i) != Bit(Unsigned(y), i))
  {
    Pow2Of32();
    BitwiseBits(Unsigned(x), Unsigned(y), 32, XorBit);
    Signed(Bitwise(Unsigned(x), Unsigned(y), 32, XorBit))
  }

  /** The low bit and the rest of a number split it uniquely. */
  lemma HalveParts(z: nat, high: nat, low: nat)
    requires low < 2 && z == 2 * high + low
    ensures z / 2 == high && z % 2 == low
  {
  }

  /** Xor-ing twice with the same pattern restores a `k`-bit number. */
  lemma {:induction false} XorTwice(x: nat, y: nat, k: nat)
    requires x < Pow2(k)
    ensures Bitwise(Bitwise(x, y, k, XorBit), y, k, XorBit) == x
  {
    if k > 0 {
      var z := Bitwise(x, y, k, XorBit);
      var high := Bitwise(x / 2, y / 2, k - 1, XorBit);
      var low := if XorBit(x % 2 == 1, y % 2 == 1) then 1 else 0;
      HalveParts(z, high, low);
      XorTwice(x / 2, y / 2, k - 1);
      HalveParts(x, x / 2, x % 2);
    }
  }

  /** `x & x` and `x | x` are `x` on `k`-bit numbers. */
  lemma {:induction false} SelfIdempotent(x: nat, k: nat)
    requires x < Pow2(k)
    ensures Bitwise(x, x, k, AndBit) == x && Bitwise(x, x, k, OrBit) == x
  {
    if k > 0 {
      SelfIdempotent(x / 2, k - 1);
    }
  }

  /** All-zero bits: `&` clears a `k`-bit number, `|` and `^` keep it. */
  lemma {:induction false} WithZeros(u: nat, k: nat)
    requires u < Pow2(k)
    ensures Bitwise(u, 0, k, AndBit) == 0
    ensures Bitwise(u, 0, k, OrBit) == u && Bitwise(u, 0, k, XorBit) == u
  {
    if k > 0 {
      WithZeros(u / 2, k - 1);
    }
  }

  /** All-one bits: `&` keeps a `k`-bit number, `|` sets every bit. */
  lemma {:induction false} WithOnes(u: nat, k: nat)
    requires u < Pow2(k)
    ensures Bitwise(u, Pow2(k) - 1, k, AndBit) == u
    ensures Bitwise(u, Pow2(k) - 1, k, OrBit) == Pow2(k) - 1
  {
    if k > 0 {
      assert (Pow2(k) - 1) / 2 == Pow2(k - 1) - 1 && (Pow2(k) - 1) % 2 == 1;
      WithOnes(u / 2, k - 1);
    }
  }

  /** A symmetric bit operator gives a symmetric `Bitwise`. */
  lemma {:induction false} BitwiseSwap(x: nat, y: nat, k: nat, op: (bool, bool) -> bool)
    requires forall p: bool, q: bool :: op(p, q) == op(q, p)
    ensures Bitwise(x, y, k, op) == Bitwise(y, x, k, op)
  {
    if k > 0 {
      BitwiseSwap(x / 2, y / 2, k - 1, op);
    }
  }

  /** `0` and `-1` (all bits clear, all bits set) are the identities and
      absorbing elements of `&` and `|`; `0` is the identity of `^`. */
  lemma {:induction false} BitIdentities(x: int)
    requires IsInt32(x)
    ensures BitAnd(x, 0) == 0 && BitAnd(x, -1) == x
    ensures BitOr(x, 0) == x && BitOr(x, -1) == -1
    ensures BitXor(x, 0) == x
  {
    Pow2Of32();
    WithZeros(Unsigned(x), 32);
    WithOnes(Unsigned(x), 32);
    SignedUnsigned(x);
  }

  /** `&`, `|` and `^` do not depend on the order of their operands. */
  lemma {:induction false} BitCommutes(x: int, y: int)
    ensures BitAnd(x, y) == BitAnd(y, x) && BitOr(x, y) == BitOr(y, x) && BitXor(x, y) == BitXor(y, x)
  {
    BitwiseSwap(Unsigned(x), Unsigned(y), 32, AndBit);
    BitwiseSwap(Unsigned(x), Unsigned(y), 32, OrBit);
    BitwiseSwap(Unsigned(x), Unsigned(y), 32, XorBit);
  }

  /** `operator&` with a buffer (a copy of `b` is returned). */
  function AndBuffer(b: Buffer, other: Buffer): (r: Buffer)
    ensures r.name == b.name && r.scale == b.scale && |r.data| == |b.data|
    ensures forall i | 0 <= i < |b.data| ::
      r.data[i] == (if i < |other.data| then BitAnd(b.data[i], other.data[i]) else b.data[i])
  {
    b.(data := Zip(b.data, other.data, BitAnd))
  }

  function OrBuffer(b: Buffer, other: Buffer): (r: Buffer)
    ensures r.name == b.name && r.scale == b.scale && |r.data| == |b.data|
    ensures forall i | 0 <= i < |b.data| ::
      r.data[i] == (if i < |other.data| then BitOr(b.data[i], other.data[i]) else b.data[i])
  {
    b.(data := Zip(b.data, other.data, BitOr))
  }

  function XorBuffer(b: Buffer, other: Buffer): (r: Buffer)
    ensures r.name == b.name && r.scale == b.scale && |r.data| == |b.data|
    ensures forall i | 0 <= i < |b.data| ::
      r.data[i] == (if i < |other.data| then BitXor(b.data[i], other.data[i]) else b.data[i])
  {
    b.(data := Zip(b.data, other.data, BitXor))
  }

  function AndScalar(b: Buffer, v: int): (r: Buffer)
    ensures r.name == b.name && r.scale == b.scale && |r.data| == |b.data|
    ensures forall i | 0 <= i < |b.data| :: r.data[i] == BitAnd(b.data[i], v)
  {
    b.(data := MapAll(b.data, v, BitAnd))
  }

  function OrScalar(b: Buffer, v: int): (r: Buffer)
    ensures r.name == b.name && r.scale == b.scale && |r.data| == |b.data|
    ensures forall i | 0 <= i < |b.data| :: r.data[i] == BitOr(b.data[i], v)
  {
    b.(data := MapAll(b.data, v, BitOr))
  }

  function XorScalar(b: Buffer, v: int): (r: Buffer)
    ensures r.name == b.name && r.scale == b.scale && |r.data| == |b.data|
    ensures forall i | 0 <= i < |b.data| :: r.data[i] == BitXor(b.data[i], v)
  {
    b.(data := MapAll(b.data, v, BitXor))
  }

  predicate AllInt32(s: seq<int>) {
    forall i | 0 <= i < |s| :: IsInt32(s[i])
  }

  /** Xor-ing the same buffer twice restores readings that fit in an `int`. */
  lemma {:induction false} XorInvolution(b: Buffer, other: Buffer)
    requires AllInt32(b.data)
    ensures XorBuffer(XorBuffer(b, other), other) == b
  {
    var r := XorBuffer(XorBuffer(b, other), other);
    forall i | 0 <= i < |b.data| && i < |other.data|
      ensures r.data[i] == b.data[i]
    {
      var x, y := b.data[i], other.data[i];
      Pow2Of32();
      XorTwice(Unsigned(x), Unsigned(y), 32);
      SignedUnsigned(x);
    }
  }

  /** `&` and `|` of a buffer with itself change nothing. */
  lemma {:induction false} AndOrIdempotent(b: Buffer)
    requires AllInt32(b.data)
    ensures AndBuffer(b, b) == b && OrBuffer(b, b) == b
  {
    forall i | 0 <= i < |b.data|
      ensures BitAnd(b.data[i], b.data[i]) == b.data[i] && BitOr(b.data[i], b.data[i]) == b.data[i]
    {
      Pow2Of32();
      SelfIdempotent(Unsigned(b.data[i]), 32);
      SignedUnsigned(b.data[i]);
    }
    assert AndBuffer(b, b).data == b.data;
    assert OrBuffer(b, b).data == b.data;
  }

  // ---- comparisons --------------------------------------------------

  predicate AllEqual(s: seq<int>, v: int) {
    forall i | 0 <= i < |s| :: s[i] == v
  }

  /** `operator==(int)`: a non-empty buffer whose every reading is `v`. */
  method EqualsValue(b: Buffer, v: int) returns (r: bool)
    ensures r <==> |b.data| > 0 && AllEqual(b.data, v)
  {
    if |b.data| == 0 {
      return false;
    }
    var i := 0;
    while i < |b.data|
      invariant 0 <= i <= |b.data|
      invariant forall k | 0 <= k < i :: b.data[k] == v
    {
      if b.data[i] != v {
        return false;
      }
      i := i + 1;
    }
    return true;
  }

  /** `operator!`: true for an empty buffer or one holding only zeros. */
  method IsFalsy(b: Buffer) returns (r: bool)
    ensures r <==> AllEqual(b.data, 0)
  {
    if |b.data| == 0 {
      return true;
    }
    var i := 0;
    while i < |b.data|
      invariant 0 <= i <= |b.data|
      invariant forall k | 0 <= k < i :: b.data[k] == 0
    {
      if b.data[i] != 0 {
        return false;
      }
      i := i + 1;
    }
    return true;
  }

  /** A buffer equals `v` exactly when subtracting `v` leaves it non-empty
      and all zeros: `b == v` agrees with `!(b - v)` on non-empty buffers. */
  lemma {:induction false} EqualsMeansZeroDifference(b: Buffer, v: int)
    ensures AllEqual(b.data, v) <==> AllEqual(SubScalar(b, v).data, 0)
  {
    var d := SubScalar(b, v).data;
    if AllEqual(d, 0) {
      forall i | 0 <= i < |b.data| ensures b.data[i] == v {
        assert d[i] == 0;
      }
    }
  }

  /** `operator==` with another buffer: empty buffers compare name and scale,
      otherwise sizes, then name, scale and the readings (`memcmp`). */
  function SameAs(b: Buffer, other: Buffer): (r: bool)
    ensures r <==> b == other
  {
    if |b.data| == 0 && |other.data| == 0 then b.name == other.name && b.scale == other.scale
    else if |b.data| != |other.data| then false
    else b.name == other.name && b.scale == other.scale && b.data == other.data
  }

}
