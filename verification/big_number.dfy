/** The value held by `StringAsNumber` (hw9/main.cpp): a sign and a digit
    string.  The class keeps one C string such as "-120"; here the sign
    and the digits are two fields and `Text` renders the C string.  This
    module covers construction from text, `normalize`, `digits`,
    `compareAbs` and the comparison operators. */
module BigNumber {
  import opened Wrappers
  import opened Digits

  datatype Num = Num(negative: bool, digits: seq<char>)

  /** The class invariant: digits only, no leading zero, no "-0". */
  predicate Canonical(n: Num) {
    IsCanonical(n.digits) && !(n.negative && n.digits == "0")
  }

  type BigInt = n: Num | Canonical(n) witness Num(false, "0")

  const Zero: BigInt := Num(false, "0")

  /** The values of `StringAsNumber("1")` and `StringAsNumber("10")`, which
      the division loop uses (see `LiteralConstants`). */
  const One: BigInt := Num(false, "1")

  const Ten: BigInt := Num(false, "10")

  /** The integer a value denotes. */
  function IntOf(n: BigInt): int {
    if n.negative then -(ValueOf(n.digits) as int) else ValueOf(n.digits)
  }

  /** The canonical value denoting `i`. */
  function FromInt(i: int): (r: BigInt)
    ensures IntOf(r) == i
  {
    var ds := FromNat(if i < 0 then -i else i);
    CanonicalZero(ds);
    Num(i < 0, ds)
  }

  /** Each integer has exactly one canonical representation. */
  lemma {:induction false} FromIntOf(n: BigInt)
    ensures FromInt(IntOf(n)) == n
  {
    CanonicalUnique(n.digits);
    CanonicalZero(n.digits);
  }

  lemma {:induction false} IntOfInjective(a: BigInt, b: BigInt)
    ensures IntOf(a) == IntOf(b) <==> a == b
  {
    FromIntOf(a);
    FromIntOf(b);
  }

  lemma {:induction false} IntOfZero(n: BigInt)
    ensures IntOf(n) == 0 <==> n == Zero
    ensures n.negative <==> IntOf(n) < 0
  {
    CanonicalZero(n.digits);
  }

  /** The C string the class stores: an optional '-' and the digits. */
  function Text(n: Num): string {
    (if n.negative then "-" else "") + n.digits
  }

  /** `isNegative`: the stored text starts with '-'. */
  function IsNegative(n: BigInt): (r: bool)
    ensures r <==> IntOf(n) < 0
  {
    IntOfZero(n);
    Text(n)[0] == '-'
  }

  /** `digits`: the stored text without its sign. */
  function Magnitude(n: BigInt): (r: seq<char>)
    ensures IsCanonical(r)
    ensures ValueOf(r) == if IntOf(n) < 0 then -IntOf(n) else IntOf(n)
  {
    var off := if IsNegative(n) then 1 else 0;
    Text(n)[off..]
  }

  /** The first index at or after `start` where the leading-zero scan of
      `normalize` stops: it passes over '0' but never over the last digit. */
  function SkipZeros(ds: seq<char>, start: nat): (r: nat)
    requires start < |ds|
    ensures start <= r < |ds|
    ensures forall i | start <= i < r :: ds[i] == '0'
    ensures r == |ds| - 1 || ds[r] != '0'
    decreases |ds| - start
  {
    if start < |ds| - 1 && ds[start] == '0' then SkipZeros(ds, start + 1) else start
  }

  lemma {:induction false} DropZerosValue(ds: seq<char>, k: nat)
    requires AllDigits(ds) && k <= |ds|
    requires forall i | 0 <= i < k :: ds[i] == '0'
    ensures AllDigits(ds[k..]) && ValueOf(ds[k..]) == ValueOf(ds)
    decreases k
  {
    AllDigitsSlice(ds, k, |ds|);
    if k > 0 {
      DropZerosValue(ds, k - 1);
      assert ds[k - 1..][1..] == ds[k..];
      ValueDropLeadingZero(ds[k - 1..]);
    }
  }

  /** `normalize`: strip leading zeros (keeping one digit), then turn "-0" into "0". */
  function Normalize(negative: bool, ds: seq<char>): (r: BigInt)
    requires |ds| >= 1 && AllDigits(ds)
    ensures IntOf(r) == if negative then -(ValueOf(ds) as int) else ValueOf(ds)
    ensures |r.digits| <= |ds| && r.digits == ds[|ds| - |r.digits|..]
  {
    var start := SkipZeros(ds, 0);
    DropZerosValue(ds, start);
    var stripped := ds[start..];
    CanonicalZero(stripped);
    if stripped == "0" then Zero else Num(negative, stripped)
  }

  /** Normalizing an already canonical value changes nothing. */
  lemma {:induction false} NormalizeCanonical(n: BigInt)
    ensures Normalize(n.negative, n.digits) == n
  {
    IntOfInjective(Normalize(n.negative, n.digits), n);
  }

  /** The literal grammar `['-'] digit+`; `None` is a null pointer. */
  predicate ValidLiteral(p: Option<string>) {
    p.Some? &&
    ((|p.value| >= 1 && AllDigits(p.value)) ||
     (|p.value| >= 2 && p.value[0] == '-' && AllDigits(p.value[1..])))
  }

  function LiteralValue(s: string): int
    requires ValidLiteral(Some(s))
  {
    if s[0] == '-' then -(ValueOf(s[1..]) as int) else ValueOf(s)
  }

  /** The parametrized constructor: validate, then normalize; a rejected
      text (null, empty, lone '-', any non-digit) yields zero. */
  function Parse(p: Option<string>): (r: BigInt)
    ensures ValidLiteral(p) ==> IntOf(r) == LiteralValue(p.value)
    ensures !ValidLiteral(p) ==> r == Zero
  {
    if p.None? || |p.value| == 0 then Zero
    else
      var s := p.value;
      var hasSign := s[0] == '-';
      var start := if hasSign then 1 else 0;
      if hasSign && |s| == 1 then Zero
      else if !AllDigits(s[start..]) then Zero
      else
        assert !hasSign ==> s[start..] == s;
        Normalize(hasSign, s[start..])
  }

  /** Constructing from a plain digit string yields its (non-negative) value. */
  lemma {:induction false} ParseDigits(ds: seq<char>)
    requires |ds| >= 1 && AllDigits(ds)
    ensures IntOf(Parse(Some(ds))) == ValueOf(ds)
    ensures !Parse(Some(ds)).negative
  {
    IntOfZero(Parse(Some(ds)));
  }

  /** The constructor applied to a buffer of digits, as the arithmetic
      operators do with the digits they compute. */
  method FromDigits(ds: seq<char>) returns (r: BigInt)
    requires |ds| >= 1 && AllDigits(ds)
    ensures !r.negative && IntOf(r) == ValueOf(ds)
  {
    r := Parse(Some(ds));
    ParseDigits(ds);
  }

  /** `StringAsNumber temp(n.digits())`: the magnitude rebuilt through the constructor. */
  method AbsValue(n: BigInt) returns (r: BigInt)
    ensures !r.negative
    ensures IntOf(r) == if IntOf(n) < 0 then -IntOf(n) else IntOf(n)
  {
    var ds := Magnitude(n);
    r := FromDigits(ds);
  }

  /** Prefixing '-' to a positive value's text negates it and stays canonical. */
  function Negated(n: BigInt): (r: BigInt)
    requires IntOf(n) > 0
    ensures IntOf(r) == -IntOf(n)
  {
    IntOfZero(n);
    Num(true, n.digits)
  }

  /** Rendering a value and constructing from the text gives the value back. */
  lemma {:induction false} ParseText(n: BigInt)
    ensures ValidLiteral(Some(Text(n)))
    ensures Parse(Some(Text(n))) == n
  {
    var s := Text(n);
    if n.negative {
      assert s[1..] == n.digits;
    } else {
      assert s == n.digits;
    }
    IntOfInjective(Parse(Some(s)), n);
  }

  /** Leading zeros in a literal are ignored. */
  lemma {:induction false} ParseLeadingZero(s: string)
    requires |s| >= 1 && AllDigits(s)
    ensures Parse(Some("0" + s)) == Parse(Some(s))
  {
    var z := "0" + s;
    ValueAppend("0", s);
    assert z[1..] == s;
    ValueDropLeadingZero(z);
    IntOfInjective(Parse(Some(z)), Parse(Some(s)));
  }

  /** A negative literal of value zero ("-0", "-000") is the non-negative zero. */
  lemma {:induction false} ParseNegativeZero(s: string)
    requires |s| >= 1 && AllDigits(s) && ValueOf(s) == 0
    ensures Parse(Some("-" + s)) == Zero
  {
    var m := "-" + s;
    assert m[1..] == s;
    IntOfInjective(Parse(Some(m)), Zero);
  }

  lemma {:induction false} ConstantValues()
    ensures IntOf(Zero) == 0 && IntOf(One) == 1 && IntOf(Ten) == 10
  {
    ValueSingle('0');
    ValueSingle('1');
    assert "10"[..1] == "1";
  }

  /** The constructor on the literals "0", "1" and "10" yields the constants. */
  lemma {:induction false} LiteralConstants()
    ensures Parse(Some("0")) == Zero && Parse(Some("1")) == One && Parse(Some("10")) == Ten
  {
    assert Text(Zero) == "0" && Text(One) == "1" && Text(Ten) == "10";
    ParseText(Zero);
    ParseText(One);
    ParseText(Ten);
  }

  /** `strcmp` on strings without NUL; only its sign is specified by C, so
      the model returns -1, 0 or 1. */
  function StrCmp(a: string, b: string): (r: int)
    ensures -1 <= r <= 1
    ensures r == 0 <==> a == b
  {
    if |a| == 0 && |b| == 0 then 0
    else if |a| == 0 then -1
    else if |b| == 0 then 1
    else if a[0] < b[0] then -1
    else if a[0] > b[0] then 1
    else
      var r := StrCmp(a[1..], b[1..]);
      assert a == [a[0]] + a[1..] && b == [b[0]] + b[1..];
      r
  }

  /** On equal-length digit strings `strcmp` orders by value. */
  lemma {:induction false} StrCmpDigits(a: string, b: string)
    requires |a| == |b| && AllDigits(a) && AllDigits(b)
    ensures StrCmp(a, b) < 0 <==> ValueOf(a) < ValueOf(b)
    ensures StrCmp(a, b) == 0 <==> ValueOf(a) == ValueOf(b)
    decreases |a|
  {
    if |a| > 0 {
      ValueLeading(a);
      ValueLeading(b);
      ValueBound(a[1..]);
      ValueBound(b[1..]);
      var k := |a| - 1;
      var da, db := DigitValue(a[0]), DigitValue(b[0]);
      if a[0] < b[0] {
        ScaledMonotone(da, db, k);
      } else if a[0] > b[0] {
        ScaledMonotone(db, da, k);
      } else {
        StrCmpDigits(a[1..], b[1..]);
      }
    }
  }

  /** `compareAbs`: longer is larger, equal lengths compare with `strcmp`. */
  function CompareAbs(lhs: seq<char>, rhs: seq<char>): (r: int)
    requires IsCanonical(lhs) && IsCanonical(rhs)
    ensures r < 0 <==> ValueOf(lhs) < ValueOf(rhs)
    ensures r == 0 <==> ValueOf(lhs) == ValueOf(rhs)
    ensures r > 0 <==> ValueOf(lhs) > ValueOf(rhs)
  {
    LengthOrder(lhs, rhs);
    LengthOrder(rhs, lhs);
    if |lhs| < |rhs| then -1
    else if |lhs| > |rhs| then 1
    else
      StrCmpDigits(lhs, rhs);
      StrCmp(lhs, rhs)
  }

  /** Without leading zeros, fewer digits means a smaller value. */
  lemma {:induction false} LengthOrder(a: seq<char>, b: seq<char>)
    requires IsCanonical(a) && IsCanonical(b)
    ensures |a| < |b| ==> ValueOf(a) < ValueOf(b)
  {
    if |a| < |b| {
      ValueBound(a);
      CanonicalLowerBound(b);
      Pow10Monotone(|a|, |b| - 1);
    }
  }

  /** The stored text determines the value. */
  lemma {:induction false} TextInjective(a: BigInt, b: BigInt)
    requires Text(a) == Text(b)
    ensures a == b
  {
    assert Text(a)[0] == '-' <==> a.negative;
    assert Text(b)[0] == '-' <==> b.negative;
    if a.negative {
      assert a.digits == Text(a)[1..];
      assert b.digits == Text(b)[1..];
    } else {
      assert a.digits == Text(a);
      assert b.digits == Text(b);
    }
  }

  /** `operator==`: the stored texts are equal. */
  function Eq(a: BigInt, b: BigInt): (r: bool)
    ensures r <==> IntOf(a) == IntOf(b)
  {
    IntOfInjective(a, b);
    if Text(a) == Text(b) then
      TextInjective(a, b);
      StrCmp(Text(a), Text(b)) == 0
    else
      StrCmp(Text(a), Text(b)) == 0
  }

  function Ne(a: BigInt, b: BigInt): (r: bool)
    ensures r <==> IntOf(a) != IntOf(b)
  {
    !Eq(a, b)
  }

  /** `operator<`: signs first, then magnitudes, inverted when both are negative. */
  function Lt(a: BigInt, b: BigInt): (r: bool)
    ensures r <==> IntOf(a) < IntOf(b)
  {
    var leftNeg, rightNeg := IsNegative(a), IsNegative(b);
    if leftNeg && !rightNeg then true
    else if !leftNeg && rightNeg then false
    else
      var cmp := CompareAbs(Magnitude(a), Magnitude(b));
      if leftNeg && rightNeg then cmp > 0 else cmp < 0
  }

  function Le(a: BigInt, b: BigInt): (r: bool)
    ensures r <==> IntOf(a) <= IntOf(b)
  {
    Lt(a, b) || Eq(a, b)
  }

  function Gt(a: BigInt, b: BigInt): (r: bool)
    ensures r <==> IntOf(a) > IntOf(b)
  {
    !Le(a, b)
  }

  function Ge(a: BigInt, b: BigInt): (r: bool)
    ensures r <==> IntOf(a) >= IntOf(b)
  {
    !Lt(a, b)
  }

  /** Exactly one of `<`, `==`, `>` holds. */
  lemma {:induction false} Trichotomy(a: BigInt, b: BigInt)
    ensures Lt(a, b) || Eq(a, b) || Gt(a, b)
    ensures !(Lt(a, b) && Eq(a, b)) && !(Lt(a, b) && Gt(a, b)) && !(Eq(a, b) && Gt(a, b))
    ensures Eq(a, b) <==> a == b
  {
    IntOfInjective(a, b);
  }

}
