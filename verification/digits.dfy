/** Decimal digit strings (most significant digit first) and the natural
    number they denote.  Everything the arithmetic of `StringAsNumber`
    relies on about positional notation is proved here once. */
module Digits {

  predicate IsDigit(c: char) {
    '0' <= c <= '9'
  }

  predicate AllDigits(s: seq<char>) {
    forall i | 0 <= i < |s| :: IsDigit(s[i])
  }

  /** `c - '0'` in the source. */
  function DigitValue(c: char): (d: nat)
    requires IsDigit(c)
    ensures d < 10
  {
    c as int - '0' as int
  }

  /** `d + '0'` in the source; the inverse of `DigitValue`. */
  function DigitChar(d: nat): (c: char)
    requires d < 10
    ensures IsDigit(c) && DigitValue(c) == d
  {
    (d + '0' as int) as char
  }

  lemma DigitCharOfValue(c: char)
    requires IsDigit(c)
    ensures DigitChar(DigitValue(c)) == c
  {
  }

  function Pow10(k: nat): (p: nat)
    ensures p >= 1
  {
    if k == 0 then 1 else 10 * Pow10(k - 1)
  }

  lemma {:induction false} Pow10Add(i: nat, j: nat)
    ensures Pow10(i + j) == Pow10(i) * Pow10(j)
    decreases j
  {
    if j > 0 {
      Pow10Add(i, j - 1);
      calc {
        Pow10(i + j);
        10 * Pow10(i + j - 1);
        10 * (Pow10(i) * Pow10(j - 1));
        Pow10(i) * (10 * Pow10(j - 1));
      }
    }
  }

  /** `x * 10^k` written as `k` multiplications by ten, so that place-value
      reasoning stays linear. */
  function Scaled(x: int, k: nat): int
    decreases k
  {
    if k == 0 then x else 10 * Scaled(x, k - 1)
  }

  lemma {:induction false} ScaledAdd(x: int, y: int, k: nat)
    ensures Scaled(x + y, k) == Scaled(x, k) + Scaled(y, k)
    decreases k
  {
    if k > 0 {
      ScaledAdd(x, y, k - 1);
    }
  }

  lemma {:induction false} ScaledZero(k: nat)
    ensures Scaled(0, k) == 0
    decreases k
  {
    if k > 0 {
      ScaledZero(k - 1);
    }
  }

  lemma {:induction false} ScaledOne(k: nat)
    ensures Scaled(1, k) == Pow10(k)
    decreases k
  {
    if k > 0 {
      ScaledOne(k - 1);
    }
  }

  lemma {:induction false} ScaledShift(x: int, k: nat)
    ensures Scaled(10 * x, k) == Scaled(x, k + 1)
    decreases k
  {
    if k > 0 {
      ScaledShift(x, k - 1);
    }
  }

  /** Scaling preserves order, and a positive multiple of `10^k` is at least `10^k`. */
  lemma {:induction false} ScaledMonotone(x: int, y: int, k: nat)
    requires x <= y
    ensures Scaled(x, k) <= Scaled(y, k)
    ensures x < y ==> Scaled(x, k) + Pow10(k) <= Scaled(y, k)
    decreases k
  {
    if k > 0 {
      ScaledMonotone(x, y, k - 1);
    }
  }

  lemma {:induction false} ScaledProduct(x: int, k: nat)
    ensures Scaled(x, k) == x * Pow10(k)
    decreases k
  {
    if k > 0 {
      ScaledProduct(x, k - 1);
      assert 10 * (x * Pow10(k - 1)) == x * (10 * Pow10(k - 1));
    }
  }

  lemma {:induction false} ScaledCompose(x: int, i: nat, j: nat)
    ensures Scaled(Scaled(x, i), j) == Scaled(x, i + j)
    decreases j
  {
    if j > 0 {
      ScaledCompose(x, i, j - 1);
    }
  }

  lemma {:induction false} Pow10Monotone(i: nat, j: nat)
    requires i <= j
    ensures Pow10(i) <= Pow10(j)
    decreases j
  {
    if i < j {
      Pow10Monotone(i, j - 1);
    }
  }

  /** The natural number a digit string denotes. */
  function ValueOf(s: seq<char>): nat
    requires AllDigits(s)
  {
    if |s| == 0 then 0 else ValueOf(s[..|s| - 1]) * 10 + DigitValue(s[|s| - 1])
  }

  lemma {:induction false} AllDigitsSlice(s: seq<char>, i: nat, j: nat)
    requires AllDigits(s) && i <= j <= |s|
    ensures AllDigits(s[i..j])
  {
    assert forall k | 0 <= k < j - i :: s[i..j][k] == s[i + k];
  }

  /** Positional notation: the digits of `b` are the low `|b|` places. */
  lemma {:induction false} ValueAppend(a: seq<char>, b: seq<char>)
    requires AllDigits(a) && AllDigits(b)
    ensures AllDigits(a + b)
    ensures ValueOf(a + b) == Scaled(ValueOf(a), |b|) + ValueOf(b)
    decreases |b|
  {
    assert AllDigits(a + b) by {
      forall i | 0 <= i < |a + b| ensures IsDigit((a + b)[i]) {
        if i >= |a| {
          assert (a + b)[i] == b[i - |a|];
        }
      }
    }
    if |b| > 0 {
      var b' := b[..|b| - 1];
      assert (a + b)[..|a + b| - 1] == a + b';
      assert (a + b)[|a + b| - 1] == b[|b| - 1];
      ValueAppend(a, b');
    } else {
      assert a + b == a;
    }
  }

  /** A string of `k` digits denotes less than `10^k`. */
  lemma {:induction false} ValueBound(s: seq<char>)
    requires AllDigits(s)
    ensures ValueOf(s) < Pow10(|s|)
    decreases |s|
  {
    if |s| > 0 {
      ValueBound(s[..|s| - 1]);
    }
  }

  lemma {:induction false} ValueSingle(c: char)
    requires IsDigit(c)
    ensures ValueOf([c]) == DigitValue(c)
  {
    assert [c][..0] == [];
  }

  /** A digit put in front of `s` takes place `|s|`. */
  lemma {:induction false} ValuePrepend(c: char, s: seq<char>)
    requires IsDigit(c) && AllDigits(s)
    ensures AllDigits([c] + s)
    ensures ValueOf([c] + s) == Scaled(DigitValue(c), |s|) + ValueOf(s)
  {
    ValueSingle(c);
    ValueAppend([c], s);
  }

  /** The leading digit carries weight `10^(|s|-1)`. */
  lemma {:induction false} ValueLeading(s: seq<char>)
    requires AllDigits(s) && |s| >= 1
    ensures AllDigits(s[1..])
    ensures ValueOf(s) == Scaled(DigitValue(s[0]), |s| - 1) + ValueOf(s[1..])
  {
    assert s == [s[0]] + s[1..];
    AllDigitsSlice(s, 1, |s|);
    ValuePrepend(s[0], s[1..]);
  }

  /** Leading zeros do not change a value. */
  lemma {:induction false} ValueDropLeadingZero(s: seq<char>)
    requires AllDigits(s) && |s| >= 1 && s[0] == '0'
    ensures AllDigits(s[1..]) && ValueOf(s) == ValueOf(s[1..])
  {
    ValueLeading(s);
    ScaledZero(|s| - 1);
  }

  /** No leading zero: `s` is the canonical spelling of its value. */
  predicate IsCanonical(s: seq<char>) {
    |s| >= 1 && AllDigits(s) && (|s| > 1 ==> s[0] != '0')
  }

  /** A canonical string with `k` digits denotes at least `10^(k-1)`. */
  lemma {:induction false} CanonicalLowerBound(s: seq<char>)
    requires IsCanonical(s) && |s| > 1
    ensures ValueOf(s) >= Pow10(|s| - 1)
  {
    ValueLeading(s);
    ScaledMonotone(0, DigitValue(s[0]), |s| - 1);
    ScaledZero(|s| - 1);
  }

  /** A canonical string denotes zero exactly when it is "0". */
  lemma {:induction false} CanonicalZero(s: seq<char>)
    requires IsCanonical(s)
    ensures ValueOf(s) == 0 <==> s == "0"
  {
    if |s| > 1 {
      CanonicalLowerBound(s);
    } else {
      ValueSingle(s[0]);
      assert s == [s[0]];
    }
  }

  /** The canonical decimal spelling of `n`. */
  function FromNat(n: nat): (s: seq<char>)
    ensures IsCanonical(s) && ValueOf(s) == n
    decreases n
  {
    if n < 10 then
      ValueSingle(DigitChar(n));
      [DigitChar(n)]
    else
      var high := FromNat(n / 10);
      var low := DigitChar(n % 10);
      var s := high + [low];
      assert s[..|s| - 1] == high;
      s
  }

  /** Canonical spellings are unique: a canonical string is the spelling of its value. */
  lemma {:induction false} CanonicalUnique(s: seq<char>)
    requires IsCanonical(s)
    ensures FromNat(ValueOf(s)) == s
    decreases |s|
  {
    if |s| == 1 {
      ValueSingle(s[0]);
      DigitCharOfValue(s[0]);
      assert s == [s[0]];
    } else {
      var s' := s[..|s| - 1];
      assert IsCanonical(s');
      CanonicalLowerBound(s);
      Pow10Monotone(1, |s| - 1);
      CanonicalUnique(s');
      DigitCharOfValue(s[|s| - 1]);
      assert s == s' + [s[|s| - 1]];
    }
  }

  lemma {:induction false} CanonicalInjective(a: seq<char>, b: seq<char>)
    requires IsCanonical(a) && IsCanonical(b) && ValueOf(a) == ValueOf(b)
    ensures a == b
  {
    CanonicalUnique(a);
    CanonicalUnique(b);
  }

  /** The digit at place `k` counted from the right, 0 past the leading digit. */
  function PlaceDigit(s: seq<char>, k: nat): (d: nat)
    requires AllDigits(s)
    ensures d < 10
  {
    if k < |s| then DigitValue(s[|s| - 1 - k]) else 0
  }

  /** The value of the low `k` places of `s`: the number a loop that walks
      `s` from its last digit has seen after `k` steps. */
  function LowValue(s: seq<char>, k: nat): int
    requires AllDigits(s)
    decreases k
  {
    if k == 0 then 0 else LowValue(s, k - 1) + Scaled(PlaceDigit(s, k - 1), k - 1)
  }

  /** The low `k` places of `s` are its last `k` digits. */
  lemma {:induction false} LowValueSuffix(s: seq<char>, k: nat)
    requires AllDigits(s) && k <= |s|
    ensures AllDigits(s[|s| - k..])
    ensures LowValue(s, k) == ValueOf(s[|s| - k..])
    decreases k
  {
    AllDigitsSlice(s, |s| - k, |s|);
    if k == 0 {
      assert s[|s|..] == [];
    } else {
      LowValueSuffix(s, k - 1);
      assert s[|s| - k..] == [s[|s| - k]] + s[|s| - (k - 1)..];
      ValuePrepend(s[|s| - k], s[|s| - (k - 1)..]);
    }
  }

  /** Past the leading digit the low places are all of `s`. */
  lemma {:induction false} LowValueAll(s: seq<char>, k: nat)
    requires AllDigits(s) && k >= |s|
    ensures LowValue(s, k) == ValueOf(s)
    decreases k
  {
    if k == |s| {
      LowValueSuffix(s, k);
      assert s[0..] == s;
    } else {
      LowValueAll(s, k - 1);
      ScaledZero(k - 1);
    }
  }

  /** The value of `s` split around the digit at index `i`. */
  lemma {:induction false} ValueSplitAt(s: seq<char>, i: nat)
    requires AllDigits(s) && i < |s|
    ensures AllDigits(s[..i]) && AllDigits(s[i + 1..])
    ensures ValueOf(s) == Scaled(ValueOf(s[..i]), |s| - i)
                          + (Scaled(DigitValue(s[i]), |s| - 1 - i) + ValueOf(s[i + 1..]))
  {
    var pre, post := s[..i], s[i + 1..];
    AllDigitsSlice(s, 0, i);
    AllDigitsSlice(s, i + 1, |s|);
    assert s == pre + ([s[i]] + post);
    ValuePrepend(s[i], post);
    ValueAppend(pre, [s[i]] + post);
  }

  /** Overwriting the digit at index `i` changes the value by the digit difference at its place. */
  lemma {:induction false} ValueUpdate(s: seq<char>, i: nat, c: char)
    requires AllDigits(s) && i < |s| && IsDigit(c)
    ensures AllDigits(s[i := c])
    ensures ValueOf(s[i := c]) + Scaled(DigitValue(s[i]), |s| - 1 - i)
         == ValueOf(s) + Scaled(DigitValue(c), |s| - 1 - i)
  {
    var t := s[i := c];
    assert t == s[..i] + [c] + s[i + 1..];
    assert AllDigits(t) by {
      AllDigitsSlice(s, 0, i);
      AllDigitsSlice(s, i + 1, |s|);
      ValueAppend(s[..i], [c]);
      ValueAppend(s[..i] + [c], s[i + 1..]);
    }
    assert t[..i] == s[..i] && t[i + 1..] == s[i + 1..] && t[i] == c;
    ValueSplitAt(s, i);
    ValueSplitAt(t, i);
  }

}
