/**
 * Decimal text of integers as Python writes it (`str(n)`, f-strings) and reads it
 * (`int(s)` on a run of ASCII digits with an optional minus sign).
 */
module DecimalText {

  predicate IsDigit(c: char) {
    '0' <= c <= '9'
  }

  predicate AllDigits(s: string) {
    forall i | 0 <= i < |s| :: IsDigit(s[i])
  }

  function DigitValue(c: char): (v: nat)
    requires IsDigit(c)
    ensures v < 10
  {
    c as int - '0' as int
  }

  function DigitChar(v: nat): (c: char)
    requires v < 10
    ensures IsDigit(c) && DigitValue(c) == v
  {
    ('0' as int + v) as char
  }

  function Pow10(k: nat): (p: nat)
    ensures p >= 1
  {
    if k == 0 then 1 else 10 * Pow10(k - 1)
  }

  /** Powers of ten multiply by adding their exponents: a shift by `a + b` digits is two shifts. */
  lemma {:induction false} Pow10Add(a: nat, b: nat)
    ensures Pow10(a + b) == Pow10(a) * Pow10(b)
    decreases a
  {
    if a > 0 {
      Pow10Add(a - 1, b);
      assert Pow10(a + b) == 10 * Pow10(a - 1 + b);
    }
  }

  /** The optional minus sign that Python writes before a negative count. */
  function Sign(negative: bool): string {
    if negative then "-" else ""
  }

  /** The value of a string of decimal digits, most significant first (the empty string reads as 0). */
  function ParseNat(s: string): nat
    requires AllDigits(s)
    decreases |s|
  {
    if s == [] then 0 else ParseNat(s[..|s| - 1]) * 10 + DigitValue(s[|s| - 1])
  }

  lemma DigitsAppend(a: string, b: string)
    requires AllDigits(a) && AllDigits(b)
    ensures AllDigits(a + b)
  {
    assert forall i | 0 <= i < |a + b| :: (a + b)[i] == if i < |a| then a[i] else b[i - |a|];
  }

  /** Digits read left to right: `a` followed by `b` is `a` shifted by `|b|` places plus `b`. */
  lemma {:induction false} ParseNatAppend(a: string, b: string)
    requires AllDigits(a) && AllDigits(b)
    ensures AllDigits(a + b)
    ensures ParseNat(a + b) == ParseNat(a) * Pow10(|b|) + ParseNat(b)
    decreases |b|
  {
    DigitsAppend(a, b);
    if b == [] {
      assert a + b == a;
    } else {
      var init := b[..|b| - 1];
      assert AllDigits(init) by {
        assert forall i | 0 <= i < |init| :: init[i] == b[i];
      }
      ParseNatAppend(a, init);
      assert (a + b)[..|a + b| - 1] == a + init;
      assert (a + b)[|a + b| - 1] == b[|b| - 1];
      var ab := a + b;
      assert ParseNat(ab) == ParseNat(a + init) * 10 + DigitValue(b[|b| - 1]);
      assert ParseNat(b) == ParseNat(init) * 10 + DigitValue(b[|b| - 1]);
      ShiftByDigit(ParseNat(a), Pow10(|init|), ParseNat(init), DigitValue(b[|b| - 1]));
    }
  }

  lemma ShiftByDigit(pa: int, p: int, pi: int, c: int)
    ensures (pa * p + pi) * 10 + c == pa * (10 * p) + (pi * 10 + c)
  {
  }

  predicate AllZeros(s: string) {
    forall i | 0 <= i < |s| :: s[i] == '0'
  }

  /** A run of zeros reads as zero. */
  lemma {:induction false} ParseNatZeros(z: string)
    requires AllZeros(z)
    ensures AllDigits(z) && ParseNat(z) == 0
    decreases |z|
  {
    if z != [] {
      var init := z[..|z| - 1];
      assert AllZeros(init) by {
        assert forall i | 0 <= i < |init| :: init[i] == z[i];
      }
      ParseNatZeros(init);
    }
  }

  /** `str(n)` for a natural number: non-empty digits without a leading zero that read back as `n`. */
  function NatToString(n: nat): (s: string)
    ensures |s| >= 1 && AllDigits(s)
    ensures ParseNat(s) == n
    ensures s[0] == '0' ==> s == "0"
    decreases n
  {
    if n < 10 then [DigitChar(n)]
    else
      var prefix := NatToString(n / 10);
      var s := prefix + [DigitChar(n % 10)];
      assert s[..|s| - 1] == prefix;
      s
  }

  /** `str(i)` for any integer: a minus sign before the digits of a negative number. */
  function IntToString(i: int): (s: string)
    ensures |s| >= 1
    ensures i < 0 ==> s[0] == '-' && s[1..] == NatToString(-i)
    ensures i >= 0 ==> s == NatToString(i)
  {
    if i < 0 then "-" + NatToString(-i) else NatToString(i)
  }

  /** The text of an integer ends in a digit. */
  lemma LastIsDigit(i: int)
    ensures IsDigit(IntToString(i)[|IntToString(i)| - 1])
  {
    var s := IntToString(i);
    if i < 0 {
      assert s[|s| - 1] == NatToString(-i)[|NatToString(-i)| - 1];
    }
  }

  /** How many digits `s` starts with: the longest all-digit prefix. */
  function DigitRun(s: string): (k: nat)
    ensures k <= |s| && AllDigits(s[..k])
    ensures k < |s| ==> !IsDigit(s[k])
    decreases |s|
  {
    if s == [] || !IsDigit(s[0]) then 0
    else
      var k := 1 + DigitRun(s[1..]);
      assert s[..k] == [s[0]] + s[1..][..k - 1];
      k
  }

  /** The digit run of `ds + u` is exactly `ds` when `u` does not start with a digit. */
  lemma DigitRunOfPrefix(ds: string, u: string)
    requires AllDigits(ds)
    requires u != [] ==> !IsDigit(u[0])
    ensures DigitRun(ds + u) == |ds|
  {
    var s := ds + u;
    assert forall i | 0 <= i < |ds| :: s[i] == ds[i];
    assert u != [] ==> s[|ds|] == u[0];
  }
}
