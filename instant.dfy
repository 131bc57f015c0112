/**
 * The integer timestamps `iTS`, `iTSms`, `iTSus` and `iTSns`: an integer count of a unit
 * (seconds, milliseconds, microseconds, nanoseconds) since the Unix epoch.  This module
 * holds their conversions into one another, `floor`/`ceil`, `now` with the clock reading
 * passed in, the numeric-text path of `iTSns`, and the UTC weekday over integer seconds.
 */
module IntInstant {
  import opened Errors
  import opened Numerics
  import opened DecimalText
  import opened Calendar

  /** The class of an integer timestamp, by its `UNITS_IN_SEC`. */
  datatype Precision = Sec | Milli | Micro | Nano

  function UnitsInSec(p: Precision): (n: int)
    ensures n >= 1
  {
    match p
    case Sec => 1
    case Milli => 1_000
    case Micro => 1_000_000
    case Nano => 1_000_000_000
  }

  /** How many nanoseconds one unit of `p` lasts, `10^9 // UNITS_IN_SEC`. */
  function NsPerUnit(p: Precision): (n: int)
    ensures n >= 1 && n * UnitsInSec(p) == 1_000_000_000
  {
    match p
    case Sec => 1_000_000_000
    case Milli => 1_000_000
    case Micro => 1_000
    case Nano => 1
  }

  /** An integer timestamp: `value` units of `prec`. */
  datatype Instant = Instant(prec: Precision, value: int)

  /** The instant a timestamp denotes, in nanoseconds since the epoch. */
  function Nanos(x: Instant): int {
    x.value * NsPerUnit(x.prec)
  }

  // ---------------------------------------------------------------------------
  // Conversions between the integer classes.

  /**
   * The `int`/float/string-free branches of `iTS(ts)`, `iTSms(ts)`, `iTSus(ts)` and
   * `iTSns(ts)` on a timestamp `x`, as written: the same class is returned unchanged,
   * a coarser one is multiplied out, a finer one divided and rounded half to even.
   * `iTSms` and `iTSns` of an `iTS` build an `iTSus` carrying the scaled count.
   */
  function Convert(target: Precision, x: Instant): (r: Instant)
    ensures x.prec == target ==> r == x
    ensures r.prec == target || (x.prec == Sec && (target == Milli || target == Nano) && r.prec == Micro)
  {
    match target
    case Sec =>
      (match x.prec
       case Sec => x
       case Milli => Instant(Sec, RoundHalfEven(x.value, 1_000))
       case Micro => Instant(Sec, RoundHalfEven(x.value, 1_000_000))
       case Nano => Instant(Sec, RoundHalfEven(x.value, 1_000_000_000)))
    case Milli =>
      (match x.prec
       case Sec => Instant(Micro, x.value * 1_000)
       case Milli => x
       case Micro => Instant(Milli, RoundHalfEven(x.value, 1_000))
       case Nano => Instant(Milli, RoundHalfEven(x.value, 1_000_000)))
    case Micro =>
      (match x.prec
       case Sec => Instant(Micro, x.value * 1_000_000)
       case Milli => Instant(Micro, x.value * 1_000)
       case Micro => x
       case Nano => Instant(Micro, RoundHalfEven(x.value, 1_000)))
    case Nano =>
      (match x.prec
       case Sec => Instant(Micro, x.value * 1_000_000_000)
       case Milli => Instant(Nano, x.value * 1_000_000)
       case Micro => Instant(Nano, x.value * 1_000)
       case Nano => x)
  }

  /** `from` is at least as coarse as `to`. */
  predicate Coarser(from: Precision, to: Precision) {
    UnitsInSec(from) <= UnitsInSec(to)
  }

  /** How many units of the finer precision `to` make one unit of `from`. */
  function Scale(from: Precision, to: Precision): (k: int)
    requires Coarser(from, to)
    ensures k >= 1 && k * NsPerUnit(to) == NsPerUnit(from)
  {
    NsPerUnit(from) / NsPerUnit(to)
  }

  /**
   * The conversion the table evidently intends: the target class always, an exact
   * multiple towards a finer unit, the half-to-even rounded quotient towards a coarser one.
   */
  function ConvertIntended(target: Precision, x: Instant): (r: Instant)
    ensures r.prec == target
  {
    if Coarser(x.prec, target) then Instant(target, x.value * Scale(x.prec, target))
    else Instant(target, RoundHalfEven(x.value, Scale(target, x.prec)))
  }

  /** Converting to a finer unit keeps the instant exactly. */
  lemma ConvertWidensExactly(target: Precision, x: Instant)
    requires Coarser(x.prec, target)
    ensures ConvertIntended(target, x).prec == target
    ensures Nanos(ConvertIntended(target, x)) == Nanos(x)
  {
    var k := Scale(x.prec, target);
    assert x.value * k * NsPerUnit(target) == x.value * (k * NsPerUnit(target));
  }

  /**
   * Converting to a coarser unit rounds the count half to even, so the result is at most
   * half a target unit away from the instant.
   */
  lemma ConvertNarrowsHalfEven(target: Precision, x: Instant)
    requires !Coarser(x.prec, target)
    ensures IsHalfEvenRounding(x.value, Scale(target, x.prec), ConvertIntended(target, x).value)
    ensures -NsPerUnit(target) <= 2 * (Nanos(x) - Nanos(ConvertIntended(target, x))) <= NsPerUnit(target)
  {
    var k, u := Scale(target, x.prec), NsPerUnit(x.prec);
    var r := ConvertIntended(target, x).value;
    HalfUnitBound(x.value, r, k, u, Nanos(x), Nanos(ConvertIntended(target, x)));
  }

  /** Scaling a rounding error of at most half of `k` by `u` gives one of at most half of `k * u`. */
  lemma HalfUnitBound(v: int, r: int, k: int, u: int, nx: int, nr: int)
    requires k >= 1 && u >= 1 && -k <= 2 * (v - r * k) <= k
    requires nx == v * u && nr == r * (k * u)
    ensures -(k * u) <= 2 * (nx - nr) <= k * u
  {
    assert 2 * (nx - nr) == 2 * (v - r * k) * u;
    MulBetween(-k, 2 * (v - r * k), k, u);
  }

  lemma MulBetween(a: int, b: int, c: int, u: int)
    requires a <= b <= c && u > 0
    ensures a * u <= b * u <= c * u
  {
  }

  /** Converting to a finer unit and back gives the timestamp back. */
  lemma ConvertRoundTrip(p: Precision, q: Precision, v: int)
    requires Coarser(p, q)
    ensures ConvertIntended(p, ConvertIntended(q, Instant(p, v))) == Instant(p, v)
  {
    var k := Scale(p, q);
    if p == q {
      assert k == 1;
      RoundHalfEvenExact(v, 1);
    } else {
      assert !Coarser(q, p);
      RoundHalfEvenExact(v, k);
    }
  }

  /** Every branch but the two that build an `iTSus` from an `iTS` is the intended conversion. */
  lemma ConvertAsWrittenAgrees(target: Precision, x: Instant)
    ensures Convert(target, x) == ConvertIntended(target, x) <==> !(x.prec == Sec && (target == Milli || target == Nano))
  {
  }

  /** A timestamp converted to its own class is returned unchanged. */
  lemma ConvertSame(x: Instant)
    ensures Convert(x.prec, x) == x && ConvertIntended(x.prec, x) == x
  {
  }

  /** `iTSms(iTS(1))` is one thousand microseconds, one millisecond, not one second. */
  lemma ConvertMilliOfSecQuirk()
    ensures Convert(Milli, Instant(Sec, 1)) == Instant(Micro, 1_000)
    ensures Nanos(Convert(Milli, Instant(Sec, 1))) != Nanos(Instant(Sec, 1))
    ensures ConvertIntended(Milli, Instant(Sec, 1)) == Instant(Milli, 1_000)
  {
  }

  /** `iTSns(iTS(1))` is 10^9 microseconds, a thousand seconds, not one second. */
  lemma ConvertNanoOfSecQuirk()
    ensures Convert(Nano, Instant(Sec, 1)) == Instant(Micro, 1_000_000_000)
    ensures Nanos(Convert(Nano, Instant(Sec, 1))) == 1_000 * Nanos(Instant(Sec, 1))
  {
  }

  /** Nanoseconds to microseconds, rounding `...456789` up. */
  lemma ConvertNanoToMicroExample()
    ensures Convert(Micro, Instant(Nano, 1519855200123456789)) == Instant(Micro, 1519855200123457)
  {
    RoundHalfEvenIs(1519855200123456789, 1_000, 1519855200123457);
  }

  /** Milliseconds to seconds, rounding 0.6 s up. */
  lemma ConvertMilliToSecExample()
    ensures Convert(Sec, Instant(Milli, 1519855200600)) == Instant(Sec, 1519855201)
  {
    RoundHalfEvenIs(1519855200600, 1_000, 1519855201);
  }

  /** Nanoseconds and microseconds to milliseconds, rounding down. */
  lemma ConvertToMilliExamples()
    ensures Convert(Milli, Instant(Micro, 1519855200123456)) == Instant(Milli, 1519855200123)
    ensures Convert(Milli, Instant(Nano, 1519855200123456789)) == Instant(Milli, 1519855200123)
  {
    RoundHalfEvenIs(1519855200123456, 1_000, 1519855200123);
    RoundHalfEvenIs(1519855200123456789, 1_000_000, 1519855200123);
  }

  /** Widening examples: seconds and milliseconds to microseconds. */
  lemma ConvertWideningExamples()
    ensures Convert(Micro, Instant(Sec, 1519855200)) == Instant(Micro, 1519855200000000)
    ensures Convert(Micro, Instant(Milli, 1519855200123)) == Instant(Micro, 1519855200123000)
  {
  }

  /**
   * A plain number given to a constructor: an `int` is kept and a float is rounded half
   * to even in the class's own unit (the floats taken at their exact values).
   */
  function FromNumber(p: Precision, n: Number): (r: Instant)
    ensures r.prec == p
    ensures n.Int? ==> r.value == n.i
    ensures n.Float? ==> -1.0 <= 2.0 * (n.x - r.value as real) <= 1.0
    ensures n.Float? && (2.0 * (n.x - r.value as real) == 1.0 || 2.0 * (n.x - r.value as real) == -1.0) ==> r.value % 2 == 0
  {
    Instant(p, Round(n))
  }

  /** `iTS(1519855200.567)` rounds to the next second. */
  lemma FromNumberExample()
    ensures FromNumber(Sec, Float(1519855200.567)) == Instant(Sec, 1519855201)
  {
    assert RoundReal(1519855200.567) == 1519855201;
  }

  // ---------------------------------------------------------------------------
  // floor and ceil.

  /** The `unit` argument of `floor`/`ceil`: an integral value, or any other value together with its `str()`. */
  datatype UnitArg = Integral(n: int) | NonIntegral(text: string)

  function UnitText(unit: UnitArg): string {
    match unit
    case Integral(n) => IntToString(n)
    case NonIntegral(text) => text
  }

  predicate ValidUnit(unit: UnitArg) {
    unit.Integral? && unit.n > 0
  }

  const FLOOR_MESSAGE := "Invalid unit for flooring. It should be multiple of nanoseconds: "
  const CEIL_MESSAGE := "Invalid unit for ceiling. It should be multiple of nanoseconds: "

  /**
   * `iBaseTS.floor`: the largest multiple of `unit` not after `x`, in `x`'s class; an
   * assertion fails unless `unit` is a positive integer.
   */
  function Floor(x: Instant, unit: UnitArg): (r: Result<Instant>)
    ensures r.Err? <==> !ValidUnit(unit)
    ensures r.Err? ==> r.error == AssertionError(FLOOR_MESSAGE + UnitText(unit))
    ensures r.Ok? ==> r.value.prec == x.prec && r.value.value % unit.n == 0
    ensures r.Ok? ==> r.value.value <= x.value < r.value.value + unit.n
  {
    if !ValidUnit(unit) then Err(AssertionError(FLOOR_MESSAGE + UnitText(unit)))
    else
      MultipleBelow(x.value, unit.n, FloorDiv(x.value, unit.n), FloorDiv(x.value, unit.n) * unit.n);
      Ok(Instant(x.prec, FloorDiv(x.value, unit.n) * unit.n))
  }

  lemma MultipleBelow(a: int, u: int, q: int, m: int)
    requires u > 0 && q * u <= a < q * u + u && m == q * u
    ensures m % u == 0 && m <= a < m + u
  {
    MulMod(q, u);
  }

  /**
   * `iBaseTS.ceil`, `-(-x // unit) * unit`: the smallest multiple of `unit` not before
   * `x`; an assertion fails unless `unit` is a positive integer.
   */
  function Ceil(x: Instant, unit: UnitArg): (r: Result<Instant>)
    ensures r.Err? <==> !ValidUnit(unit)
    ensures r.Err? ==> r.error == AssertionError(CEIL_MESSAGE + UnitText(unit))
    ensures r.Ok? ==> r.value.prec == x.prec && r.value.value % unit.n == 0
    ensures r.Ok? ==> r.value.value - unit.n < x.value <= r.value.value
  {
    if !ValidUnit(unit) then Err(AssertionError(CEIL_MESSAGE + UnitText(unit)))
    else
      MultipleAbove(x.value, unit.n, FloorDiv(-x.value, unit.n), -FloorDiv(-x.value, unit.n) * unit.n);
      Ok(Instant(x.prec, -FloorDiv(-x.value, unit.n) * unit.n))
  }

  lemma MultipleAbove(a: int, u: int, q: int, m: int)
    requires u > 0 && q * u <= -a < q * u + u && m == -q * u
    ensures m % u == 0 && m - u < a <= m
  {
    MulMod(-q, u);
  }

  /** A multiple of `u` in the window `(a - u, a]` is the only one there. */
  lemma MultipleInWindow(a: int, u: int, m1: int, m2: int)
    requires u > 0 && m1 % u == 0 && m2 % u == 0
    requires m1 <= a < m1 + u && m2 <= a < m2 + u
    ensures m1 == m2
  {
    DivModUnique(m1, m1 / u, 0, u);
    DivModUnique(m2, m2 / u, 0, u);
    var d := m1 / u - m2 / u;
    assert d * u == m1 - m2 by { SubMul(m1 / u, m2 / u, u); }
    if d >= 1 {
      MulAtLeast(d, 1, u);
    } else if d <= -1 {
      MulAtLeast(-1, d, u);
    }
  }

  /** Flooring and ceiling give the same timestamp exactly when it already is a multiple of the unit. */
  lemma FloorCeilMeet(x: Instant, u: int)
    requires u > 0
    ensures Floor(x, Integral(u)) == Ceil(x, Integral(u)) <==> x.value % u == 0
  {
    if x.value % u == 0 {
      FloorIs(x, u, x.value);
      CeilIs(x, u, x.value);
    }
  }

  /** A unit of one leaves the timestamp as it is. */
  lemma FloorCeilByOne(x: Instant)
    ensures Floor(x, Integral(1)) == Ok(x) && Ceil(x, Integral(1)) == Ok(x)
  {
  }

  /** Flooring a floored timestamp changes nothing. */
  lemma FloorIdempotent(x: Instant, u: int)
    requires u > 0
    ensures Floor(Floor(x, Integral(u)).value, Integral(u)) == Floor(x, Integral(u))
  {
    var f := Floor(x, Integral(u)).value;
    var g := Floor(f, Integral(u)).value;
    MultipleInWindow(f.value, u, g.value, f.value);
  }

  /** Flooring and ceiling seconds to 2 s and to a minute. */
  lemma FloorCeilExamples()
    ensures Floor(Instant(Sec, 1670371213), Integral(2)) == Ok(Instant(Sec, 1670371212))
    ensures Floor(Instant(Sec, 1670371213), Integral(60)) == Ok(Instant(Sec, 1670371200))
    ensures Ceil(Instant(Sec, 1670371213), Integral(2)) == Ok(Instant(Sec, 1670371214))
    ensures Ceil(Instant(Sec, 1670371213), Integral(60)) == Ok(Instant(Sec, 1670371260))
  {
    FloorIs(Instant(Sec, 1670371213), 2, 1670371212);
    FloorIs(Instant(Sec, 1670371213), 60, 1670371200);
    CeilIs(Instant(Sec, 1670371213), 2, 1670371214);
    CeilIs(Instant(Sec, 1670371213), 60, 1670371260);
  }

  /** The floor is the multiple of the unit in `(x - u, x]`. */
  lemma FloorIs(x: Instant, u: int, m: int)
    requires u > 0 && m % u == 0 && m <= x.value < m + u
    ensures Floor(x, Integral(u)) == Ok(Instant(x.prec, m))
  {
    MultipleInWindow(x.value, u, Floor(x, Integral(u)).value.value, m);
  }

  /** The ceiling is the multiple of the unit in `[x, x + u)`. */
  lemma CeilIs(x: Instant, u: int, m: int)
    requires u > 0 && m % u == 0 && m - u < x.value <= m
    ensures Ceil(x, Integral(u)) == Ok(Instant(x.prec, m))
  {
    var c := Ceil(x, Integral(u)).value.value;
    MultipleInWindow(x.value + u - 1, u, c, m);
  }

  /** A unit that is zero, negative or not an integer is refused with the unit in the message. */
  lemma FloorRefusesZero()
    ensures Floor(Instant(Sec, 5), Integral(0)) == Err(AssertionError(FLOOR_MESSAGE + "0"))
    ensures Ceil(Instant(Sec, 5), NonIntegral("0.5")) == Err(AssertionError(CEIL_MESSAGE + "0.5"))
  {
  }

  // ---------------------------------------------------------------------------
  // now()

  /**
   * `iBaseTS.now()` with the clock reading `tns` (nanoseconds since the epoch) passed in:
   * the reading divided by the class's unit and rounded half to even; `iTSns.now()` keeps it.
   */
  function Now(p: Precision, tns: int): (r: Instant)
    ensures r.prec == p
    ensures IsHalfEvenRounding(tns, NsPerUnit(p), r.value)
  {
    if p == Nano then
      assert IsHalfEvenRounding(tns, 1, tns);
      Instant(Nano, tns)
    else Instant(p, RoundHalfEven(tns, NsPerUnit(p)))
  }

  /** `now()` is the clock reading as an `iTSns`, converted to the class. */
  lemma NowIsConversion(p: Precision, tns: int)
    ensures Now(p, tns) == ConvertIntended(p, Instant(Nano, tns))
  {
    HalfEvenRoundingUnique(tns, NsPerUnit(p), Now(p, tns).value, ConvertIntended(p, Instant(Nano, tns)).value);
  }

  // ---------------------------------------------------------------------------
  // The numeric text path of iTSns.

  /** A plain decimal number: an optional minus sign, digits, and optionally a point and more digits. */
  datatype NumericText = NumericText(negative: bool, whole: string, fraction: Option<string>)

  predicate WellFormedNumeric(t: NumericText) {
    && |t.whole| >= 1 && AllDigits(t.whole)
    && (t.fraction.Some? ==> |t.fraction.value| >= 1 && AllDigits(t.fraction.value))
  }

  function RenderNumeric(t: NumericText): string {
    Sign(t.negative) + (t.whole + FractionText(t.fraction))
  }

  /** Reading a plain decimal number back into its parts. */
  function ScanNumeric(s: string): (r: Option<NumericText>)
    ensures r.Some? ==> WellFormedNumeric(r.value) && RenderNumeric(r.value) == s
  {
    if |s| > 0 && s[0] == '-' then
      assert s == "-" + s[1..];
      ScanUnsigned(true, s[1..])
    else ScanUnsigned(false, s)
  }

  function FractionText(fraction: Option<string>): string {
    if fraction.Some? then "." + fraction.value else ""
  }

  /** The digits after the sign, and the point and fraction digits when there are any. */
  function ScanUnsigned(negative: bool, body: string): (r: Option<NumericText>)
    ensures r.Some? ==> WellFormedNumeric(r.value) && r.value.negative == negative
    ensures r.Some? ==> r.value.whole + FractionText(r.value.fraction) == body
  {
    var k := DigitRun(body);
    if k == 0 then None
    else if k == |body| then
      assert body[..k] == body;
      Some(NumericText(negative, body, None))
    else if body[k] == '.' && k + 1 < |body| && AllDigits(body[k + 1..]) then
      assert body == body[..k] + "." + body[k + 1..];
      Some(NumericText(negative, body[..k], Some(body[k + 1..])))
    else None
  }

  lemma ScanUnsignedOf(t: NumericText)
    requires WellFormedNumeric(t)
    ensures ScanUnsigned(t.negative, t.whole + FractionText(t.fraction)) == Some(t)
  {
    var tail := FractionText(t.fraction);
    var body := t.whole + tail;
    DigitRunOfPrefix(t.whole, tail);
    assert body[..|t.whole|] == t.whole;
    if t.fraction.Some? {
      assert body[|t.whole|] == '.';
      assert body[|t.whole| + 1..] == t.fraction.value;
    } else {
      assert body == t.whole;
    }
  }

  lemma ScanRenderNumeric(t: NumericText)
    requires WellFormedNumeric(t)
    ensures ScanNumeric(RenderNumeric(t)) == Some(t)
  {
    var body := t.whole + FractionText(t.fraction);
    var s := RenderNumeric(t);
    assert s == Sign(t.negative) + body;
    assert body[0] == t.whole[0];
    if t.negative {
      assert s[1..] == body;
    } else {
      assert s == body;
    }
    ScanUnsignedOf(t);
  }

  /** The exact value of the text, scaled by `10^(fraction digits)`. */
  function ScaledValue(t: NumericText): int
    requires WellFormedNumeric(t)
  {
    var digits := t.whole + (if t.fraction.Some? then t.fraction.value else "");
    assert AllDigits(digits) by {
      assert forall i | 0 <= i < |digits| :: IsDigit(digits[i]) by {
        assert forall i | |t.whole| <= i < |digits| :: digits[i] == digits[|t.whole|..][i - |t.whole|];
      }
    }
    var n: int := ParseNat(digits);
    if t.negative then -n else n
  }

  /**
   * The value of a decimal with `k` fraction digits, scaled by `10^k`: its whole part
   * shifted by `k` places plus the digits of its fraction, with its sign.
   */
  lemma ScaledValueOf(t: NumericText)
    requires WellFormedNumeric(t) && t.fraction.Some?
    ensures ScaledValue(t) == (if t.negative then -1 else 1) * (ParseNat(t.whole) * Pow10(|t.fraction.value|) + ParseNat(t.fraction.value))
  {
    ParseNatAppend(t.whole, t.fraction.value);
  }

  function FractionDigits(t: NumericText): nat {
    if t.fraction.Some? then |t.fraction.value| else 0
  }

  /**
   * `iTSns(s)` for a string in the plain form `-?digits[.digits]`: `int(s)` when it is an
   * integer, else `Decimal(s).to_integral_value()`, which rounds half to even. `None`
   * stands for a string outside that form: either one of the other forms `int` or
   * `Decimal` accept, which are not modelled, or text that goes on to date parsing.
   */
  function NsFromText(s: string): (r: Option<Instant>)
    ensures r.Some? <==> ScanNumeric(s).Some?
    ensures r.Some? ==> r.value.prec == Nano
    ensures r.Some? ==> IsHalfEvenRounding(ScaledValue(ScanNumeric(s).value), Pow10(FractionDigits(ScanNumeric(s).value)), r.value.value)
  {
    match ScanNumeric(s)
    case None => None
    case Some(t) =>
      if t.fraction.None? then
        assert IsHalfEvenRounding(ScaledValue(t), 1, ScaledValue(t));
        Some(Instant(Nano, ScaledValue(t)))
      else Some(Instant(Nano, RoundHalfEven(ScaledValue(t), Pow10(|t.fraction.value|))))
  }

  /** The decimal text of an integer is read back as that many nanoseconds. */
  lemma NsFromIntegerText(v: int)
    ensures NsFromText(IntToString(v)) == Some(Instant(Nano, v))
  {
    var t := NumericText(v < 0, NatToString(if v < 0 then -v else v), None);
    assert RenderNumeric(t) == IntToString(v);
    ScanRenderNumeric(t);
    assert t.whole + "" == t.whole;
  }

  /** The text of a decimal with a fraction is read as its value rounded half to even. */
  lemma NsFromFractionText(s: string, t: NumericText, v: int, k: nat)
    requires WellFormedNumeric(t) && RenderNumeric(t) == s && t.fraction.Some?
    requires ScaledValue(t) == v && |t.fraction.value| == k
    ensures NsFromText(s) == Some(Instant(Nano, RoundHalfEven(v, Pow10(k))))
  {
    ScanRenderNumeric(t);
  }

  /** Zeros after the last fraction digit change neither the value nor the nanoseconds read. */
  lemma NsFromTextTrailingZeros(t: NumericText, z: string)
    requires WellFormedNumeric(t) && t.fraction.Some? && AllZeros(z)
    ensures WellFormedNumeric(NumericText(t.negative, t.whole, Some(t.fraction.value + z)))
    ensures NsFromText(RenderNumeric(NumericText(t.negative, t.whole, Some(t.fraction.value + z)))) == NsFromText(RenderNumeric(t))
  {
    var f, k, j := t.fraction.value, |t.fraction.value|, |z|;
    ParseNatZeros(z);
    ParseNatAppend(f, z);
    var t2 := NumericText(t.negative, t.whole, Some(f + z));
    assert |t2.fraction.value| == k + j;
    ScaledValueOf(t);
    ScaledValueOf(t2);
    Pow10Add(k, j);
    SignedShift(if t.negative then -1 else 1, ParseNat(t.whole), Pow10(k), Pow10(j), ParseNat(f));
    assert ScaledValue(t2) == ScaledValue(t) * Pow10(j);
    RoundHalfEvenScale(ScaledValue(t), Pow10(k), Pow10(j));
    NsFromFractionText(RenderNumeric(t), t, ScaledValue(t), k);
    NsFromFractionText(RenderNumeric(t2), t2, ScaledValue(t2), k + j);
  }

  lemma SignedShift(sg: int, w: int, pk: int, pj: int, f: int)
    ensures sg * (w * (pk * pj) + f * pj) == (sg * (w * pk + f)) * pj
  {
  }

  /** A trailing half rounds down to an even count. */
  lemma NsFromTextHalfDown()
    ensures NsFromText("2.5") == Some(Instant(Nano, 2))
  {
    ScaledValueOf(NumericText(false, "2", Some("5")));
    assert ParseNat("2") == 2 && ParseNat("5") == 5;
    NsFromFractionText("2.5", NumericText(false, "2", Some("5")), 25, 1);
    assert IsHalfEvenRounding(25, 10, 2);
    HalfEvenRoundingUnique(25, 10, 2, RoundHalfEven(25, 10));
  }

  /** A trailing half rounds up to an even count. */
  lemma NsFromTextHalfUp()
    ensures NsFromText("3.5") == Some(Instant(Nano, 4))
  {
    ScaledValueOf(NumericText(false, "3", Some("5")));
    assert ParseNat("3") == 3 && ParseNat("5") == 5;
    NsFromFractionText("3.5", NumericText(false, "3", Some("5")), 35, 1);
    assert IsHalfEvenRounding(35, 10, 4);
    HalfEvenRoundingUnique(35, 10, 4, RoundHalfEven(35, 10));
  }

  /** A negative half rounds towards the even count too. */
  lemma NsFromTextNegativeHalf()
    ensures NsFromText("-2.5") == Some(Instant(Nano, -2))
  {
    ScaledValueOf(NumericText(true, "2", Some("5")));
    assert ParseNat("2") == 2 && ParseNat("5") == 5;
    NsFromFractionText("-2.5", NumericText(true, "2", Some("5")), -25, 1);
    assert IsHalfEvenRounding(-25, 10, -2);
    HalfEvenRoundingUnique(-25, 10, -2, RoundHalfEven(-25, 10));
  }

  /** More than a half rounds up. */
  lemma NsFromTextAboveHalf()
    ensures NsFromText("2.6") == Some(Instant(Nano, 3))
  {
    ScaledValueOf(NumericText(false, "2", Some("6")));
    assert ParseNat("2") == 2 && ParseNat("6") == 6;
    NsFromFractionText("2.6", NumericText(false, "2", Some("6")), 26, 1);
    RoundHalfEvenIs(26, 10, 3);
  }

  /**
   * Text with an exponent lies outside the plain form read here, although `Decimal("1e5")`
   * reads it as 100000 ns.
   */
  lemma NsFromTextExponentLeftOut()
    ensures NsFromText("1e5").None?
  {
    assert DigitRun("1e5") == 1 by {
      assert "1e5"[1..] == "e5";
    }
  }

  // ---------------------------------------------------------------------------
  // UTC weekday over integer seconds.

  /** 1970-01-05T00:00:00Z, the first Monday after the epoch. */
  const FIRST_MONDAY_TS := 345600
  const DAY_SECONDS := 24 * 3600

  /** `int((s - FIRST_MONDAY_TS) / (24 * 3600)) % 7` as written: the quotient is truncated towards zero. */
  function WeekdayAsWritten(s: int): (r: int)
    ensures 0 <= r < 7
  {
    FloorMod(TruncDiv(s - FIRST_MONDAY_TS, DAY_SECONDS), 7)
  }

  /** The weekday, Monday 0 to Sunday 6, of the UTC day holding second `s`. */
  function Weekday(s: int): (r: int)
    ensures 0 <= r < 7
  {
    FloorMod(FloorDiv(s - FIRST_MONDAY_TS, DAY_SECONDS), 7)
  }

  /** `isoweekday`: Monday 1 to Sunday 7. */
  function IsoWeekday(s: int): (r: int)
    ensures 1 <= r <= 7
    ensures r == 1 <==> Weekday(s) == 0
  {
    Weekday(s) + 1
  }

  /** Day `z` since the epoch, at any second of it, has weekday `(z + 3) % 7`: the epoch was a Thursday. */
  lemma {:induction false} WeekdayOfDay(z: int, t: int, s: int)
    requires 0 <= t < DAY_SECONDS && s == z * DAY_SECONDS + t
    ensures Weekday(s) == (z + 3) % 7
  {
    DivModUnique(s - FIRST_MONDAY_TS, z - 4, t, DAY_SECONDS);
    ModOfShift(z + 3, -1, 7, z - 4);
  }

  /** The next day is the next weekday, and a week later is the same weekday. */
  lemma WeekdaySuccessor(s: int)
    ensures Weekday(s + DAY_SECONDS) == (Weekday(s) + 1) % 7
    ensures Weekday(s + 7 * DAY_SECONDS) == Weekday(s)
  {
    var z, t := FloorDiv(s, DAY_SECONDS), FloorMod(s, DAY_SECONDS);
    WeekdayOfDay(z, t, s);
    WeekdayOfDay(z + 1, t, s + DAY_SECONDS);
    WeekdayOfDay(z + 7, t, s + 7 * DAY_SECONDS);
    NextMod(z + 3, 7);
    ModOfShift(z + 3, 1, 7, z + 10);
  }

  /** The remainder of the successor is the successor of the remainder, wrapping at `m`. */
  lemma NextMod(x: int, m: int)
    requires m > 1
    ensures (x + 1) % m == (x % m + 1) % m
    ensures (x + 1) % m == if x % m == m - 1 then 0 else x % m + 1
  {
    if x % m == m - 1 {
      DivModUnique(x + 1, x / m + 1, 0, m);
    } else {
      DivModUnique(x + 1, x / m, x % m + 1, m);
    }
    DivModUnique(x % m + 1, if x % m == m - 1 then 1 else 0, (x + 1) % m, m);
  }

  /**
   * Truncating gives the weekday exactly from the first Monday on, and before it only at
   * midnight: anywhere else before 1970-01-05 it is one day late.
   */
  lemma {:induction false} WeekdayAsWrittenAgrees(s: int)
    ensures WeekdayAsWritten(s) == Weekday(s) <==> s >= FIRST_MONDAY_TS || (s - FIRST_MONDAY_TS) % DAY_SECONDS == 0
    ensures s < FIRST_MONDAY_TS && (s - FIRST_MONDAY_TS) % DAY_SECONDS != 0 ==> WeekdayAsWritten(s) == (Weekday(s) + 1) % 7
  {
    var a := s - FIRST_MONDAY_TS;
    var f := FloorDiv(a, DAY_SECONDS);
    if a < 0 && a % DAY_SECONDS != 0 {
      assert TruncDiv(a, DAY_SECONDS) == f + 1 by {
        var q := TruncDiv(a, DAY_SECONDS);
        DivModEuclid(a, DAY_SECONDS);
        assert q * DAY_SECONDS - DAY_SECONDS < a <= q * DAY_SECONDS;
        WindowQuotient(a, DAY_SECONDS, q - 1, f);
      }
      NextMod(f, 7);
    } else if a < 0 {
      assert TruncDiv(a, DAY_SECONDS) == f by {
        var q := TruncDiv(a, DAY_SECONDS);
        DivModEuclid(a, DAY_SECONDS);
        WindowQuotient(a - 1, DAY_SECONDS, q - 1, f - 1);
      }
    }
  }

  lemma DivModEuclid(a: int, d: int)
    requires d > 0
    ensures a == (a / d) * d + a % d && 0 <= a % d < d
  {
  }

  /** Two quotients `q` with `q * d <= a < q * d + d` are equal. */
  lemma WindowQuotient(a: int, d: int, q1: int, q2: int)
    requires d > 0 && q1 * d <= a < q1 * d + d && q2 * d <= a < q2 * d + d
    ensures q1 == q2
  {
    assert (q1 - q2) * d == q1 * d - q2 * d by { SubMul(q1, q2, d); }
    if q1 - q2 >= 1 {
      MulAtLeast(q1 - q2, 1, d);
    } else if q1 - q2 <= -1 {
      MulAtLeast(-1, q1 - q2, d);
    }
  }

  /** One second after the epoch, a Thursday, is reported as Friday. */
  lemma WeekdayAsWrittenEpochExample()
    ensures WeekdayAsWritten(1) == 4 && Weekday(1) == 3
  {
    WeekdayOfDay(0, 1, 1);
    assert TruncDiv(1 - FIRST_MONDAY_TS, DAY_SECONDS) == -3;
  }

  /** 2022-12-07T00:00:01Z is a Wednesday: weekday 2, ISO weekday 3. */
  lemma WeekdayExample()
    ensures WeekdayAsWritten(1670371201) == 2 && Weekday(1670371201) == 2 && IsoWeekday(1670371201) == 3
  {
    WeekdayOfDay(19333, 1, 1670371201);
    WeekdayAsWrittenAgrees(1670371201);
  }

  /** The day count of that date. */
  lemma WeekdayExampleDate()
    ensures DaysFromCivil(Date(2022, 12, 7)) == 19333
  {
  }
}
