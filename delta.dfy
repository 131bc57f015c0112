/**
 * `dTS`, a delta between timestamps: a fixed number of nanoseconds or a number of
 * calendar months (never both), read from text such as "5m", "-2h" or "13M", written
 * back in its largest exact unit, and added to or subtracted from integer nanosecond
 * instants, month deltas moving the UTC calendar date.
 */
module Delta {
  import opened Errors
  import opened Numerics
  import opened DecimalText
  import opened Calendar

  const NS_PER_SEC := 1_000_000_000
  /** Nanoseconds in a UTC day. */
  const DAY_NS := 86_400_000_000_000

  /** The fixed units and their length in nanoseconds, in the table's own order (largest first). */
  const NS_BY_UNIT: seq<(string, int)> := [
    ("w", 7 * 24 * 60 * 60 * NS_PER_SEC),
    ("d", 24 * 60 * 60 * NS_PER_SEC),
    ("h", 60 * 60 * NS_PER_SEC),
    ("m", 60 * NS_PER_SEC),
    ("s", NS_PER_SEC),
    ("ms", 1_000_000),
    ("us", 1_000),
    ("ns", 1)
  ]

  /** The unit alternatives the text grammar accepts; `us` is not among them. */
  const PATTERN_UNITS: seq<string> := ["ms", "ns", "s", "m", "h", "d", "w", "M", "Y"]

  /** Membership in the grammar's units, letter by letter. */
  predicate IsPatternUnit(u: string) {
    || (|u| == 1 && (u[0] == 's' || u[0] == 'm' || u[0] == 'h' || u[0] == 'd' || u[0] == 'w' || u[0] == 'M' || u[0] == 'Y'))
    || (|u| == 2 && u[1] == 's' && (u[0] == 'm' || u[0] == 'n'))
  }

  lemma PatternUnitsListed(u: string)
    ensures IsPatternUnit(u) <==> u in PATTERN_UNITS
  {
    if |u| == 1 {
      assert u == [u[0]];
    } else if |u| == 2 {
      assert u == [u[0], u[1]];
    }
  }

  /** A delta: `deltaNs` nanoseconds plus `months` calendar months. */
  datatype Delta = Delta(deltaNs: int, months: int) {
    /** Every delta the constructor builds has at most one non-zero component. */
    predicate Valid() {
      deltaNs == 0 || months == 0
    }
  }

  lemma NsByUnitPositive()
    ensures forall i | 0 <= i < |NS_BY_UNIT| :: NS_BY_UNIT[i].1 > 0
  {
  }

  // ---------------------------------------------------------------------------
  // First-match searches over the unit table.

  /** The first entry of `table` whose key is `key` (a dictionary lookup). */
  function IndexOfKey(table: seq<(string, int)>, key: string): (r: Option<nat>)
    ensures r.Some? ==> r.value < |table| && table[r.value].0 == key
    ensures r.Some? ==> forall j | 0 <= j < r.value :: table[j].0 != key
    ensures r.None? ==> forall j | 0 <= j < |table| :: table[j].0 != key
    decreases |table|
  {
    if table == [] then None
    else if table[0].0 == key then Some(0)
    else
      match IndexOfKey(table[1..], key)
      case None => None
      case Some(i) => Some(i + 1)
  }

  /** The first entry of `units` whose length divides `x` exactly. */
  function FirstDividing(units: seq<(string, int)>, x: int): (r: Option<nat>)
    requires forall j | 0 <= j < |units| :: units[j].1 > 0
    ensures r.Some? ==> r.value < |units| && x % units[r.value].1 == 0
    ensures r.Some? ==> forall j | 0 <= j < r.value :: x % units[j].1 != 0
    ensures r.None? ==> forall j | 0 <= j < |units| :: x % units[j].1 != 0
    decreases |units|
  {
    if units == [] then None
    else if x % units[0].1 == 0 then Some(0)
    else
      match FirstDividing(units[1..], x)
      case None => None
      case Some(i) => Some(i + 1)
  }

  /** The unit keys are distinct, so looking up an entry's key finds that entry. */
  lemma IndexOfUnitKey(i: nat)
    requires i < |NS_BY_UNIT|
    ensures IndexOfKey(NS_BY_UNIT, NS_BY_UNIT[i].0) == Some(i)
  {
    var r := IndexOfKey(NS_BY_UNIT, NS_BY_UNIT[i].0);
    assert NS_BY_UNIT[i].0 == NS_BY_UNIT[i].0;
    assert r.Some?;
    assert forall j, k | 0 <= j < k < |NS_BY_UNIT| :: NS_BY_UNIT[j].0 != NS_BY_UNIT[k].0;
  }

  // ---------------------------------------------------------------------------
  // Decoding a count in a unit.

  /**
   * `_get_deltas`: `M` counts months, `Y` twelve months each, a table unit its length in
   * nanoseconds; any other unit is a missing dictionary key.
   */
  function GetDeltas(delta: int, unit: string): (r: Result<Delta>)
    ensures r.Ok? ==> r.value.Valid()
    ensures unit == "M" ==> r == Ok(Delta(0, delta))
    ensures unit == "Y" ==> r == Ok(Delta(0, 12 * delta))
    ensures r.Err? <==> unit != "M" && unit != "Y" && forall i | 0 <= i < |NS_BY_UNIT| :: NS_BY_UNIT[i].0 != unit
    ensures r.Err? ==> r.error == KeyError(unit)
  {
    if unit == "M" then Ok(Delta(0, delta))
    else if unit == "Y" then Ok(Delta(0, delta * 12))
    else
      match IndexOfKey(NS_BY_UNIT, unit)
      case None => Err(KeyError(unit))
      case Some(i) => Ok(Delta(delta * NS_BY_UNIT[i].1, 0))
  }

  /** Every unit the grammar accepts decodes. */
  lemma PatternUnitDecodes(n: int, u: string)
    requires IsPatternUnit(u)
    ensures GetDeltas(n, u).Ok?
  {
    if u != "M" && u != "Y" {
      var k := if |u| == 2 then (if u[0] == 'm' then 5 else 7)
               else if u[0] == 's' then 4 else if u[0] == 'm' then 3 else if u[0] == 'h' then 2
               else if u[0] == 'd' then 1 else 0;
      assert u == [u[0]] || u == [u[0], u[1]];
      assert NS_BY_UNIT[k].0 == u;
    }
  }

  // ---------------------------------------------------------------------------
  // The text grammar `^(-?\d+)(ms|ns|s|m|h|d|w|M|Y)$`.

  /**
   * The parts of a matching string: an optional minus sign, the digits, the unit and,
   * since `$` also matches before a final line feed, an optional trailing "\n".
   */
  datatype Token = Token(negative: bool, digits: string, unit: string, newline: bool)

  predicate WellFormed(t: Token) {
    |t.digits| >= 1 && AllDigits(t.digits) && IsPatternUnit(t.unit)
  }

  function LineEnd(newline: bool): string {
    if newline then "\n" else ""
  }

  function Render(t: Token): string {
    Sign(t.negative) + (t.digits + t.unit) + LineEnd(t.newline)
  }

  /** `int()` of the first group. */
  function TokenValue(t: Token): int
    requires AllDigits(t.digits)
  {
    var n: int := ParseNat(t.digits);
    if t.negative then -n else n
  }

  /** The units of the grammar are short, begin with a letter and do not end in a line feed. */
  lemma PatternUnitShape(u: string)
    requires IsPatternUnit(u)
    ensures 1 <= |u| <= 2 && !IsDigit(u[0]) && u[0] != '-' && u[|u| - 1] != '\n'
    ensures |u| == 2 ==> u[1] == 's' && (u[0] == 'm' || u[0] == 'n')
  {
  }

  /** A final line feed, split off when there is one. */
  function StripLineEnd(s: string): (r: (string, bool))
    ensures s == r.0 + LineEnd(r.1)
    ensures r.1 <==> |s| > 0 && s[|s| - 1] == '\n'
  {
    if |s| > 0 && s[|s| - 1] == '\n' then (s[..|s| - 1], true) else (s, false)
  }

  /** A leading minus sign, split off when there is one. */
  function StripSign(s: string): (r: (bool, string))
    ensures s == Sign(r.0) + r.1
    ensures r.0 <==> |s| > 0 && s[0] == '-'
  {
    if |s| > 0 && s[0] == '-' then (true, s[1..]) else (false, s)
  }

  lemma StripLineEndOf(x: string, newline: bool)
    requires |x| > 0 && x[|x| - 1] != '\n'
    ensures StripLineEnd(x + LineEnd(newline)) == (x, newline)
  {
    var s := x + LineEnd(newline);
    if newline {
      assert s[..|s| - 1] == x;
    } else {
      assert s == x;
    }
  }

  lemma StripSignOf(negative: bool, x: string)
    requires |x| > 0 && x[0] != '-'
    ensures StripSign(Sign(negative) + x) == (negative, x)
  {
    var s := Sign(negative) + x;
    if negative {
      assert s[1..] == x;
    } else {
      assert s == x;
    }
  }

  lemma SplitAt(s: string, k: nat)
    requires k <= |s|
    ensures s[..k] + s[k..] == s
  {
  }

  /** Matching a string against the grammar: its parts when it matches, nothing otherwise. */
  function Tokenize(s: string): (r: Option<Token>)
    ensures r.Some? ==> WellFormed(r.value) && Render(r.value) == s
  {
    var line := StripLineEnd(s);
    var signed := StripSign(line.0);
    SplitCount(signed.0, signed.1, line.1)
  }

  /** The digits and the unit after the sign: a non-empty digit run followed by exactly a unit of the grammar. */
  function SplitCount(negative: bool, rest: string, newline: bool): (r: Option<Token>)
    ensures r.Some? ==> WellFormed(r.value) && r.value.negative == negative && r.value.newline == newline
    ensures r.Some? ==> r.value.digits + r.value.unit == rest
  {
    var k := DigitRun(rest);
    if k >= 1 && IsPatternUnit(rest[k..]) then
      SplitAt(rest, k);
      Some(Token(negative, rest[..k], rest[k..], newline))
    else None
  }

  lemma SplitCountOf(negative: bool, digits: string, unit: string, newline: bool)
    requires |digits| >= 1 && AllDigits(digits) && IsPatternUnit(unit)
    ensures SplitCount(negative, digits + unit, newline) == Some(Token(negative, digits, unit, newline))
  {
    PatternUnitShape(unit);
    DigitRunOfPrefix(digits, unit);
    var rest := digits + unit;
    assert rest[..|digits|] == digits && rest[|digits|..] == unit;
  }

  /** Every well-formed token is matched, and matching gives back exactly its parts. */
  lemma {:induction false} TokenizeRender(t: Token)
    requires WellFormed(t)
    ensures Tokenize(Render(t)) == Some(t)
  {
    PatternUnitShape(t.unit);
    var rest := t.digits + t.unit;
    var body := Sign(t.negative) + rest;
    assert body[|body| - 1] == t.unit[|t.unit| - 1];
    StripLineEndOf(body, t.newline);
    assert rest[0] == t.digits[0];
    StripSignOf(t.negative, rest);
    SplitCountOf(t.negative, t.digits, t.unit, t.newline);
  }

  /** The string path of the constructor: a match is decoded, anything else is a ValueError naming the string. */
  function Parse(s: string): (r: Result<Delta>)
    ensures r.Ok? <==> Tokenize(s).Some?
    ensures r.Ok? ==> r.value.Valid()
    ensures r.Ok? ==> r == GetDeltas(TokenValue(Tokenize(s).value), Tokenize(s).value.unit)
    ensures r.Err? ==> r.error == ValueError("Invalid delta string: " + s)
  {
    match Tokenize(s)
    case None => Err(ValueError("Invalid delta string: " + s))
    case Some(t) =>
      PatternUnitDecodes(TokenValue(t), t.unit);
      GetDeltas(TokenValue(t), t.unit)
  }

  /** A string is accepted exactly when it is the text of a well-formed token, which then decides the value. */
  lemma ParseOfToken(t: Token)
    requires WellFormed(t)
    ensures Parse(Render(t)) == GetDeltas(TokenValue(t), t.unit)
    ensures Parse(Render(t)).Ok?
  {
    TokenizeRender(t);
  }

  /**
   * What every matching string looks like at its two ends: it starts with a digit or a
   * minus sign and a digit, and before the optional line feed its unit is a letter after
   * a digit, or `ms`/`ns`.
   */
  predicate MatchShape(s: string) {
    var e := if |s| > 0 && s[|s| - 1] == '\n' then |s| - 1 else |s|;
    && e >= 2
    && (IsDigit(s[0]) || (s[0] == '-' && e >= 3 && IsDigit(s[1])))
    && (IsDigit(s[e - 2]) || (s[e - 1] == 's' && (s[e - 2] == 'm' || s[e - 2] == 'n')))
  }

  lemma RenderShape(t: Token)
    requires WellFormed(t)
    ensures MatchShape(Render(t))
  {
    PatternUnitShape(t.unit);
    var rest := t.digits + t.unit;
    var x := Sign(t.negative) + rest;
    var s := Render(t);
    assert x[|x| - 1] == t.unit[|t.unit| - 1];
    StripLineEndOf(x, t.newline);
    assert forall i | 0 <= i < |x| :: s[i] == x[i];
    assert x[|x| - 2] == if |t.unit| == 2 then t.unit[0] else t.digits[|t.digits| - 1];
    assert rest[0] == t.digits[0];
    assert t.negative ==> x[1] == t.digits[0];
  }

  lemma TokenizeShape(s: string)
    ensures Tokenize(s).Some? ==> MatchShape(s)
  {
    if Tokenize(s).Some? {
      RenderShape(Tokenize(s).value);
    }
  }

  /** A string without the shape of a match is refused with a ValueError naming it. */
  lemma ParseRefusesShape(s: string)
    requires !MatchShape(s)
    ensures Parse(s) == Err(ValueError("Invalid delta string: " + s))
  {
    TokenizeShape(s);
  }

  /** A count without a unit is refused. */
  lemma ParseRejectsBareCount()
    ensures Parse("1").Err?
  {
    ParseRefusesShape("1");
  }

  /** A space between count and unit is refused. */
  lemma ParseRejectsSpace()
    ensures Parse("1 s").Err?
  {
    ParseRefusesShape("1 s");
  }

  /** A plus sign is refused. */
  lemma ParseRejectsPlus()
    ensures Parse("+1s").Err?
  {
    ParseRefusesShape("+1s");
  }

  /** A unit outside the grammar is refused. */
  lemma ParseRejectsUnknownUnit()
    ensures Parse("1ps").Err?
  {
    ParseRefusesShape("1ps");
  }

  /** `us` is refused too: the unit table knows it but the grammar omits it. */
  lemma ParseRejectsMicros()
    ensures Parse("5us").Err?
  {
    ParseRefusesShape("5us");
  }

  /** The text of a well-formed token with count `v` decodes as `v` in the token's unit. */
  lemma ParseText(s: string, t: Token, v: int)
    requires WellFormed(t) && Render(t) == s && TokenValue(t) == v
    ensures Parse(s) == GetDeltas(v, t.unit)
  {
    TokenizeRender(t);
  }

  /** A count of minutes. */
  lemma ParseAcceptsMinutes()
    ensures Parse("5m") == Ok(Delta(5 * 60 * NS_PER_SEC, 0))
  {
    ParseText("5m", Token(false, "5", "m", false), 5);
    DecodeMinutes(5);
  }

  /** A negative count of hours. */
  lemma ParseAcceptsNegative()
    ensures Parse("-2h") == Ok(Delta(-2 * 3600 * NS_PER_SEC, 0))
  {
    ParseText("-2h", Token(true, "2", "h", false), -2);
    DecodeHours(-2);
  }

  /** A count of months. */
  lemma ParseAcceptsMonths()
    ensures Parse("13M") == Ok(Delta(0, 13))
  {
    assert ParseNat("13") == 13;
    ParseText("13M", Token(false, "13", "M", false), 13);
  }

  /** A count of years is twelve months each. */
  lemma ParseAcceptsYears()
    ensures Parse("2Y") == Ok(Delta(0, 24))
  {
    ParseText("2Y", Token(false, "2", "Y", false), 2);
  }

  /** `$` also matches before one final line feed, so such a string is accepted. */
  lemma ParseAcceptsLineEnd()
    ensures Parse("5s\n") == Ok(Delta(5 * NS_PER_SEC, 0))
  {
    ParseText("5s\n", Token(false, "5", "s", true), 5);
    DecodeSeconds(5);
  }

  lemma DecodeSeconds(n: int)
    ensures GetDeltas(n, "s") == Ok(Delta(n * NS_PER_SEC, 0))
  {
    GetDeltasOfUnit(n, "s", 4);
  }

  lemma DecodeMinutes(n: int)
    ensures GetDeltas(n, "m") == Ok(Delta(n * (60 * NS_PER_SEC), 0))
  {
    GetDeltasOfUnit(n, "m", 3);
  }

  lemma DecodeHours(n: int)
    ensures GetDeltas(n, "h") == Ok(Delta(n * (3600 * NS_PER_SEC), 0))
  {
    GetDeltasOfUnit(n, "h", 2);
  }

  lemma DecodeMillis(n: int)
    ensures GetDeltas(n, "ms") == Ok(Delta(n * 1_000_000, 0))
  {
    GetDeltasOfUnit(n, "ms", 5);
  }

  lemma DecodeNanos(n: int)
    ensures GetDeltas(n, "ns") == Ok(Delta(n, 0))
  {
    GetDeltasOfUnit(n, "ns", 7);
  }

  /** A unit of the table decodes to the count times its length. */
  lemma GetDeltasOfUnit(n: int, u: string, i: nat)
    requires i < |NS_BY_UNIT| && NS_BY_UNIT[i].0 == u
    ensures GetDeltas(n, u) == Ok(Delta(n * NS_BY_UNIT[i].1, 0))
  {
    IndexOfUnitKey(i);
  }

  // ---------------------------------------------------------------------------
  // The constructor.

  /** What `dTS(...)` is given: a string, a number of any kind, or a `timedelta`. */
  datatype Arg = Text(s: string) | Num(n: Number) | TimeDelta

  /**
   * `dTS(delta, unit)`: a string is parsed and `unit` ignored; a number is rounded half
   * to even and counted in `unit`, seconds when none is given; a timedelta is refused.
   */
  function Create(arg: Arg, unit: Option<string>): (r: Result<Delta>)
    ensures r.Ok? ==> r.value.Valid()
    ensures arg.Text? ==> r == Parse(arg.s)
    ensures arg.TimeDelta? ==> r == Err(NotImplementedError("timedelta is not supported yet"))
    ensures arg.Num? && (unit.None? || unit.value == "") ==> r == Ok(Delta(Round(arg.n) * NS_PER_SEC, 0))
    ensures arg.Num? && unit.Some? && unit.value != "" ==> r == GetDeltas(Round(arg.n), unit.value)
  {
    match arg
    case Text(s) => Parse(s)
    case TimeDelta => Err(NotImplementedError("timedelta is not supported yet"))
    case Num(n) =>
      if unit.None? || unit.value == "" then
        GetDeltasOfUnit(Round(n), "s", 4);
        GetDeltas(Round(n), "s")
      else
        GetDeltas(Round(n), unit.value)
  }

  /** A number without a unit is a count of seconds, rounded to the nearest one (ties to even). */
  lemma CreateRoundsSeconds()
    ensures Create(Num(Float(10.1)), None) == Ok(Delta(10 * NS_PER_SEC, 0))
    ensures Create(Num(Float(10.9)), None) == Ok(Delta(11 * NS_PER_SEC, 0))
    ensures Create(Num(Float(2.5)), None) == Ok(Delta(2 * NS_PER_SEC, 0))
    ensures Create(Num(Int(60000)), Some("ms")) == Ok(Delta(60 * NS_PER_SEC, 0))
    ensures Create(Num(Int(13)), Some("M")) == Ok(Delta(0, 13))
  {
    assert Round(Float(10.1)) == 10;
    assert Round(Float(10.9)) == 11;
    assert Round(Float(2.5)) == 2;
    assert NS_BY_UNIT[5] == ("ms", 1_000_000);
  }

  // ---------------------------------------------------------------------------
  // Rendering.

  /**
   * `str(dTS)`: months as whole years when divisible by 12, else as months; a fixed delta
   * in the first unit of the table, largest first, that divides it exactly.
   */
  function Str(d: Delta): (s: string)
    requires d.Valid()
    ensures |s| >= 2
    ensures d.months != 0 <==> s[|s| - 1] == 'Y' || s[|s| - 1] == 'M'
  {
    if d.months != 0 then
      if d.months % 12 == 0 then IntToString(d.months / 12) + "Y" else IntToString(d.months) + "M"
    else
      NsByUnitPositive();
      var r := FirstDividing(NS_BY_UNIT, d.deltaNs);
      assert NS_BY_UNIT[7].1 == 1;
      var i := r.value;
      IntToString(d.deltaNs / NS_BY_UNIT[i].1) + NS_BY_UNIT[i].0
  }

  /**
   * A fixed delta is written as a count of the largest unit that divides it: the unit
   * divides the delta, no larger unit does, and the count times the unit is the delta.
   * `ns` divides everything, so a unit is always found.
   */
  lemma StrFixed(d: Delta) returns (i: nat)
    requires d.Valid() && d.months == 0
    ensures i < |NS_BY_UNIT| && d.deltaNs % NS_BY_UNIT[i].1 == 0
    ensures forall j | 0 <= j < i :: d.deltaNs % NS_BY_UNIT[j].1 != 0
    ensures Str(d) == IntToString(d.deltaNs / NS_BY_UNIT[i].1) + NS_BY_UNIT[i].0
    ensures (d.deltaNs / NS_BY_UNIT[i].1) * NS_BY_UNIT[i].1 == d.deltaNs
  {
    NsByUnitPositive();
    assert NS_BY_UNIT[7].1 == 1;
    i := FirstDividing(NS_BY_UNIT, d.deltaNs).value;
    ExactQuotient(d.deltaNs, NS_BY_UNIT[i].1);
  }

  lemma ExactQuotient(x: int, u: int)
    requires u > 0 && x % u == 0
    ensures (x / u) * u == x
  {
  }

  /** A month delta is written in years exactly when it is a whole number of years. */
  lemma StrMonths(d: Delta)
    requires d.Valid() && d.months != 0
    ensures d.months % 12 == 0 ==> Str(d) == IntToString(d.months / 12) + "Y" && 12 * (d.months / 12) == d.months
    ensures d.months % 12 != 0 ==> Str(d) == IntToString(d.months) + "M"
  {
  }

  /** `repr(dTS)`: the class name around the quoted rendering. */
  function Repr(d: Delta): (s: string)
    requires d.Valid()
  {
    "dTS(\"" + Str(d) + "\")"
  }

  /** The first dividing unit is `i` when unit `i` divides `x` and no larger unit does. */
  lemma FirstDividingAt(x: int, i: nat)
    requires i < |NS_BY_UNIT| && x % NS_BY_UNIT[i].1 == 0
    requires forall j | 0 <= j < i :: x % NS_BY_UNIT[j].1 != 0
    ensures FirstDividing(NS_BY_UNIT, x) == Some(i)
  {
    NsByUnitPositive();
  }

  /** A fixed delta that is `v` units `i` and is not divided by a larger unit is written as `v` in unit `i`. */
  lemma StrOfCount(d: Delta, v: int, i: nat)
    requires d.months == 0 && i < |NS_BY_UNIT| && d.deltaNs == v * NS_BY_UNIT[i].1
    requires forall j | 0 <= j < i :: d.deltaNs % NS_BY_UNIT[j].1 != 0
    ensures Str(d) == IntToString(v) + NS_BY_UNIT[i].0
  {
    NsByUnitPositive();
    MulMod(v, NS_BY_UNIT[i].1);
    FirstDividingAt(d.deltaNs, i);
  }

  /** Five minutes are written in minutes. */
  lemma StrMinutesExample()
    ensures Str(Delta(300000 * 1_000_000, 0)) == "5m"
  {
    StrOfCount(Delta(300000 * 1_000_000, 0), 5, 3);
  }

  /** Minus two hours are written in hours with a minus sign. */
  lemma StrNegativeExample()
    ensures Str(Delta(-7200000 * 1_000_000, 0)) == "-2h"
  {
    StrOfCount(Delta(-7200000 * 1_000_000, 0), -2, 2);
    assert IntToString(-2) == "-" + NatToString(2);
  }

  /** Two days are written in days. */
  lemma StrDaysExample()
    ensures Str(Delta(2 * 24 * 3600 * NS_PER_SEC, 0)) == "2d"
  {
    StrOfCount(Delta(2 * 24 * 3600 * NS_PER_SEC, 0), 2, 1);
  }

  /** The zero delta is divided by the first unit of the table, weeks. */
  lemma StrZeroExample()
    ensures Str(Delta(0, 0)) == "0w"
  {
    StrOfCount(Delta(0, 0), 0, 0);
  }

  /** Renderings of month deltas from the tests. */
  lemma StrMonthExamples()
    ensures Str(Delta(0, 24)) == "2Y" && Str(Delta(0, 13)) == "13M"
  {
    StrMonths(Delta(0, 24));
    StrMonths(Delta(0, 13));
  }

  /** A `repr` from the tests. */
  lemma ReprExample()
    ensures Repr(Delta(60 * NS_PER_SEC, 0)) == "dTS(\"1m\")"
  {
    StrOfCount(Delta(60 * NS_PER_SEC, 0), 1, 3);
  }

  /** The text of a count in a unit, as a token of the grammar. */
  function CountToken(v: int, unit: string): (t: Token)
    ensures AllDigits(t.digits) && |t.digits| >= 1
    ensures Render(t) == IntToString(v) + unit
    ensures TokenValue(t) == v
  {
    Token(v < 0, NatToString(if v < 0 then -v else v), unit, false)
  }

  /** A count written in decimal followed by a unit of the grammar reads back as that count in that unit. */
  lemma ParseCount(v: int, u: string)
    requires IsPatternUnit(u)
    ensures Parse(IntToString(v) + u) == GetDeltas(v, u)
  {
    ParseText(IntToString(v) + u, CountToken(v, u), v);
  }

  predicate EndsInUs(s: string) {
    |s| >= 2 && s[|s| - 2..] == "us"
  }

  /** No string ending in `us` matches the grammar. */
  lemma ParseRefusesUs(s: string)
    ensures EndsInUs(s) ==> Parse(s).Err?
  {
    if EndsInUs(s) {
      assert s[|s| - 1] == 's' && s[|s| - 2] == 'u';
      ParseRefusesShape(s);
    }
  }

  /** Every table unit before `ms` is a whole number of milliseconds. */
  lemma DivisibleByUnitMultiple(x: int, i: nat)
    requires i < 6 && x % NS_BY_UNIT[i].1 == 0
    ensures x % 1_000_000 == 0
  {
    var a := [604800000, 86400000, 3600000, 60000, 1000, 1][i];
    assert NS_BY_UNIT[i].1 == a * 1_000_000;
    ModOfMultiple(x, a, 1_000_000);
  }

  /** The unit of a fixed delta's rendering is `us` exactly when it is whole microseconds but not whole milliseconds. */
  lemma FixedUnitIsMicros(d: Delta, i: nat)
    requires d.months == 0 && i < |NS_BY_UNIT| && d.deltaNs % NS_BY_UNIT[i].1 == 0
    requires forall j | 0 <= j < i :: d.deltaNs % NS_BY_UNIT[j].1 != 0
    ensures i == 6 <==> d.deltaNs % 1000 == 0 && d.deltaNs % 1_000_000 != 0
  {
    assert NS_BY_UNIT[5].1 == 1_000_000 && NS_BY_UNIT[6].1 == 1000;
    if i < 6 {
      DivisibleByUnitMultiple(d.deltaNs, i);
    }
  }

  /**
   * Writing a delta and reading it back gives the same delta, exactly when the rendering
   * does not end in `us`, the one table unit the grammar omits; and that happens exactly
   * for whole microseconds that are not whole milliseconds.
   */
  lemma {:induction false} ParseStr(d: Delta)
    requires d.Valid()
    ensures Parse(Str(d)) == Ok(d) <==> !EndsInUs(Str(d))
    ensures EndsInUs(Str(d)) <==> d.months == 0 && d.deltaNs % 1000 == 0 && d.deltaNs % 1_000_000 != 0
  {
    ParseRefusesUs(Str(d));
    if d.months != 0 {
      ParseStrMonths(d);
    } else {
      ParseStrFixed(d);
    }
  }

  /** A month delta is written in a unit of the grammar and reads back as itself. */
  lemma ParseStrMonths(d: Delta)
    requires d.Valid() && d.months != 0
    ensures Parse(Str(d)) == Ok(d) && !EndsInUs(Str(d))
  {
    StrMonths(d);
    if d.months % 12 == 0 {
      ParseMonthCount(Str(d), d.months / 12, "Y", d.months);
    } else {
      ParseMonthCount(Str(d), d.months, "M", d.months);
    }
  }

  /** A count of months or years reads back as that many months and does not end in `us`. */
  lemma ParseMonthCount(s: string, v: int, u: string, m: int)
    requires (u == "M" && m == v) || (u == "Y" && m == 12 * v)
    requires s == IntToString(v) + u
    ensures !EndsInUs(s) && Parse(s) == Ok(Delta(0, m))
  {
    assert s[|s| - 1] == u[0] != 's';
    if |s| >= 2 {
      assert s[|s| - 2..][1] == s[|s| - 1];
    }
    ParseCount(v, u);
  }

  /** A fixed delta reads back as itself unless it is written in `us`, exactly the whole microseconds that are not whole milliseconds. */
  lemma ParseStrFixed(d: Delta)
    requires d.Valid() && d.months == 0
    ensures EndsInUs(Str(d)) <==> d.deltaNs % 1000 == 0 && d.deltaNs % 1_000_000 != 0
    ensures !EndsInUs(Str(d)) ==> Parse(Str(d)) == Ok(d)
  {
    var i := StrFixed(d);
    FixedUnitIsMicros(d, i);
    if i == 6 {
      assert NS_BY_UNIT[6].0 == "us";
      UsSuffix(IntToString(d.deltaNs / NS_BY_UNIT[i].1));
    } else {
      ParseFixedCount(Str(d), d.deltaNs / NS_BY_UNIT[i].1, i, d.deltaNs);
    }
  }

  lemma UsSuffix(w: string)
    ensures EndsInUs(w + "us")
  {
    assert (w + "us")[|w| ..] == "us";
  }

  /** A count written in a table unit other than `us` does not end in `us` and reads back as that many units. */
  lemma ParseFixedCount(s: string, v: int, i: nat, x: int)
    requires i < |NS_BY_UNIT| && i != 6
    requires s == IntToString(v) + NS_BY_UNIT[i].0 && x == v * NS_BY_UNIT[i].1
    ensures !EndsInUs(s) && Parse(s) == Ok(Delta(x, 0))
  {
    var u, w := NS_BY_UNIT[i].0, IntToString(v);
    ListedUnit(i);
    PatternUnitShape(u);
    assert !EndsInUs(s) by {
      LastIsDigit(v);
      if |u| == 2 {
        assert s[|s| - 2] == u[0];
      } else {
        assert s[|s| - 2] == w[|w| - 1];
      }
    }
    ParseCount(v, u);
    GetDeltasOfUnit(v, u, i);
  }

  /** Every table unit except `us` is a unit of the grammar. */
  lemma ListedUnit(i: nat)
    requires i < |NS_BY_UNIT| && i != 6
    ensures IsPatternUnit(NS_BY_UNIT[i].0)
  {
  }

  // ---------------------------------------------------------------------------
  // Equality.

  /** The right-hand operand of `==`: another delta, or a value of any other type. */
  datatype Operand = DeltaValue(d: Delta) | Other

  /** `dTS.__eq__`: equal months and equal nanoseconds; never equal to a non-delta. */
  function Equals(a: Delta, o: Operand): (r: bool)
    ensures r <==> o == DeltaValue(a)
  {
    match o
    case Other => false
    case DeltaValue(b) => a.months == b.months && a.deltaNs == b.deltaNs
  }

  /** Two years and twenty-four months compare equal. */
  lemma EqualsYearsMonths()
    ensures var a, b := Parse("2Y"), Parse("24M"); a.Ok? && b.Ok? && Equals(a.value, DeltaValue(b.value))
  {
    ParseAcceptsYears();
    ParseAcceptsYearOfMonths();
  }

  lemma ParseAcceptsYearOfMonths()
    ensures Parse("24M") == Ok(Delta(0, 24))
  {
    assert ParseNat("24") == 24;
    ParseText("24M", Token(false, "24", "M", false), 24);
  }

  /** Five minutes read from text equal the same nanoseconds given as a number. */
  lemma EqualsAcrossUnits()
    ensures var a, b := Parse("5m"), Create(Num(Int(5 * 60 * NS_PER_SEC)), Some("ns"));
            a.Ok? && b.Ok? && Equals(a.value, DeltaValue(b.value))
  {
    ParseAcceptsMinutes();
    CreateNanosExample();
  }

  /** A count of nanoseconds. */
  lemma CreateNanosExample()
    ensures Create(Num(Int(5 * 60 * NS_PER_SEC)), Some("ns")) == Ok(Delta(5 * 60 * NS_PER_SEC, 0))
  {
    DecodeNanos(5 * 60 * NS_PER_SEC);
  }

  /** Deltas one millisecond apart differ, and a delta never equals a value of another type. */
  lemma NotEqualsExample()
    ensures var a, b := Parse("5m"), Create(Num(Int(300001)), Some("ms"));
            a.Ok? && b.Ok? && !Equals(a.value, DeltaValue(b.value)) && !Equals(a.value, Other)
  {
    ParseAcceptsMinutes();
    CreateMillisExample();
  }

  /** A count of milliseconds. */
  lemma CreateMillisExample()
    ensures Create(Num(Int(300001)), Some("ms")) == Ok(Delta(300_001_000_000, 0))
  {
    DecodeMillis(300001);
  }

  // ---------------------------------------------------------------------------
  // Applying a delta to an instant in integer nanoseconds.

  /** The UTC day number of an instant (days since 1970-01-01, negative before). */
  function DayOfNs(ts: int): int {
    FloorDiv(ts, DAY_NS)
  }

  /** The nanoseconds elapsed since the UTC midnight of the instant's day. */
  function TimeOfDayNs(ts: int): (r: int)
    ensures 0 <= r < DAY_NS
    ensures DayOfNs(ts) * DAY_NS + r == ts
  {
    FloorMod(ts, DAY_NS)
  }

  /**
   * The date step of `_add_raw`: the UTC date of the midnight `secs` seconds after the
   * epoch is moved by `months` (`relativedelta`), and the new midnight is returned in
   * seconds (`round(new_dt.timestamp())`); a date outside `datetime`'s years is an error.
   */
  function ShiftMidnight(secs: int, months: int): (r: Result<int>)
    ensures r.Ok? ==> r.value % SECONDS_PER_DAY == 0
    ensures r.Err? ==> r.error.YearOutOfRange? && !(MIN_YEAR <= r.error.year <= MAX_YEAR)
  {
    var date := UtcDateOfTimestamp(secs);
    if date.Err? then Err(date.error)
    else
      var newDate := AddMonths(date.value, months);
      if newDate.Err? then Err(newDate.error)
      else
        var z := DaysFromCivil(newDate.value);
        MulMod(z, SECONDS_PER_DAY);
        Ok(z * SECONDS_PER_DAY)
  }

  /**
   * `_add_raw`: without months, plain addition.  With months, the instant is split at
   * its UTC midnight, the date is moved by `months` with the day clamped to the target
   * month, and the midnight of the new date plus the time of day plus `deltaNs` is the
   * result.
   */
  function AddRaw(ts: int, deltaNs: int, months: int): (r: Result<int>)
    ensures months == 0 ==> r.Ok? && r.value == ts + deltaNs
  {
    if months != 0 then
      var dayNs := FloorMod(ts, DAY_NS);
      var newMidnight := ShiftMidnight(FloorDiv(ts - dayNs, NS_PER_SEC), months);
      if newMidnight.Err? then Err(newMidnight.error)
      else Ok(newMidnight.value * NS_PER_SEC + dayNs + deltaNs)
    else
      Ok(ts + deltaNs)
  }

  /** At the midnight of day `z`, the date step moves the date of day `z`. */
  lemma ShiftMidnightOfDay(secs: int, z: int, months: int)
    requires secs == z * SECONDS_PER_DAY
    ensures var date := CivilFromDays(z);
            !InDatetimeRange(date) ==> ShiftMidnight(secs, months) == Err(YearOutOfRange(date.year))
    ensures var date := CivilFromDays(z);
            InDatetimeRange(date) && AddMonths(date, months).Err? ==> ShiftMidnight(secs, months) == Err(AddMonths(date, months).error)
    ensures var date := CivilFromDays(z);
            InDatetimeRange(date) && AddMonths(date, months).Ok? ==>
              ShiftMidnight(secs, months).Ok? && ShiftMidnight(secs, months).value == DaysFromCivil(AddMonths(date, months).value) * SECONDS_PER_DAY
  {
    UtcDateOfDay(secs, z);
  }

  /** The instant at time of day `t` on day `z` has day `z` and time of day `t`. */
  lemma DayAndTimeOfNs(ts: int, z: int, t: int)
    requires 0 <= t < DAY_NS && ts == z * DAY_NS + t
    ensures DayOfNs(ts) == z && TimeOfDayNs(ts) == t
  {
  }

  /** The midnight seconds `_add_raw` computes for an instant are those of its UTC day. */
  lemma MidnightOfNs(ts: int)
    ensures FloorDiv(ts - FloorMod(ts, DAY_NS), NS_PER_SEC) == DayOfNs(ts) * SECONDS_PER_DAY
  {
    var z := DayOfNs(ts);
    assert ts - FloorMod(ts, DAY_NS) == (z * SECONDS_PER_DAY) * NS_PER_SEC;
    MulMod(z * SECONDS_PER_DAY, NS_PER_SEC);
  }

  /**
   * `_add_raw` with months: the date moved is the instant's UTC date, the time of day is
   * kept, and the error is that of the first date outside `datetime`'s years.
   */
  lemma {:induction false} AddRawMonthsStep(ts: int, deltaNs: int, months: int)
    requires months != 0
    ensures var date := CivilFromDays(DayOfNs(ts));
            !InDatetimeRange(date) ==> AddRaw(ts, deltaNs, months) == Err(YearOutOfRange(date.year))
    ensures var date := CivilFromDays(DayOfNs(ts));
            InDatetimeRange(date) && AddMonths(date, months).Err? ==> AddRaw(ts, deltaNs, months) == Err(AddMonths(date, months).error)
    ensures var date := CivilFromDays(DayOfNs(ts));
            InDatetimeRange(date) && AddMonths(date, months).Ok? ==>
              && AddRaw(ts, deltaNs, months).Ok?
              && AddRaw(ts, deltaNs, months).value == DaysFromCivil(AddMonths(date, months).value) * DAY_NS + TimeOfDayNs(ts) + deltaNs
  {
    MidnightOfNs(ts);
    ShiftMidnightOfDay(FloorDiv(ts - FloorMod(ts, DAY_NS), NS_PER_SEC), DayOfNs(ts), months);
  }

  /**
   * A month step keeps the time of day and moves the UTC date exactly as adding months
   * to a date does; it fails exactly when one of the two dates lies outside
   * `datetime`'s years.
   */
  lemma {:induction false} AddRawMonths(ts: int, months: int)
    requires months != 0
    ensures var date := CivilFromDays(DayOfNs(ts));
            AddRaw(ts, 0, months).Ok? <==> InDatetimeRange(date) && AddMonths(date, months).Ok?
    ensures AddRaw(ts, 0, months).Ok? ==>
              && TimeOfDayNs(AddRaw(ts, 0, months).value) == TimeOfDayNs(ts)
              && CivilFromDays(DayOfNs(AddRaw(ts, 0, months).value)) == AddMonths(CivilFromDays(DayOfNs(ts)), months).value
  {
    AddRawMonthsStep(ts, 0, months);
    var date := CivilFromDays(DayOfNs(ts));
    if InDatetimeRange(date) && AddMonths(date, months).Ok? {
      DayAndTimeOfNs(AddRaw(ts, 0, months).value, DaysFromCivil(AddMonths(date, months).value), TimeOfDayNs(ts));
      CivilOfDayCount(DayOfNs(AddRaw(ts, 0, months).value), AddMonths(date, months).value);
    }
  }

  /** With months, the nanosecond part is added on top of the month step. */
  lemma AddRawShift(ts: int, deltaNs: int, months: int)
    requires months != 0
    ensures AddRaw(ts, deltaNs, months).Ok? <==> AddRaw(ts, 0, months).Ok?
    ensures AddRaw(ts, deltaNs, months).Ok? ==> AddRaw(ts, deltaNs, months).value == AddRaw(ts, 0, months).value + deltaNs
  {
  }

  lemma AddRawOfEqual(ts: int, a: int, b: int, m: int, n: int)
    requires a == b && m == n
    ensures AddRaw(ts, a, m) == AddRaw(ts, b, n)
  {
  }

  /** `dTS._add`: the delta applied forwards. */
  function Add(d: Delta, ts: int): (r: Result<int>)
    ensures d.months == 0 ==> r.Ok? && r.value == ts + d.deltaNs
  {
    AddRaw(ts, d.deltaNs, d.months)
  }

  /** `dTS._sub`: the delta applied backwards, both components negated. */
  function Sub(d: Delta, ts: int): (r: Result<int>)
    ensures d.months == 0 ==> r.Ok? && r.value == ts - d.deltaNs
  {
    AddRaw(ts, -d.deltaNs, -d.months)
  }

  /** Subtracting a delta is adding its negation. */
  lemma SubIsAddNegated(d: Delta, ts: int)
    ensures Sub(d, ts) == Add(Delta(-d.deltaNs, -d.months), ts)
  {
    AddRawOfEqual(ts, -d.deltaNs, Delta(-d.deltaNs, -d.months).deltaNs, -d.months, Delta(-d.deltaNs, -d.months).months);
  }

  /** Subtracting a fixed delta undoes adding it, and the other way round. */
  lemma SubAddFixed(d: Delta, ts: int)
    requires d.months == 0
    ensures Add(d, ts).Ok? && Sub(d, Add(d, ts).value).Ok? && Sub(d, Add(d, ts).value).value == ts
    ensures Sub(d, ts).Ok? && Add(d, Sub(d, ts).value) == Ok(ts)
  {
  }

  /**
   * Subtracting a month delta undoes adding it when the forward step needed no clamping:
   * the day of the month exists in the target month.
   */
  lemma {:induction false} SubAddMonths(d: Delta, ts: int)
    requires d.Valid() && d.months != 0
    requires var date := CivilFromDays(DayOfNs(ts));
             && InDatetimeRange(date) && AddMonths(date, d.months).Ok?
             && date.day <= DaysInMonth(AddMonths(date, d.months).value.year, AddMonths(date, d.months).value.month)
    ensures Add(d, ts).Ok? && Sub(d, Add(d, ts).value).Ok? && Sub(d, Add(d, ts).value).value == ts
  {
    AddMonthsDelta(d, ts);
    SubMonthsDelta(d, ts, Add(d, ts).value);
  }

  /** A month delta moves the UTC date by its months and keeps the time of day. */
  lemma {:induction false} AddMonthsDelta(d: Delta, ts: int)
    requires d.Valid() && d.months != 0
    requires var date := CivilFromDays(DayOfNs(ts)); InDatetimeRange(date) && AddMonths(date, d.months).Ok?
    ensures Add(d, ts).Ok?
    ensures CivilFromDays(DayOfNs(Add(d, ts).value)) == AddMonths(CivilFromDays(DayOfNs(ts)), d.months).value
    ensures TimeOfDayNs(Add(d, ts).value) == TimeOfDayNs(ts)
  {
    AddRawOfEqual(ts, d.deltaNs, 0, d.months, d.months);
    AddRawMonths(ts, d.months);
  }

  /** Subtracting the month delta from an instant `r` that adding it produced gives back `ts`. */
  lemma {:induction false} SubMonthsDelta(d: Delta, ts: int, r: int)
    requires d.Valid() && d.months != 0
    requires var date := CivilFromDays(DayOfNs(ts));
             && InDatetimeRange(date) && AddMonths(date, d.months).Ok?
             && date.day <= DaysInMonth(AddMonths(date, d.months).value.year, AddMonths(date, d.months).value.month)
    requires CivilFromDays(DayOfNs(r)) == AddMonths(CivilFromDays(DayOfNs(ts)), d.months).value
    requires TimeOfDayNs(r) == TimeOfDayNs(ts)
    ensures Sub(d, r).Ok? && Sub(d, r).value == ts
  {
    var date := CivilFromDays(DayOfNs(ts));
    AddMonthsInverse(date, d.months);
    AddRawOfEqual(r, -d.deltaNs, 0, -d.months, -d.months);
    AddRawMonths(r, -d.months);
    InstantOfDayAndTime(Sub(d, r).value, ts);
  }

  /** An instant is determined by its UTC date and its time of day. */
  lemma InstantOfDayAndTime(a: int, b: int)
    requires CivilFromDays(DayOfNs(a)) == CivilFromDays(DayOfNs(b)) && TimeOfDayNs(a) == TimeOfDayNs(b)
    ensures a == b
  {
    CivilFromDaysCount(DayOfNs(a));
    CivilFromDaysCount(DayOfNs(b));
  }

  /** 2022-12-31 00:00:00.123456 plus "2M" is 2023-02-28 at the same time of day. */
  lemma {:induction false} AddMonthsInstantExample()
    ensures Add(Delta(0, 2), 1_672_444_800_123_456_000) == Ok(1_677_542_400_123_456_000)
  {
    var ts := 1_672_444_800_123_456_000;
    DaysFromCivilExamples();
    assert ts == DaysFromCivil(Date(2022, 12, 31)) * DAY_NS + 123_456_000;
    DayAndTimeOfNs(ts, DaysFromCivil(Date(2022, 12, 31)), 123_456_000);
    CivilOfDayCount(DayOfNs(ts), Date(2022, 12, 31));
    AddMonthsFromMonthEnd();
    AddRawMonthsStep(ts, 0, 2);
  }

  /** 2022-12-31 00:00:00.123456 minus "2M" is 2022-10-31 at the same time of day. */
  lemma {:induction false} SubMonthsInstantExample()
    ensures Sub(Delta(0, 2), 1_672_444_800_123_456_000) == Ok(1_667_174_400_123_456_000)
  {
    var ts := 1_672_444_800_123_456_000;
    DaysFromCivilExamples();
    assert ts == DaysFromCivil(Date(2022, 12, 31)) * DAY_NS + 123_456_000;
    DayAndTimeOfNs(ts, DaysFromCivil(Date(2022, 12, 31)), 123_456_000);
    CivilOfDayCount(DayOfNs(ts), Date(2022, 12, 31));
    AddMonthsFromMonthEnd();
    AddRawOfEqual(ts, -Delta(0, 2).deltaNs, 0, -Delta(0, 2).months, -2);
    AddRawMonthsStep(ts, 0, -2);
  }
}
