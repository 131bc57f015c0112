/**
 * The proleptic Gregorian calendar as the timestamp core relies on it through Python's
 * `datetime` (UTC dates of whole days since 1970-01-01) and `dateutil.relativedelta`
 * (adding months with the day clamped to the end of the target month).
 *
 * Days are converted with the era decomposition: 400-year eras of 146097 days, each
 * counted from 1 March so that the leap day is the last day of its year.
 */
module Calendar {
  import opened Errors
  import opened Numerics

  datatype Date = Date(year: int, month: int, day: int)

  /** The years `datetime` can represent. */
  const MIN_YEAR := 1
  const MAX_YEAR := 9999

  const SECONDS_PER_DAY := 86400

  /** Days from 0000-03-01 to 1970-01-01. */
  const EPOCH_SHIFT := 719468
  const DAYS_PER_ERA := 146097

  predicate IsLeapYear(y: int) {
    y % 4 == 0 && (y % 100 != 0 || y % 400 == 0)
  }

  function DaysInMonth(y: int, m: int): (n: int)
    requires 1 <= m <= 12
    ensures 28 <= n <= 31
    ensures n == 29 <==> m == 2 && IsLeapYear(y)
  {
    if m == 2 then (if IsLeapYear(y) then 29 else 28)
    else if m == 4 || m == 6 || m == 9 || m == 11 then 30
    else 31
  }

  predicate ValidDate(d: Date) {
    1 <= d.month <= 12 && 1 <= d.day <= DaysInMonth(d.year, d.month)
  }

  predicate InDatetimeRange(d: Date) {
    MIN_YEAR <= d.year <= MAX_YEAR
  }

  // ---------------------------------------------------------------------------
  // Months counted from March: 0 is March, ..., 10 is January, 11 is February.

  /** The day of the March-based year on which shifted month `mp` starts; 367 closes February. */
  function MonthStart(mp: int): int
    requires 0 <= mp <= 12
  {
    (153 * mp + 2) / 5
  }

  function ShiftedMonth(m: int): (mp: int)
    requires 1 <= m <= 12
    ensures 0 <= mp <= 11
  {
    if m > 2 then m - 3 else m + 9
  }

  function CalendarMonth(mp: int): (m: int)
    requires 0 <= mp <= 11
    ensures 1 <= m <= 12 && ShiftedMonth(m) == mp
  {
    if mp < 10 then mp + 3 else mp - 9
  }

  /** Every shifted month except February is exactly as long as the calendar says. */
  lemma MonthStartLength(mp: int, y: int)
    requires 0 <= mp <= 11
    ensures mp < 11 ==> MonthStart(mp + 1) - MonthStart(mp) == DaysInMonth(y, CalendarMonth(mp))
    ensures mp == 11 ==> MonthStart(mp) == 337 && MonthStart(mp + 1) == 367
  {
  }

  /** The shifted month that holds day `doy` of a March-based year, and that month's bounds. */
  function ShiftedMonthOfDay(doy: int): (mp: int)
    requires 0 <= doy <= 365
    ensures 0 <= mp <= 11
    ensures MonthStart(mp) <= doy < MonthStart(mp + 1)
  {
    (5 * doy + 2) / 153
  }

  /** The month found for a day is the only month whose bounds hold that day. */
  lemma ShiftedMonthOfDayUnique(doy: int, mp: int)
    requires 0 <= doy <= 365 && 0 <= mp <= 11
    requires MonthStart(mp) <= doy < MonthStart(mp + 1)
    ensures ShiftedMonthOfDay(doy) == mp
  {
  }

  // ---------------------------------------------------------------------------
  // Years within an era (counted from 1 March of a year divisible by 400).

  /** The first day, within its era, of March-based year `yoe`. */
  function YearStart(yoe: int): int
    requires 0 <= yoe < 400
  {
    365 * yoe + yoe / 4 - yoe / 100
  }

  /** The March-based year `yoe` is followed by a February 29 (its calendar year `yoe + 1` is leap). */
  predicate EndsWithLeapDay(yoe: int) {
    (yoe + 1) % 4 == 0 && ((yoe + 1) % 100 != 0 || yoe == 399)
  }

  /** Which of the era's four centuries a day of the era falls in; the last one is a day longer. */
  function CenturyOfEra(doe: int): int {
    if doe / 36524 < 3 then doe / 36524 else 3
  }

  /** A day of an era, split into its March-based year and the day within that year. */
  function YearOfEra(doe: int): (int, int)
    requires 0 <= doe < DAYS_PER_ERA
  {
    var c := CenturyOfEra(doe);
    YearOfCentury(c, doe - 36524 * c)
  }

  /** Day `doc` of century `c`, split by four-year blocks of 1461 days. */
  function YearOfCentury(c: int, doc: int): (int, int) {
    var q := doc / 1461;
    YearOfBlock(c, q, doc - 1461 * q)
  }

  /** Day `doq` of block `q` of century `c`, split by years of 365 days; the last year of a block is a day longer. */
  function YearOfBlock(c: int, q: int, doq: int): (int, int) {
    var yy := if doq / 365 < 3 then doq / 365 else 3;
    (100 * c + 4 * q + yy, doq - 365 * yy)
  }

  /** The split is in range, puts day 365 only in a year followed by a leap day, and adds back up. */
  lemma YearOfEraSplit(doe: int)
    requires 0 <= doe < DAYS_PER_ERA
    ensures var r := YearOfEra(doe);
            && 0 <= r.0 < 400 && 0 <= r.1 <= 365
            && (r.1 == 365 ==> EndsWithLeapDay(r.0))
            && YearStart(r.0) + r.1 == doe
  {
    YearOfCenturySplit(CenturyOfEra(doe), doe - 36524 * CenturyOfEra(doe));
  }

  lemma YearOfCenturySplit(c: int, doc: int)
    requires 0 <= c <= 3 && 0 <= doc <= 36524 && (doc == 36524 ==> c == 3)
    ensures var r := YearOfCentury(c, doc);
            && 0 <= r.0 < 400 && 0 <= r.1 <= 365
            && (r.1 == 365 ==> EndsWithLeapDay(r.0))
            && YearStart(r.0) + r.1 == 36524 * c + doc
  {
    YearOfBlockSplit(c, doc / 1461, doc - 1461 * (doc / 1461));
  }

  lemma YearOfBlockSplit(c: int, q: int, doq: int)
    requires 0 <= c <= 3 && 0 <= q <= 24 && 0 <= doq < 1461 && (q == 24 && doq == 1460 ==> c == 3)
    ensures var r := YearOfBlock(c, q, doq);
            && 0 <= r.0 < 400 && 0 <= r.1 <= 365
            && (r.1 == 365 ==> EndsWithLeapDay(r.0))
            && YearStart(r.0) + r.1 == 36524 * c + 1461 * q + doq
  {
    var yy := if doq / 365 < 3 then doq / 365 else 3;
    var yoe := 100 * c + 4 * q + yy;
    DivModUnique(yoe, 25 * c + q, yy, 4);
    DivModUnique(yoe, c, 4 * q + yy, 100);
    if doq - 365 * yy == 365 {
      DivModUnique(yoe + 1, 25 * c + q + 1, 0, 4);
      if q < 24 {
        DivModUnique(yoe + 1, c, 4 * q + 4, 100);
      }
    }
  }

  lemma YearStartBounds(yoe: int, doy: int)
    requires 0 <= yoe < 400 && 0 <= doy <= 365
    requires doy == 365 ==> EndsWithLeapDay(yoe)
    ensures 0 <= YearStart(yoe) + doy < DAYS_PER_ERA
  {
  }

  /** The year and day within it are recovered from the day of the era. */
  lemma YearOfEraInverse(doe: int, yoe: int, doy: int)
    requires 0 <= yoe < 400 && 0 <= doy <= 365
    requires doy == 365 ==> EndsWithLeapDay(yoe)
    requires doe == YearStart(yoe) + doy
    ensures 0 <= doe < DAYS_PER_ERA
    ensures YearOfEra(doe) == (yoe, doy)
  {
    var c, r := yoe / 100, yoe % 100;
    var q, yy := r / 4, r % 4;
    assert yoe == 100 * c + 4 * q + yy;
    DivModUnique(yoe, 25 * c + q, yy, 4);
    YearOfEraOfParts(doe, c, q, yy, doy);
  }

  /** The split of a day given as centuries, four-year blocks, years and days recovers those parts. */
  lemma YearOfEraOfParts(doe: int, c: int, q: int, yy: int, doy: int)
    requires 0 <= c <= 3 && 0 <= q <= 24 && 0 <= yy <= 3 && 0 <= doy <= 365
    requires q == 24 && yy == 3 && c < 3 ==> doy < 365
    requires doy == 365 ==> yy == 3
    requires doe == 36524 * c + 1461 * q + 365 * yy + doy
    ensures 0 <= doe < DAYS_PER_ERA
    ensures YearOfEra(doe) == (100 * c + 4 * q + yy, doy)
  {
    CenturyOfEraDay(doe, c, 1461 * q + 365 * yy + doy);
    YearOfCenturyParts(CenturyOfEra(doe), doe - 36524 * CenturyOfEra(doe), q, yy, doy);
  }

  lemma CenturyOfEraDay(doe: int, c: int, rest: int)
    requires 0 <= c <= 3 && 0 <= rest
    requires rest < 36524 || (c == 3 && rest <= 36524)
    requires doe == 36524 * c + rest
    ensures CenturyOfEra(doe) == c
  {
    if rest < 36524 {
      DivModUnique(doe, c, rest, 36524);
    } else {
      DivModUnique(doe, 4, 0, 36524);
    }
  }

  lemma YearOfCenturyParts(c: int, doc: int, q: int, yy: int, doy: int)
    requires 0 <= yy <= 3 && 0 <= doy <= 365 && (doy == 365 ==> yy == 3)
    requires doc == 1461 * q + 365 * yy + doy
    ensures YearOfCentury(c, doc) == (100 * c + 4 * q + yy, doy)
  {
    DivModUnique(doc, q, 365 * yy + doy, 1461);
    YearOfBlockParts(c, doc / 1461, doc - 1461 * (doc / 1461), yy, doy);
  }

  lemma YearOfBlockParts(c: int, q: int, doq: int, yy: int, doy: int)
    requires 0 <= yy <= 3 && 0 <= doy <= 365 && (doy == 365 ==> yy == 3)
    requires doq == 365 * yy + doy
    ensures YearOfBlock(c, q, doq) == (100 * c + 4 * q + yy, doy)
  {
    if doy < 365 {
      DivModUnique(doq, yy, doy, 365);
    } else {
      DivModUnique(doq, 4, 0, 365);
    }
  }

  /** Within era `era`, March-based year `yoe` ends with a leap day exactly when the calendar year after it is leap. */
  lemma LeapDayOfEra(era: int, yoe: int)
    requires 0 <= yoe < 400
    ensures EndsWithLeapDay(yoe) <==> IsLeapYear(400 * era + yoe + 1)
  {
    ModOfShift(yoe + 1, 100 * era, 4, 400 * era + yoe + 1);
    ModOfShift(yoe + 1, 4 * era, 100, 400 * era + yoe + 1);
    ModOfShift(yoe + 1, era, 400, 400 * era + yoe + 1);
  }

  // ---------------------------------------------------------------------------
  // Whole days since 1970-01-01 and calendar dates.

  /** Days from 1970-01-01 to `d`, negative before it. */
  function DaysFromCivil(d: Date): (z: int)
    requires ValidDate(d)
    ensures d == Date(1970, 1, 1) ==> z == 0
  {
    var y := if d.month <= 2 then d.year - 1 else d.year;
    var era := y / 400;
    var yoe := y - era * 400;
    var doy := MonthStart(ShiftedMonth(d.month)) + d.day - 1;
    era * DAYS_PER_ERA + YearStart(yoe) + doy - EPOCH_SHIFT
  }

  /** Within a month, the next day is counted one day later. */
  lemma DaysFromCivilNextDay(d: Date)
    requires ValidDate(d) && d.day < DaysInMonth(d.year, d.month)
    ensures DaysFromCivil(Date(d.year, d.month, d.day + 1)) == DaysFromCivil(d) + 1
  {
  }

  /** The calendar day after `d`: the next day of its month, else the first of the next month or year. */
  function NextDate(d: Date): (n: Date)
    requires ValidDate(d)
    ensures ValidDate(n)
  {
    if d.day < DaysInMonth(d.year, d.month) then Date(d.year, d.month, d.day + 1)
    else if d.month == 12 then Date(d.year + 1, 1, 1)
    else Date(d.year, d.month + 1, 1)
  }

  /**
   * Consecutive dates have consecutive day counts, across month and year ends too; with
   * 1970-01-01 as day 0 this fixes the count of every date.
   */
  lemma DaysFromCivilNext(d: Date)
    requires ValidDate(d)
    ensures DaysFromCivil(NextDate(d)) == DaysFromCivil(d) + 1
  {
    if d.day < DaysInMonth(d.year, d.month) {
      assert NextDate(d) == Date(d.year, d.month, d.day + 1);
      DaysFromCivilNextDay(d);
    } else if d.month == 2 {
      assert d == Date(d.year, 2, DaysInMonth(d.year, 2)) && NextDate(d) == Date(d.year, 3, 1);
      DaysFromCivilMarchFirst(d.year);
    } else {
      DaysFromCivilMonthEnd(d);
    }
  }

  /** From the last day of a month other than February, the first of the next month is one day later. */
  lemma DaysFromCivilMonthEnd(d: Date)
    requires ValidDate(d) && d.month != 2 && d.day == DaysInMonth(d.year, d.month)
    ensures DaysFromCivil(NextDate(d)) == DaysFromCivil(d) + 1
  {
    var n := NextDate(d);
    var y := if d.month <= 2 then d.year - 1 else d.year;
    assert (if n.month <= 2 then n.year - 1 else n.year) == y;
    var mp := ShiftedMonth(d.month);
    assert mp < 11 && ShiftedMonth(n.month) == mp + 1 && CalendarMonth(mp) == d.month;
    MonthStartLength(mp, d.year);
    var era, yoe := y / 400, y % 400;
    DaysFromCivilParts(d, era, yoe);
    DaysFromCivilParts(n, era, yoe);
  }

  /** March 1 is one day after the last day of February, in leap and common years alike. */
  lemma DaysFromCivilMarchFirst(year: int)
    ensures ValidDate(Date(year, 2, DaysInMonth(year, 2)))
    ensures DaysFromCivil(Date(year, 3, 1)) == DaysFromCivil(Date(year, 2, DaysInMonth(year, 2))) + 1
  {
    var feb, mar := Date(year, 2, DaysInMonth(year, 2)), Date(year, 3, 1);
    var era, yoe := (year - 1) / 400, (year - 1) % 400;
    DaysFromCivilParts(feb, era, yoe);
    LeapDayOfEra(era, yoe);
    assert MonthStart(ShiftedMonth(2)) == 337;
    if yoe < 399 {
      DaysFromCivilParts(mar, era, yoe + 1);
      YearStartStep(yoe);
    } else {
      DaysFromCivilParts(mar, era + 1, 0);
    }
  }

  /** A March-based year has 366 days when it ends with a leap day and 365 otherwise. */
  lemma YearStartStep(yoe: int)
    requires 0 <= yoe < 399
    ensures YearStart(yoe + 1) == YearStart(yoe) + (if EndsWithLeapDay(yoe) then 366 else 365)
  {
    DivStep(yoe, 4);
    DivStep(yoe, 100);
    if (yoe + 1) % 100 == 0 {
      assert (yoe + 1) % 4 == 0 by {
        DivModUnique(yoe + 1, 25 * ((yoe + 1) / 100), 0, 4);
      }
    }
  }

  /** Stepping `x` by one raises `x / m` exactly when `m` divides `x + 1`. */
  lemma DivStep(x: int, m: int)
    requires m > 0
    ensures (x + 1) / m == x / m + (if (x + 1) % m == 0 then 1 else 0)
  {
    var q, r := x / m, x % m;
    if r == m - 1 {
      DivModUnique(x + 1, q + 1, 0, m);
    } else {
      DivModUnique(x + 1, q, r + 1, m);
    }
  }

  /** Day counts of the dates in the month tests and of `datetime`'s first and last day. */
  lemma DaysFromCivilExamples()
    ensures DaysFromCivil(Date(2022, 12, 31)) == 19357
    ensures DaysFromCivil(Date(2023, 2, 28)) == 19416
    ensures DaysFromCivil(Date(2022, 10, 31)) == 19296
    ensures DaysFromCivil(Date(1, 1, 1)) == -719162
    ensures DaysFromCivil(Date(9999, 12, 31)) == 2932896
  {
    assert YearStart(22) == 8035 && YearStart(0) == 0 && YearStart(399) == 145731;
    assert MonthStart(9) == 275 && MonthStart(11) == 337 && MonthStart(7) == 214 && MonthStart(10) == 306;
    DaysFromCivilParts(Date(2022, 12, 31), 5, 22);
    DaysFromCivilParts(Date(2023, 2, 28), 5, 22);
    DaysFromCivilParts(Date(2022, 10, 31), 5, 22);
    DaysFromCivilParts(Date(1, 1, 1), 0, 0);
    DaysFromCivilParts(Date(9999, 12, 31), 24, 399);
  }

  /** The day count of a date, from its era, its March-based year in the era and its day in that year. */
  lemma DaysFromCivilParts(d: Date, era: int, yoe: int)
    requires ValidDate(d) && 0 <= yoe < 400
    requires (if d.month <= 2 then d.year - 1 else d.year) == era * 400 + yoe
    ensures DaysFromCivil(d) == era * DAYS_PER_ERA + YearStart(yoe) + MonthStart(ShiftedMonth(d.month)) + d.day - 1 - EPOCH_SHIFT
  {
    assert (era * 400 + yoe) / 400 == era;
  }

  /** The date on day `doy` of March-based year `yoe` of era `era`. */
  function DateInEra(era: int, yoe: int, doy: int): Date
    requires 0 <= doy <= 365
  {
    var mp := ShiftedMonthOfDay(doy);
    var month := CalendarMonth(mp);
    Date(era * 400 + yoe + (if month <= 2 then 1 else 0), month, doy - MonthStart(mp) + 1)
  }

  /** That date is valid (the leap day only where the year has one) and has the expected day count. */
  lemma DateInEraCount(era: int, yoe: int, doy: int)
    requires 0 <= yoe < 400 && 0 <= doy <= 365
    requires doy == 365 ==> EndsWithLeapDay(yoe)
    ensures ValidDate(DateInEra(era, yoe, doy))
    ensures DaysFromCivil(DateInEra(era, yoe, doy)) == era * DAYS_PER_ERA + YearStart(yoe) + doy - EPOCH_SHIFT
  {
    var mp := ShiftedMonthOfDay(doy);
    var d := DateInEra(era, yoe, doy);
    MonthStartLength(mp, d.year);
    LeapDayOfEra(era, yoe);
    assert ValidDate(d);
    DaysFromCivilParts(d, era, yoe);
  }

  /** The era of the day `z` days after 1970-01-01. */
  function EraOfDay(z: int): int {
    (z + EPOCH_SHIFT) / DAYS_PER_ERA
  }

  /** The day within its era of the day `z` days after 1970-01-01. */
  function DayOfEra(z: int): (doe: int)
    ensures 0 <= doe < DAYS_PER_ERA
    ensures z == EraOfDay(z) * DAYS_PER_ERA + doe - EPOCH_SHIFT
  {
    z + EPOCH_SHIFT - EraOfDay(z) * DAYS_PER_ERA
  }

  /** A day count written as an era and a day of that era has exactly that era and day. */
  lemma EraAndDayOf(z: int, era: int, doe: int)
    requires 0 <= doe < DAYS_PER_ERA && z == era * DAYS_PER_ERA + doe - EPOCH_SHIFT
    ensures EraOfDay(z) == era && DayOfEra(z) == doe
  {
    DivModUnique(z + EPOCH_SHIFT, era, doe, DAYS_PER_ERA);
  }

  /** The calendar date `z` days after 1970-01-01, a valid date (see `CivilFromDaysCount`). */
  function CivilFromDays(z: int): (d: Date)
    ensures ValidDate(d)
  {
    YearOfEraSplit(DayOfEra(z));
    DateInEraCount(EraOfDay(z), YearOfEra(DayOfEra(z)).0, YearOfEra(DayOfEra(z)).1);
    DateInEra(EraOfDay(z), YearOfEra(DayOfEra(z)).0, YearOfEra(DayOfEra(z)).1)
  }

  /** Converting the date of day `z` back to a day count gives `z`. */
  lemma CivilFromDaysCount(z: int)
    ensures DaysFromCivil(CivilFromDays(z)) == z
  {
    YearOfEraSplit(DayOfEra(z));
    DateInEraCount(EraOfDay(z), YearOfEra(DayOfEra(z)).0, YearOfEra(DayOfEra(z)).1);
  }

  /** The date of a day count built from an era, a March-based year and a day in it is the date of those parts. */
  lemma CivilFromEraParts(z: int, era: int, yoe: int, doy: int)
    requires 0 <= yoe < 400 && 0 <= doy <= 365
    requires doy == 365 ==> EndsWithLeapDay(yoe)
    requires z == era * DAYS_PER_ERA + YearStart(yoe) + doy - EPOCH_SHIFT
    ensures CivilFromDays(z) == DateInEra(era, yoe, doy)
  {
    YearStartBounds(yoe, doy);
    EraAndDayOf(z, era, YearStart(yoe) + doy);
    YearOfEraInverse(DayOfEra(z), yoe, doy);
  }

  /** Every valid date is built from its era, its March-based year and its day in that year. */
  lemma EraPartsOfDate(d: Date) returns (era: int, yoe: int, doy: int)
    requires ValidDate(d)
    ensures 0 <= yoe < 400 && 0 <= doy <= 365 && (doy == 365 ==> EndsWithLeapDay(yoe))
    ensures DaysFromCivil(d) == era * DAYS_PER_ERA + YearStart(yoe) + doy - EPOCH_SHIFT
    ensures DateInEra(era, yoe, doy) == d
  {
    var y := if d.month <= 2 then d.year - 1 else d.year;
    era := y / 400;
    yoe := y - era * 400;
    var mp := ShiftedMonth(d.month);
    doy := MonthStart(mp) + d.day - 1;
    MonthStartLength(mp, d.year);
    LeapDayOfEra(era, yoe);
    ShiftedMonthOfDayUnique(doy, mp);
    DaysFromCivilParts(d, era, yoe);
    assert CalendarMonth(mp) == d.month;
  }

  /** Every valid date is the date of its own day count. */
  lemma CivilFromDaysInverse(d: Date)
    requires ValidDate(d)
    ensures CivilFromDays(DaysFromCivil(d)) == d
  {
    CivilOfDayCount(DaysFromCivil(d), d);
  }

  /** The date of any day count equal to that of a valid date `d` is `d`. */
  lemma CivilOfDayCount(z: int, d: Date)
    requires ValidDate(d) && z == DaysFromCivil(d)
    ensures CivilFromDays(z) == d
  {
    var era, yoe, doy := EraPartsOfDate(d);
    CivilFromEraParts(z, era, yoe, doy);
  }

  /** Day counts and valid dates correspond one to one. */
  lemma DaysFromCivilInjective(d1: Date, d2: Date)
    requires ValidDate(d1) && ValidDate(d2)
    requires DaysFromCivil(d1) == DaysFromCivil(d2)
    ensures d1 == d2
  {
    CivilFromDaysInverse(d1);
    CivilFromDaysInverse(d2);
  }

  /**
   * `datetime.fromtimestamp(secs, tz=timezone.utc)` reduced to its date: the UTC date of
   * the instant `secs` seconds after the epoch, or the error for a year `datetime` cannot hold.
   */
  function UtcDateOfTimestamp(secs: int): (r: Result<Date>)
    ensures r.Ok? ==> ValidDate(r.value) && InDatetimeRange(r.value)
    ensures r.Err? ==> r.error.YearOutOfRange? && !InDatetimeRange(CivilFromDays(secs / SECONDS_PER_DAY))
  {
    var d := CivilFromDays(secs / SECONDS_PER_DAY);
    if InDatetimeRange(d) then Ok(d) else Err(YearOutOfRange(d.year))
  }

  /** The date found for `secs` is the day whose 86400 seconds contain `secs`. */
  lemma UtcDateOfTimestampDay(secs: int)
    ensures var r := UtcDateOfTimestamp(secs);
            r.Ok? ==> DaysFromCivil(r.value) * SECONDS_PER_DAY <= secs < DaysFromCivil(r.value) * SECONDS_PER_DAY + SECONDS_PER_DAY
  {
    CivilFromDaysCount(secs / SECONDS_PER_DAY);
  }

  /** At the midnight starting day `z` the date found is the date of day `z`, or the year error for it. */
  lemma UtcDateOfDay(secs: int, z: int)
    requires secs == z * SECONDS_PER_DAY
    ensures UtcDateOfTimestamp(secs)
            == if InDatetimeRange(CivilFromDays(z)) then Ok(CivilFromDays(z)) else Err(YearOutOfRange(CivilFromDays(z).year))
  {
    assert secs / SECONDS_PER_DAY == z;
  }

  // ---------------------------------------------------------------------------
  // relativedelta(months=k) added to a date.

  /**
   * The year and month parts `relativedelta(months=k)` normalises `k` into: a month
   * count whose absolute value is below 12, and whole years, both with the sign of `k`.
   */
  function NormalizeMonths(k: int): (r: (int, int))
    ensures 12 * r.0 + r.1 == k
    ensures -11 <= r.1 <= 11
    ensures k >= 0 ==> r.0 >= 0 && r.1 >= 0
    ensures k < 0 ==> r.0 <= 0 && r.1 <= 0
  {
    if k > 11 then (k / 12, k % 12)
    else if k < -11 then (-((-k) / 12), -((-k) % 12))
    else (0, k)
  }

  /** The month carry of `relativedelta.__add__`: a month step out of 1..12 moves the year. */
  function AddMonthsToYearMonth(y: int, m: int, k: int): (r: (int, int))
    requires 1 <= m <= 12
    ensures 1 <= r.1 <= 12
    ensures 12 * r.0 + r.1 == 12 * y + m + k
  {
    var n := NormalizeMonths(k);
    var year := y + n.0;
    var month := m + n.1;
    if month > 12 then (year + 1, month - 12)
    else if month < 1 then (year - 1, month + 12)
    else (year, month)
  }

  /**
   * `date + relativedelta(months=k)`: the month moves by exactly `k`, the day is kept
   * unless the target month is shorter, in which case it becomes that month's last day;
   * `datetime.replace` raises when the new year is out of range.
   */
  function AddMonths(d: Date, k: int): (r: Result<Date>)
    requires ValidDate(d)
    ensures r.Ok? ==> ValidDate(r.value) && InDatetimeRange(r.value)
    ensures r.Ok? ==> 12 * r.value.year + r.value.month == 12 * d.year + d.month + k
    ensures r.Ok? ==> r.value.day == if d.day <= DaysInMonth(r.value.year, r.value.month) then d.day
                                     else DaysInMonth(r.value.year, r.value.month)
    ensures r.Err? ==> r.error.YearOutOfRange? && !(MIN_YEAR <= r.error.year <= MAX_YEAR)
  {
    var ym := AddMonthsToYearMonth(d.year, d.month, k);
    var day := if DaysInMonth(ym.0, ym.1) < d.day then DaysInMonth(ym.0, ym.1) else d.day;
    if MIN_YEAR <= ym.0 <= MAX_YEAR then Ok(Date(ym.0, ym.1, day)) else Err(YearOutOfRange(ym.0))
  }

  /** Adding months fails exactly when the target year is out of `datetime`'s range. */
  lemma AddMonthsFailsOnlyOutOfRange(d: Date, k: int)
    requires ValidDate(d)
    ensures AddMonths(d, k).Err? <==> !(MIN_YEAR <= (12 * d.year + d.month - 1 + k) / 12 <= MAX_YEAR)
  {
    var ym := AddMonthsToYearMonth(d.year, d.month, k);
    assert 12 * ym.0 + ym.1 - 1 == 12 * d.year + d.month - 1 + k;
    assert (12 * d.year + d.month - 1 + k) / 12 == ym.0;
  }

  /**
   * Months then minus the same months is the identity when the first step needed no
   * clamping, i.e. the day exists in the target month.
   */
  lemma {:induction false} AddMonthsInverse(d: Date, k: int)
    requires ValidDate(d) && InDatetimeRange(d)
    requires AddMonths(d, k).Ok?
    requires d.day <= DaysInMonth(AddMonths(d, k).value.year, AddMonths(d, k).value.month)
    ensures AddMonths(AddMonths(d, k).value, -k) == Ok(d)
  {
    var e := AddMonths(d, k).value;
    var ym := AddMonthsToYearMonth(e.year, e.month, -k);
    assert 12 * ym.0 + ym.1 == 12 * d.year + d.month;
    assert ym.0 == d.year && ym.1 == d.month;
  }

  /** Two months from the last day of December clamp to the end of February; back two keep the 31st. */
  lemma AddMonthsFromMonthEnd()
    ensures AddMonths(Date(2022, 12, 31), 2) == Ok(Date(2023, 2, 28))
    ensures AddMonths(Date(2022, 12, 31), -2) == Ok(Date(2022, 10, 31))
  {
  }

  /** A day that exists in every month is kept, across a year boundary too. */
  lemma AddMonthsKeepDay()
    ensures AddMonths(Date(2022, 2, 28), 2) == Ok(Date(2022, 4, 28))
    ensures AddMonths(Date(2022, 2, 28), -2) == Ok(Date(2021, 12, 28))
    ensures AddMonths(Date(2022, 1, 1), 2) == Ok(Date(2022, 3, 1))
    ensures AddMonths(Date(2022, 1, 1), -2) == Ok(Date(2021, 11, 1))
  {
  }

  /** February 29 two years away becomes February 28; February 28 stays February 28 in a leap year. */
  lemma AddMonthsLeapDay()
    ensures AddMonths(Date(2024, 2, 29), 24) == Ok(Date(2026, 2, 28))
    ensures AddMonths(Date(2024, 2, 29), -24) == Ok(Date(2022, 2, 28))
    ensures AddMonths(Date(2022, 2, 28), 24) == Ok(Date(2024, 2, 28))
  {
  }
}
