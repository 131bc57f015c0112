# tsx timestamp core in Dafny

This project models the integer core of `tsx/ts.py` from the `tsx` timestamp library.
The model is pure: datatypes, functions and lemmas. Every instance in the source is an
immutable value.

- **`dTS`, the delta.** A pair of nanoseconds and calendar months. The model covers:
  - its text grammar `-?\d+(ms|ns|s|m|h|d|w|M|Y)`;
  - the unit table and `_get_deltas`;
  - the constructor's string, number and `timedelta` paths;
  - `str`/`repr` through the largest dividing unit;
  - componentwise equality;
  - application to an integer-nanosecond instant (`_add_raw`, `_add`, `_sub`). The month
    path is written out:
    - the floor split at UTC midnight;
    - a proleptic Gregorian day↔date conversion, with `datetime`'s year range 1..9999 as an error;
    - `relativedelta(months=k)`, which clamps the day to the target month.
- **The integer timestamps `iTS`, `iTSms`, `iTSus`, `iTSns`.** An integer count of
  seconds, milliseconds, microseconds or nanoseconds. The model covers:
  - the int-to-int conversion table of their constructors;
  - plain numbers given to a constructor;
  - `floor` and `ceil` with their assertion messages;
  - `now()` with the clock reading passed in;
  - the plain-decimal text path of `iTSns`;
  - the UTC `weekday`/`isoweekday` over integer seconds.

Modules:
- `Errors`: the Python exceptions and a `Result`.
- `Numerics`: Python `//`, `%`, `int()` of a quotient, and `round` (half to even).
- `DecimalText`: `str(int)` and the reading of digit strings.
- `Calendar`: the date arithmetic.
- `Delta`: `dTS`.
- `IntInstant`: the integer timestamps.

Python floats are taken at their exact real values throughout.

## Model

| member | source | states |
|---|---|---|
| Numerics.FloorDiv | tsx/ts.py:99 | `a // b` for a positive divisor is the quotient rounded down: `q*b <= a < q*b + b` |
| Numerics.FloorMod | tsx/ts.py:98 | `a % b` lies in `[0, b)` and `a` is the floor quotient times `b` plus it |
| Numerics.TruncDiv | tsx/ts.py:351 | `int(a / b)` rounds towards zero: below `a` for `a >= 0`, above it for `a < 0`, less than `b` away |
| Numerics.RoundHalfEven | tsx/ts.py:589 | `round(n / d)` is within half of `d` of `n`, exactly half only with an even result |
| Numerics.HalfEvenRoundingUnique | tsx/ts.py:589 | at most one integer is the half-even rounding of `n / d` |
| Numerics.RoundHalfEvenExact | tsx/ts.py:638-643 | dividing a multiple of `d` by `d` and rounding gives the factor back |
| Numerics.RoundHalfEvenScale | tsx/ts.py:750-752 | scaling numerator and denominator by the same positive factor leaves the half-even rounding unchanged |
| Numerics.RoundHalfEvenIs | tsx/ts.py:638-643 | a quotient strictly within half of `d` is the rounding |
| Numerics.Round | tsx/ts.py:90 | `round(n)` keeps an `int` and moves a float by at most one half, to the even integer at an exact half |
| Numerics.RoundReal | tsx/ts.py:90 | `round(x)` is the nearest integer, ties to even |
| DecimalText.NatToString | tsx/ts.py:125-129 | the decimal text of a natural number is non-empty digits, without a leading zero, that read back as the number |
| DecimalText.Pow10Add | tsx/ts.py:750-752 | `10^(a+b)` is `10^a * 10^b`; `IntInstant.NsFromTextTrailingZeros` splits a decimal's scale by it |
| DecimalText.ParseNatAppend | tsx/ts.py:750-752 | digits `a` followed by `b` read as `a` shifted by `|b|` places plus `b` |
| DecimalText.ParseNatZeros | tsx/ts.py:750-752 | a run of zeros reads as zero |
| DecimalText.IntToString | tsx/ts.py:125-129 | a negative number is written as a minus sign and the digits of its magnitude |
| DecimalText.LastIsDigit | tsx/ts.py:129 | the text of an integer ends in a digit |
| DecimalText.DigitRun | tsx/ts.py:46 | `\d+` takes the longest all-digit prefix: the character after it is no digit |
| DecimalText.DigitRunOfPrefix | tsx/ts.py:46 | before a unit that does not start with a digit, the digit run is exactly the digits |
| Calendar.CivilFromDays | tsx/ts.py:100 | every day count has a valid proleptic Gregorian date |
| Calendar.DaysFromCivil | tsx/ts.py:103 | the day count `timestamp()` divides into: 1970-01-01 is day 0; `Calendar.DaysFromCivilNext` makes consecutive dates consecutive days, and `Calendar.CivilFromDaysCount` and `Calendar.CivilFromDaysInverse` make it the inverse of `Calendar.CivilFromDays` |
| Calendar.DaysFromCivilNextDay | tsx/ts.py:103 | within a month, the next day is counted one day later |
| Calendar.NextDate | tsx/ts.py:102 | the day after a valid date is a valid date: the next day, the first of the next month, or January 1 of the next year |
| Calendar.DaysFromCivilNext | tsx/ts.py:103 | every date's successor counts one day more, across month and year ends; with 1970-01-01 as day 0 this fixes every count |
| Calendar.DaysFromCivilMonthEnd | tsx/ts.py:103 | the first of the month after a month other than February counts one day after that month's last day |
| Calendar.DaysFromCivilMarchFirst | tsx/ts.py:103 | March 1 counts one day after February's last day, in leap and common years |
| Calendar.YearStartStep | tsx/ts.py:103 | a March-based year is 366 days when it ends with February 29 and 365 otherwise |
| Calendar.DaysFromCivilExamples | tests/test_ts.py:687-693 | 2022-12-31, 2023-02-28 and 2022-10-31 are days 19357, 19416 and 19296; 0001-01-01 and 9999-12-31 are days −719162 and 2932896 |
| Calendar.CivilFromDaysCount | tsx/ts.py:100 | the date found for day `z` counts back to `z` |
| Calendar.CivilFromDaysInverse | tsx/ts.py:100-103 | converting a valid date to days and back gives the date |
| Calendar.DaysFromCivilInjective | tsx/ts.py:103 | distinct valid dates have distinct day counts |
| Calendar.UtcDateOfTimestamp | tsx/ts.py:100 | the UTC date of an instant is valid and in years 1..9999, or the year is out of range |
| Calendar.UtcDateOfTimestampDay | tsx/ts.py:100 | the date found is the day whose 86400 seconds contain the instant |
| Calendar.NormalizeMonths | tsx/ts.py:101 | `relativedelta(months=k)` splits `k` into years and under twelve months with the sign of `k` |
| Calendar.AddMonthsToYearMonth | tsx/ts.py:102 | the month carry yields a month in 1..12 and moves the month count by exactly `k` |
| Calendar.AddMonths | tsx/ts.py:101-102 | `date + relativedelta(months=k)` moves the month by `k`, keeps the day or clamps it to the month end, and fails only for a year outside 1..9999 |
| Calendar.AddMonthsFailsOnlyOutOfRange | tsx/ts.py:102 | adding months fails exactly when the target year is outside 1..9999 |
| Calendar.AddMonthsInverse | tsx/ts.py:101-102 | subtracting the months undoes adding them when no clamping happened |
| Calendar.AddMonthsFromMonthEnd | tests/test_ts.py:687-693 | 2022-12-31 plus 2 months is 2023-02-28; minus 2 months is 2022-10-31 |
| Calendar.AddMonthsKeepDay | tests/test_ts.py:695-707 | the 28th and the 1st are kept across month and year boundaries |
| Calendar.AddMonthsLeapDay | tests/test_ts.py:709-722 | 2024-02-29 ± 2 years clamps to February 28 |
| Delta.PatternUnitsListed | tsx/ts.py:46 | the unit test letter by letter accepts exactly the grammar's alternatives |
| Delta.NsByUnitPositive | tsx/ts.py:47-56 | every unit in the table lasts a positive number of nanoseconds |
| Delta.IndexOfKey | tsx/ts.py:71 | a dictionary lookup finds the first entry with the key, or reports that none has it |
| Delta.IndexOfUnitKey | tsx/ts.py:47-56 | the table's keys are distinct, so each key finds its own entry |
| Delta.FirstDividing | tsx/ts.py:127-129 | the scan returns the first unit that divides the value, and no earlier unit divides it |
| Delta.FirstDividingAt | tsx/ts.py:127-129 | the scan stops at unit `i` when it divides and no larger unit does |
| Delta.GetDeltas | tsx/ts.py:59-72 | `M` gives `(0, n)`, `Y` gives `(0, 12n)`, a table unit gives its nanoseconds; any other unit is a `KeyError`; at most one component is non-zero |
| Delta.GetDeltasOfUnit | tsx/ts.py:71-72 | a table unit decodes to the count times its length |
| Delta.PatternUnitDecodes | tsx/ts.py:46-72 | every unit of the grammar decodes without a `KeyError` |
| Delta.DecodeSeconds | tsx/ts.py:52 | `n` seconds are `n * 10^9` ns |
| Delta.DecodeMinutes | tsx/ts.py:51 | `n` minutes are `n * 60 * 10^9` ns |
| Delta.DecodeHours | tsx/ts.py:50 | `n` hours are `n * 3600 * 10^9` ns |
| Delta.DecodeMillis | tsx/ts.py:53 | `n` milliseconds are `n * 10^6` ns |
| Delta.DecodeNanos | tsx/ts.py:55 | `n` nanoseconds are `n` ns |
| Delta.PatternUnitShape | tsx/ts.py:46 | a unit of the grammar has one or two letters and no digit, sign or line feed |
| Delta.StripLineEnd | tsx/ts.py:46 | `$` may stand before one final line feed: it is split off exactly when present |
| Delta.StripSign | tsx/ts.py:46 | the optional `-` is split off exactly when present |
| Delta.SplitCount | tsx/ts.py:46 | after the sign, a non-empty digit run followed by exactly one unit it matches |
| Delta.SplitCountOf | tsx/ts.py:46 | digits followed by a unit split back into those digits and that unit |
| Delta.Tokenize | tsx/ts.py:46 | every match is a well-formed token whose text is the string |
| Delta.TokenizeRender | tsx/ts.py:79-83 | every well-formed token's text is matched and yields exactly that token |
| Delta.Parse | tsx/ts.py:79-85 | a string is accepted exactly when it matches, is decoded from its groups, and otherwise fails with `ValueError("Invalid delta string: " + s)` |
| Delta.ParseOfToken | tsx/ts.py:79-85 | the text of a well-formed token is always accepted with the token's value and unit |
| Delta.ParseText | tsx/ts.py:83-85 | a string that is a token's text decodes the token's count in its unit |
| Delta.TokenizeShape | tsx/ts.py:46 | every match starts with a digit or `-` and a digit and ends in a unit |
| Delta.ParseRefusesShape | tsx/ts.py:80-82 | a string without that shape is refused with the `ValueError` naming it |
| Delta.ParseRejectsBareCount | tests/test_ts.py:759-760 | `"1"` is refused |
| Delta.ParseRejectsSpace | tests/test_ts.py:761-762 | `"1 s"` is refused |
| Delta.ParseRejectsPlus | tests/test_ts.py:763-764 | `"+1s"` is refused |
| Delta.ParseRejectsUnknownUnit | tests/test_ts.py:765-766 | `"1ps"` is refused |
| Delta.ParseRejectsMicros | tsx/ts.py:46 | `"5us"` is refused, since the grammar has no `us` |
| Delta.ParseAcceptsMinutes | tests/test_ts.py:752 | `"5m"` is five minutes in nanoseconds |
| Delta.ParseAcceptsNegative | tsx/ts.py:79-85 | `"-2h"` is minus two hours |
| Delta.ParseAcceptsMonths | tsx/ts.py:67-68 | `"13M"` is thirteen months |
| Delta.ParseAcceptsYears | tsx/ts.py:69-70 | `"2Y"` is 24 months |
| Delta.ParseAcceptsYearOfMonths | tests/test_ts.py:754 | `"24M"` is 24 months |
| Delta.ParseAcceptsLineEnd | tsx/ts.py:79-85 | `"5s\n"` is accepted, because `$` matches before a final line feed |
| Delta.Create | tsx/ts.py:74-91 | a string is parsed with `unit` ignored; a number is rounded and counted in `unit`, seconds when `unit` is missing or empty; a `timedelta` raises `NotImplementedError("timedelta is not supported yet")`; every delta built has at most one non-zero component |
| Delta.CreateRoundsSeconds | tests/test_ts.py:675-685 | `dTS(10.1)` is 10 s, `dTS(10.9)` 11 s, `dTS(2.5)` 2 s, `dTS(60000, "ms")` a minute, `dTS(13, "M")` 13 months |
| Delta.CreateMillisExample | tsx/ts.py:88-91 | `dTS(300001, "ms")` is 300001 ms in nanoseconds |
| Delta.CreateNanosExample | tests/test_ts.py:751 | `dTS(5*60*10^9, unit="ns")` is that many nanoseconds |
| Delta.StrFixed | tsx/ts.py:127-130 | a fixed delta is written as a count of the first table unit dividing it, the count times the unit is the delta, and a unit is always found (the `RuntimeError` is unreachable) |
| Delta.Str | tsx/ts.py:121-130 | the text has a count and a unit, and ends in `Y` or `M` exactly when the delta holds months; its value is pinned by `Delta.StrMonths` and `Delta.StrFixed` |
| Delta.StrMonths | tsx/ts.py:122-126 | a month delta is written in years when it is a whole number of years, else in months |
| Delta.StrOfCount | tsx/ts.py:127-129 | a delta of `v` copies of unit `i` that no larger unit divides is written as `v` and that unit |
| Delta.StrMinutesExample | tests/test_ts.py:732-733 | 300000 ms is written `"5m"` |
| Delta.StrNegativeExample | tests/test_ts.py:736-737 | −7200000 ms is written `"-2h"` |
| Delta.StrDaysExample | tests/test_ts.py:738-739 | two days are written `"2d"` |
| Delta.StrZeroExample | tsx/ts.py:127-129 | the zero delta is written `"0w"`, the first unit of the table |
| Delta.StrMonthExamples | tests/test_ts.py:743-748 | 24 months are written `"2Y"`, 13 months `"13M"` |
| Delta.ReprExample | tests/test_ts.py:729-731 | the `repr` of a minute is `dTS("1m")` |
| Delta.CountToken | tsx/ts.py:129 | the text of a count in a unit is a token of digits whose value is the count |
| Delta.ParseCount | tsx/ts.py:79-85 | a count written in decimal before a grammar unit reads back as that count in that unit |
| Delta.ParseRefusesUs | tsx/ts.py:46 | no string ending in `us` is accepted |
| Delta.DivisibleByUnitMultiple | tsx/ts.py:47-53 | every unit before `ms` is a whole number of milliseconds |
| Delta.FixedUnitIsMicros | tsx/ts.py:127-129 | a fixed delta is written in `us` exactly when it is whole microseconds but not whole milliseconds |
| Delta.ParseStr | tsx/ts.py:121-129 | `dTS(str(d)) == d` exactly when `str(d)` does not end in `us`, which happens exactly for whole microseconds that are not whole milliseconds |
| Delta.ParseStrMonths | tsx/ts.py:122-126 | a month delta's text reads back as itself |
| Delta.ParseMonthCount | tsx/ts.py:67-70 | a count of months or years in text reads back as that many months |
| Delta.ParseStrFixed | tsx/ts.py:127-129 | a fixed delta's text reads back as itself unless it is written in `us` |
| Delta.ParseFixedCount | tsx/ts.py:79-85 | a count in a table unit other than `us` reads back as that many units |
| Delta.ListedUnit | tsx/ts.py:46-56 | every table unit except `us` is a unit of the grammar |
| Delta.Equals | tsx/ts.py:135-138 | two deltas are equal exactly when both components agree, and never equal to another type |
| Delta.EqualsYearsMonths | tests/test_ts.py:754 | `dTS("2Y") == dTS("24M")` |
| Delta.EqualsAcrossUnits | tests/test_ts.py:751-752 | `dTS(5*60*10^9, unit="ns") == dTS("5m")` |
| Delta.NotEqualsExample | tests/test_ts.py:756 | five minutes differ from 300001 ms, and a delta never equals a non-delta |
| Delta.TimeOfDayNs | tsx/ts.py:98 | the time of day is in `[0, DAY_NSEC)` and recombines with the day to the instant |
| Delta.DayAndTimeOfNs | tsx/ts.py:98-99 | time `t` on day `z` has day `z` and time of day `t` |
| Delta.MidnightOfNs | tsx/ts.py:98-99 | `(ts - ts % DAY_NSEC) // 10^9` is the midnight of the instant's UTC day in seconds |
| Delta.ShiftMidnight | tsx/ts.py:100-103 | the moved date's timestamp is a whole number of days, and a failure is `datetime`'s year error; `Delta.ShiftMidnightOfDay` states which date it moves |
| Delta.ShiftMidnightOfDay | tsx/ts.py:100-103 | at the midnight of day `z`, the date step moves the date of day `z` or fails with its year error |
| Delta.AddRaw | tsx/ts.py:94-105 | without months, `_add_raw` is `ts + delta_ns` |
| Delta.AddRawMonthsStep | tsx/ts.py:97-104 | with months, the result is the moved date's midnight plus the time of day plus `delta_ns`, or the year error of the first date out of range |
| Delta.AddRawMonths | tsx/ts.py:97-104 | a month step keeps the time of day and moves the UTC date as adding months to it does; it fails exactly when a date is out of range |
| Delta.AddRawShift | tsx/ts.py:103 | with months, `delta_ns` is added on top of the month step |
| Delta.AddRawOfEqual | tsx/ts.py:94 | `_add_raw` depends only on its arguments' values |
| Delta.Add | tsx/ts.py:107-112 | a fixed delta added to `ts` gives `ts + delta_ns` |
| Delta.Sub | tsx/ts.py:114-119 | a fixed delta subtracted from `ts` gives `ts - delta_ns` |
| Delta.SubIsAddNegated | tsx/ts.py:114-119 | `_sub` is `_add` of the negated delta |
| Delta.SubAddFixed | tsx/ts.py:105-119 | for a fixed delta, subtracting undoes adding and adding undoes subtracting |
| Delta.SubAddMonths | tsx/ts.py:97-119 | for a month delta, subtracting undoes adding when the forward step needed no clamping |
| Delta.AddMonthsDelta | tsx/ts.py:97-112 | adding a month delta moves the UTC date by its months and keeps the time of day |
| Delta.SubMonthsDelta | tsx/ts.py:97-119 | subtracting the months from the moved instant gives back the original one |
| Delta.InstantOfDayAndTime | tsx/ts.py:98-103 | two instants with the same UTC date and time of day are equal |
| Delta.AddMonthsInstantExample | tests/test_ts.py:687-691 | 2022-12-31 00:00:00.123456 plus `2M` is 2023-02-28 at the same time: `1672444800123456000` ns moves to `1677542400123456000` ns |
| Delta.SubMonthsInstantExample | tests/test_ts.py:687-693 | 2022-12-31 00:00:00.123456 minus `2M` is 2022-10-31 at the same time: `1672444800123456000` ns moves to `1667174400123456000` ns |
| IntInstant.UnitsInSec | tsx/ts.py:626-725 | each class's `UNITS_IN_SEC` is positive |
| IntInstant.NsPerUnit | tsx/ts.py:588 | `10^9 // UNITS_IN_SEC` times `UNITS_IN_SEC` is exactly `10^9` |
| IntInstant.Scale | tsx/ts.py:694-702 | the factor between two classes times the finer unit is the coarser unit |
| IntInstant.ConvertIntended | tsx/ts.py:635-736 | the evidently intended conversion always yields the target class |
| IntInstant.Convert | tsx/ts.py:635-736 | the conversion table as written: the same class returns the argument, and the result is in the target class except that `iTSms` and `iTSns` of an `iTS` give an `iTSus` |
| IntInstant.ConvertWidensExactly | tsx/ts.py:694-736 | converting to a finer class keeps the instant exactly |
| IntInstant.ConvertNarrowsHalfEven | tsx/ts.py:635-643 | converting to a coarser class rounds the count half to even, at most half a target unit from the instant |
| IntInstant.HalfUnitBound | tsx/ts.py:638-643 | a rounding error of half a count scales to half a unit |
| IntInstant.ConvertRoundTrip | tsx/ts.py:635-736 | converting to a finer class and back gives the timestamp back |
| IntInstant.ConvertAsWrittenAgrees | tsx/ts.py:635-736 | the conversion table as written is the intended one except exactly for `iTSms(iTS)` and `iTSns(iTS)` |
| IntInstant.ConvertSame | tsx/ts.py:635-736 | a timestamp converted to its own class is returned unchanged |
| IntInstant.ConvertMilliOfSecQuirk | tsx/ts.py:666-667 | `iTSms(iTS(1))` is `iTSus(1000)`, one millisecond instead of one second |
| IntInstant.ConvertNanoOfSecQuirk | tsx/ts.py:729-730 | `iTSns(iTS(1))` is `iTSus(10^9)`, a thousand seconds instead of one |
| IntInstant.ConvertNanoToMicroExample | tests/test_ts.py:923-926 | ns `1519855200123456789` becomes us `1519855200123457` |
| IntInstant.ConvertMilliToSecExample | tests/test_ts.py:517-521 | ms `1519855200600` becomes s `1519855201` |
| IntInstant.ConvertToMilliExamples | tests/test_ts.py:792-800 | us `1519855200123456` and ns `1519855200123456789` become ms `1519855200123` |
| IntInstant.ConvertWideningExamples | tests/test_ts.py:908-916 | s `1519855200` and ms `1519855200123` become us `1519855200000000` and `1519855200123000` |
| IntInstant.FromNumber | tsx/ts.py:706-709 | a plain `int` is kept and a float is rounded to the nearest count, to the even count at an exact half, in the class's unit (the same outcome as the float paths at lines 647-649, 677-679 and 740-743 with exact reals) |
| IntInstant.FromNumberExample | tests/test_ts.py:511-515 | `iTS(1519855200.567)` is `1519855201` |
| IntInstant.Floor | tsx/ts.py:605-613 | `floor(u)` is the multiple of `u` at or just below `x` in `x`'s class; a zero, negative or non-integral `u` fails the assertion with its message |
| IntInstant.MultipleBelow | tsx/ts.py:612 | `(x // u) * u` is a multiple of `u` less than `u` below `x` |
| IntInstant.Ceil | tsx/ts.py:615-623 | `ceil(u)` is the multiple of `u` at or just above `x` in `x`'s class; an invalid `u` fails the assertion with its message |
| IntInstant.MultipleAbove | tsx/ts.py:621 | `-(-x // u) * u` is a multiple of `u` less than `u` above `x` |
| IntInstant.MultipleInWindow | tsx/ts.py:605-623 | a window of `u` consecutive integers holds one multiple of `u` |
| IntInstant.FloorIs | tsx/ts.py:605-613 | the floor is the multiple of `u` in `(x - u, x]` |
| IntInstant.CeilIs | tsx/ts.py:615-623 | the ceiling is the multiple of `u` in `[x, x + u)` |
| IntInstant.FloorCeilMeet | tsx/ts.py:605-623 | floor and ceiling agree exactly on multiples of the unit |
| IntInstant.FloorCeilByOne | tests/test_ts.py:606-616 | `floor(1)` and `ceil(1)` return the timestamp |
| IntInstant.FloorIdempotent | tsx/ts.py:605-613 | flooring a floored timestamp changes nothing |
| IntInstant.FloorCeilExamples | tests/test_ts.py:606-616 | `1670371213` floors to `1670371212`/`1670371200` and ceils to `1670371214`/`1670371260` for units 2 and 60 |
| IntInstant.FloorRefusesZero | tsx/ts.py:611-620 | a zero or non-integral unit fails with the message ending in the unit's text |
| IntInstant.Now | tsx/ts.py:586-590 | `now()` is the clock reading in nanoseconds rounded half to even to the class's unit; `iTSns.now()` (lines 760-763) keeps it |
| IntInstant.NowIsConversion | tsx/ts.py:586-590 | `cls.now()` is the reading as an `iTSns` converted to `cls` |
| IntInstant.ScanNumeric | tsx/ts.py:744-754 | a recognised decimal text is well formed and its text is the string |
| IntInstant.ScanUnsigned | tsx/ts.py:744-754 | after the sign, digits and optionally a point and more digits |
| IntInstant.ScanUnsignedOf | tsx/ts.py:744-754 | the text of well-formed whole and fraction digits scans back into them |
| IntInstant.ScanRenderNumeric | tsx/ts.py:744-754 | every well-formed decimal text is recognised with exactly its parts |
| IntInstant.ScaledValueOf | tsx/ts.py:750-752 | a decimal with `k` fraction digits has the value `±(whole · 10^k + fraction) / 10^k`, the scaled value that `IntInstant.NsFromText` rounds |
| IntInstant.NsFromTextTrailingZeros | tsx/ts.py:750-752 | zeros after the last fraction digit do not change the nanoseconds read, as `Decimal` compares by value |
| IntInstant.NsFromText | tsx/ts.py:744-754 | a plain decimal text `-?digits[.digits]` becomes its value in nanoseconds, rounded half to even when it has a fraction; `None` is text outside that form, either the other `int`/`Decimal` forms that are not modelled or date text |
| IntInstant.NsFromIntegerText | tsx/ts.py:744-746 | the text of an integer is read back as that many nanoseconds |
| IntInstant.NsFromFractionText | tsx/ts.py:749-752 | decimal text with a fraction is read as its value rounded half to even |
| IntInstant.NsFromTextHalfDown | tsx/ts.py:749-752 | `"2.5"` is 2 ns |
| IntInstant.NsFromTextHalfUp | tsx/ts.py:749-752 | `"3.5"` is 4 ns |
| IntInstant.NsFromTextNegativeHalf | tsx/ts.py:749-752 | `"-2.5"` is −2 ns |
| IntInstant.NsFromTextAboveHalf | tsx/ts.py:749-752 | `"2.6"` is 3 ns |
| IntInstant.NsFromTextExponentLeftOut | tsx/ts.py:744-756 | `"1e5"` lies outside the modelled plain decimal text, although the source reads it through `Decimal` as 100000 ns |
| IntInstant.WeekdayAsWritten | tsx/ts.py:346-351 | the UTC weekday as written lies in 0..6 |
| IntInstant.Weekday | tsx/ts.py:346-351 | the weekday of the UTC day holding the second lies in 0..6 |
| IntInstant.IsoWeekday | tsx/ts.py:356-360 | the ISO weekday lies in 1..7, and is 1 exactly on Mondays |
| IntInstant.WeekdayOfDay | tsx/ts.py:346-351 | every second of day `z` since the epoch has weekday `(z + 3) % 7`, with `FIRST_MONDAY_TS` (line 31) the midnight of day 4: 1970-01-01 was a Thursday |
| IntInstant.WeekdaySuccessor | tsx/ts.py:346-351 | the next day is the next weekday, a week later the same weekday |
| IntInstant.NextMod | tsx/ts.py:351 | the remainder of a successor is the successor of the remainder, wrapping at `m` |
| IntInstant.WeekdayAsWrittenAgrees | tsx/ts.py:351 | truncation gives the true weekday exactly from 1970-01-05 on, or at a midnight; elsewhere before it, one day late |
| IntInstant.WindowQuotient | tsx/ts.py:351 | a value lies in the window of one quotient only |
| IntInstant.WeekdayAsWrittenEpochExample | tsx/ts.py:351 | one second after the epoch is reported as Friday, though it is Thursday |
| IntInstant.WeekdayExample | tests/test_ts.py:322-334 | 2022-12-07T00:00:01Z has weekday 2 and ISO weekday 3 |
| IntInstant.WeekdayExampleDate | tests/test_ts.py:323 | 2022-12-07 is day 19333 after the epoch |

## Left out

- ISO-8601 and general date parsing (`timestamp_from_iso`, `from_iso`, the `dateutil` fallback) are foreign calls into `ciso8601`, `datetime` and `dateutil`. A string that is not plain decimal text is `None` in `IntInstant.NsFromText`.
- ISO and date formatting (`isoformat`, `iso_*`, `as_iso*`, `as_dt`, `as_local_dt`) go through `datetime`, `strftime` and `pytz`.
- The float timestamp `TS`/`TSMsec`: its constructor, `floor`/`ceil`, `as_*` conversions and `TS ± dTS`. All of this is IEEE-754 arithmetic.
- `Numerics.Round`, `Delta.Create`, `IntInstant.FromNumber`: a float is an exact real, so NaN and ±infinity cannot be given; Python's `round` raises `ValueError` for NaN and `OverflowError` for an infinity, and these error paths of `dTS(x)` (tsx/ts.py:90) and of the integer constructors' float paths are not modelled.
- Floating point in the integer classes: `round(ts / 1000)` and `float(ts)` are taken exactly. The rounding of huge counts through a double is not modelled.
- The arithmetic operators of the integer classes (`__add__`, `__sub__`, `__rsub__`, `__radd__`). They re-enter the constructors: `iTS`/`iTSms` through floats, `iTSus`/`iTSns` exactly through the `Integral` branch (tsx/ts.py:706-707, 740-741); `iBaseTS + dTS` passes `int`'s `NotImplemented` to the constructor (tsx/ts.py:371-372) and raises.
- `dTS.__radd__` (tsx/ts.py:140-141) calls `self.__add__`, which `dTS` does not define, so it raises `AttributeError`; it is not modelled.
- The clock (`time_ns`, `datetime.now`) is the parameter `tns` of `IntInstant.Now`. The local time zone (`weekday(utc=False)`) is not modelled.
- `BaseTS.weekday` inherited by `iTSms`/`iTSus`/`iTSns`, which subtracts seconds from a count of another unit: the weekday is modelled over integer seconds only. The float `TS.weekday` is the same formula over floats.
- The pydantic validator glue and the deprecated `as_ms`/`as_sec` properties.
- `IntInstant.FromNumber`: a `Decimal` is not a `numbers.Real`. `iTSns(Decimal(...))` skips the rounding branch and is truncated by `int()` (tsx/ts.py:745), and the other classes read it through `float()`. Only `int`, float and `Fraction` arguments are modelled.
- `IntInstant.NsFromText`: text that `int()` or `Decimal()` accept outside the plain form `-?digits[.digits]` (`"1e5"` is 100000 ns, `".5"` is 0, `"5."` is 5, and `"+5"`, `" 5"`, `"1_000"` are read by `int()`) is `None` here, not its value; see `IntInstant.NsFromTextExponentLeftOut`.
- `Decimal` text beyond plain `-?digits[.digits]` (exponents, `NaN`, `Infinity`, whitespace, underscores, a leading `+`), and `int()` of such text.
- `\d` matches every Unicode decimal digit; only ASCII digits are modelled.
- `_add_raw`'s `int(ts_ns)` of a non-`int` instant: instants are integers here.
- A constructor argument of a type other than string, number and `timedelta`; `bool` as an integral argument.
- `Delta.Repr`: the `repr` is stated by an example only, as its contract would repeat its body.
- `IntInstant.FromNumber`: the float path through `_parse_to_float` divides by `UNITS_IN_SEC` and multiplies back; with exact reals this is the identity, so only the rounding is stated.
- `IntInstant.IsoWeekday`: built on the corrected `IntInstant.Weekday`; as written it is `IntInstant.WeekdayAsWritten` plus one and is one day late wherever that is.
- `IntInstant.Floor`: the text of a non-integral unit in the assertion message is taken as given, not derived from Python's float formatting.

## Findings

| source | as written | input that shows it | evidently intended | confidence | as-written member | corrected member |
|---|---|---|---|---|---|---|
| tsx/ts.py:351 | `int((s - FIRST_MONDAY_TS) / 86400) % 7` truncates the day quotient towards zero | `s = 1` (1970-01-01T00:00:01Z, a Thursday) gives 4, Friday | the floor of the quotient, giving 3 | not executed | IntInstant.WeekdayAsWrittenEpochExample | IntInstant.WeekdayOfDay |
| tsx/ts.py:666-667 | `iTSms(iTS x)` returns `iTSus(x * 1000)` and, at lines 729-730, `iTSns(iTS x)` returns `iTSus(x * 10^9)` | `iTSms(iTS(1))` is `iTSus(1000)`, one millisecond after the epoch instead of one second; tests/test_ts.py:782-785 compares only the integer value | `iTSms(x * 1000)` and `iTSns(x * 10^9)` | not executed | IntInstant.ConvertMilliOfSecQuirk | IntInstant.ConvertWidensExactly |
