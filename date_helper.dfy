/**
 * The UTC calendar helper of includes/class-date.php.
 *
 * A timestamp is a count of seconds since 1970-01-01T00:00:00Z. `EpochSeconds` composes one from a
 * calendar date with the formula of section 4.16 of POSIX.1-2017 Base Definitions ("Seconds Since
 * the Epoch"), read with floor division so that it also covers years before 1970. `Civil`
 * decomposes a timestamp the other way, independently, by walking 400-year eras, years and
 * months of the proleptic Gregorian calendar, as `gmdate` does. The two are proved inverse.
 */
module DateHelper {
  import opened Wrappers
  import opened PhpStrings

  const SecondsPerDay: int := 86400

  datatype CivilDate = CivilDate(year: int, month: int, day: int)

  predicate IsLeapYear(y: int) {
    y % 4 == 0 && (y % 100 != 0 || y % 400 == 0)
  }

  function DaysInYear(y: int): int {
    if IsLeapYear(y) then 366 else 365
  }

  function DaysInMonth(y: int, m: int): int
    requires 1 <= m <= 12
  {
    if m == 2 then (if IsLeapYear(y) then 29 else 28)
    else if m == 4 || m == 6 || m == 9 || m == 11 then 30
    else 31
  }

  predicate IsValid(c: CivilDate) {
    1 <= c.month <= 12 && 1 <= c.day <= DaysInMonth(c.year, c.month)
  }

  /** Days of year `y` before the first of month `m` (POSIX `tm_yday` of that day); m = 13 gives the whole year. */
  function DaysBeforeMonth(y: int, m: int): int
    requires 1 <= m <= 13
  {
    [0, 31, 59, 90, 120, 151, 181, 212, 243, 273, 304, 334, 365][m - 1]
      + (if m > 2 && IsLeapYear(y) then 1 else 0)
  }

  /**
   * Seconds since the Epoch of midnight UTC at the start of date `c`: the POSIX formula with
   * tm_sec = tm_min = tm_hour = 0, tm_year = year - 1900 and tm_yday the day of the year.
   */
  function EpochSeconds(c: CivilDate): int
    requires 1 <= c.month <= 12
  {
    var tmYear := c.year - 1900;
    var tmYday := DaysBeforeMonth(c.year, c.month) + c.day - 1;
    tmYday * 86400 + (tmYear - 70) * 31536000 + ((tmYear - 69) / 4) * 86400
      - ((tmYear - 1) / 100) * 86400 + ((tmYear + 299) / 400) * 86400
  }

  /** Days from 1970-01-01 to January 1 of year `y`: the year terms of the POSIX formula, in days. */
  function YearStartDay(y: int): int {
    (y - 1970) * 365 + (y - 1969) / 4 - (y - 1901) / 100 + (y - 1601) / 400
  }

  /** Days from 1970-01-01 to date `c`. */
  function EpochDay(c: CivilDate): int
    requires 1 <= c.month <= 12
  {
    YearStartDay(c.year) + DaysBeforeMonth(c.year, c.month) + c.day - 1
  }

  lemma EpochSecondsInDays(c: CivilDate)
    requires 1 <= c.month <= 12
    ensures EpochSeconds(c) == EpochDay(c) * SecondsPerDay
    ensures EpochSeconds(c) % SecondsPerDay == 0
  {
    DayMultiple(EpochDay(c));
  }

  lemma DayMultiple(k: int)
    ensures (k * SecondsPerDay) % SecondsPerDay == 0
  {
  }

  /** Each floor-division term of the POSIX formula steps up by one exactly in the years it counts. */
  lemma LeapTerm4(y: int)
    ensures (y - 1968) / 4 - (y - 1969) / 4 == if y % 4 == 0 then 1 else 0
  {
    var q := (y - 1969) / 4;
    var r := (y - 1969) % 4;
    assert y - 1969 == 4 * q + r && 0 <= r < 4;
    assert y == 4 * (q + 492) + r + 1;
    if r == 3 {
      assert y == 4 * (q + 493);
    } else {
      assert (y - 1968) / 4 == q;
      assert y % 4 == r + 1;
    }
  }

  lemma LeapTerm100(y: int)
    ensures (y - 1900) / 100 - (y - 1901) / 100 == if y % 100 == 0 then 1 else 0
  {
    var q := (y - 1901) / 100;
    var r := (y - 1901) % 100;
    assert y - 1901 == 100 * q + r && 0 <= r < 100;
    if r == 99 {
      assert y == 100 * (q + 20);
    } else {
      assert (y - 1900) / 100 == q;
      assert y == 100 * (q + 19) + r + 1;
      assert y % 100 == r + 1;
    }
  }

  lemma LeapTerm400(y: int)
    ensures (y - 1600) / 400 - (y - 1601) / 400 == if y % 400 == 0 then 1 else 0
  {
    var q := (y - 1601) / 400;
    var r := (y - 1601) % 400;
    assert y - 1601 == 400 * q + r && 0 <= r < 400;
    if r == 399 {
      assert y == 400 * (q + 5);
    } else {
      assert (y - 1600) / 400 == q;
      assert y == 400 * (q + 4) + r + 1;
      assert y % 400 == r + 1;
    }
  }

  /** Consecutive year starts are one year length apart. */
  lemma YearStartStep(y: int)
    ensures YearStartDay(y + 1) == YearStartDay(y) + DaysInYear(y)
  {
    LeapTerm4(y);
    LeapTerm100(y);
    LeapTerm400(y);
    DivisorChain(y);
    var d4 := (y - 1968) / 4 - (y - 1969) / 4;
    var d100 := (y - 1900) / 100 - (y - 1901) / 100;
    var d400 := (y - 1600) / 400 - (y - 1601) / 400;
    assert YearStartDay(y + 1) - YearStartDay(y) == 365 + d4 - d100 + d400;
  }

  /** A multiple of 400 is a multiple of 100, and a multiple of 100 a multiple of 4. */
  lemma DivisorChain(y: int)
    ensures y % 400 == 0 ==> y % 100 == 0
    ensures y % 100 == 0 ==> y % 4 == 0
  {
    if y % 400 == 0 {
      DivMod100(y, 4 * (y / 400), 0);
    }
    if y % 100 == 0 {
      DivMod4(y, 25 * (y / 100), 0);
    }
  }

  /** Quotient and remainder are determined by any decomposition a == n * q + r with 0 <= r < n. */
  lemma DivMod4(a: int, q: int, r: int)
    requires a == 4 * q + r && 0 <= r < 4
    ensures a / 4 == q && a % 4 == r
  {
  }

  lemma DivMod100(a: int, q: int, r: int)
    requires a == 100 * q + r && 0 <= r < 100
    ensures a / 100 == q && a % 100 == r
  {
  }

  lemma DivMod400(a: int, q: int, r: int)
    requires a == 400 * q + r && 0 <= r < 400
    ensures a / 400 == q && a % 400 == r
  {
  }

  /** The calendar repeats every 400 years, which hold 146097 days. */
  lemma EraShift(era: int, k: int)
    ensures IsLeapYear(400 * era + k) == IsLeapYear(k)
    ensures YearStartDay(400 * era + k) == 146097 * era + YearStartDay(k)
  {
    var y := 400 * era + k;
    DivMod4(y, 100 * era + k / 4, k % 4);
    DivMod100(y, 4 * era + k / 100, k % 100);
    DivMod400(y, era + k / 400, k % 400);
    DivMod4(y - 1969, 100 * era + (k - 1969) / 4, (k - 1969) % 4);
    DivMod100(y - 1901, 4 * era + (k - 1901) / 100, (k - 1901) % 100);
    DivMod400(y - 1601, era + (k - 1601) / 400, (k - 1601) % 400);
  }

  /** Walks whole years forward from year `y` while `rem` days remain beyond the current year. */
  function YearWalk(rem: nat, y: int): (r: (int, nat))
    ensures YearStartDay(r.0) + r.1 == YearStartDay(y) + rem
    ensures r.1 < DaysInYear(r.0)
    decreases rem
  {
    if rem < DaysInYear(y) then (y, rem)
    else
      YearStartStep(y);
      YearWalk(rem - DaysInYear(y), y + 1)
  }

  /** Walks whole months forward from month `m` of year `y` while `rem` days remain beyond it. */
  function MonthWalk(rem: nat, y: int, m: int): (r: (int, int))
    requires 1 <= m <= 12
    requires DaysBeforeMonth(y, m) + rem < DaysInYear(y)
    ensures 1 <= r.0 <= 12 && 1 <= r.1 <= DaysInMonth(y, r.0)
    ensures DaysBeforeMonth(y, r.0) + r.1 - 1 == DaysBeforeMonth(y, m) + rem
    decreases 12 - m
  {
    if rem < DaysInMonth(y, m) then (m, rem + 1)
    else MonthWalk(rem - DaysInMonth(y, m), y, m + 1)
  }

  /** The calendar date of day number `n` counted from 1970-01-01 (negative before it). */
  function CivilFromDay(n: int): (c: CivilDate)
    ensures IsValid(c)
  {
    var z := n + 719528;  // days since 0000-01-01
    var era := z / 146097;
    var yw := YearWalk(z % 146097, 0);
    var y := 400 * era + yw.0;
    EraShift(era, yw.0);
    var mw := MonthWalk(yw.1, y, 1);
    CivilDate(y, mw.0, mw.1)
  }

  /** The date found by the walk is day `n`. */
  lemma CivilFromDayIsDay(n: int)
    ensures EpochDay(CivilFromDay(n)) == n
  {
    var z := n + 719528;
    var era := z / 146097;
    var yw := YearWalk(z % 146097, 0);
    var y := 400 * era + yw.0;
    EraShift(era, yw.0);
    var c := CivilFromDay(n);
    assert c.year == y;
    assert DaysBeforeMonth(y, c.month) + c.day - 1 == yw.1;
    assert YearStartDay(0) == -719528;
    assert YearStartDay(yw.0) + yw.1 == -719528 + z % 146097;
    assert z == 146097 * era + z % 146097;
  }

  /** The UTC calendar date of timestamp `t`, as `gmdate('Y')`, `gmdate('n')` and `gmdate('j')` read it. */
  function Civil(t: int): (c: CivilDate)
    ensures IsValid(c)
  {
    CivilFromDay(t / SecondsPerDay)
  }

  /** Timestamp `t` lies in the day of its calendar date, which starts at a multiple of a day. */
  lemma CivilBounds(t: int)
    ensures EpochSeconds(Civil(t)) <= t < EpochSeconds(Civil(t)) + SecondsPerDay
    ensures EpochSeconds(Civil(t)) % SecondsPerDay == 0
  {
    var c := Civil(t);
    CivilFromDayIsDay(t / SecondsPerDay);
    EpochSecondsInDays(c);
    DayFloor(t);
  }

  lemma DayFloor(t: int)
    ensures (t / SecondsPerDay) * SecondsPerDay <= t < (t / SecondsPerDay) * SecondsPerDay + SecondsPerDay
    ensures ((t / SecondsPerDay) * SecondsPerDay) % SecondsPerDay == 0
  {
  }

  /** Lexicographic order on dates. */
  predicate Before(a: CivilDate, b: CivilDate) {
    a.year < b.year
    || (a.year == b.year && a.month < b.month)
    || (a.year == b.year && a.month == b.month && a.day < b.day)
  }

  lemma {:induction false} YearStartGap(y1: int, y2: int)
    requires y1 < y2
    ensures YearStartDay(y2) >= YearStartDay(y1) + DaysInYear(y1)
    decreases y2 - y1
  {
    YearStartStep(y2 - 1);
    if y1 < y2 - 1 {
      YearStartGap(y1, y2 - 1);
    }
  }

  /** Later dates have later day numbers. */
  lemma EpochDayMonotone(a: CivilDate, b: CivilDate)
    requires IsValid(a) && IsValid(b) && Before(a, b)
    ensures EpochDay(a) < EpochDay(b)
  {
    if a.year < b.year {
      YearStartGap(a.year, b.year);
      assert DaysBeforeMonth(a.year, a.month) + a.day <= DaysBeforeMonth(a.year, a.month + 1);
    } else if a.month < b.month {
      assert DaysBeforeMonth(a.year, a.month) + a.day <= DaysBeforeMonth(a.year, a.month + 1);
    }
  }

  lemma EpochDayInjective(a: CivilDate, b: CivilDate)
    requires IsValid(a) && IsValid(b) && EpochDay(a) == EpochDay(b)
    ensures a == b
  {
    if Before(a, b) {
      EpochDayMonotone(a, b);
    } else if Before(b, a) {
      EpochDayMonotone(b, a);
    }
  }

  /** Decomposing the timestamp of a valid date gives that date back. */
  lemma CivilOfEpochSeconds(c: CivilDate)
    requires IsValid(c)
    ensures Civil(EpochSeconds(c)) == c
  {
    EpochSecondsInDays(c);
    var d := Civil(EpochSeconds(c));
    CivilBounds(EpochSeconds(c));
    EpochSecondsInDays(d);
    EpochDayInjective(c, d);
  }

  /** Decomposition is monotone: a later timestamp never falls on an earlier date. */
  lemma CivilMonotone(t1: int, t2: int)
    requires t1 <= t2
    ensures Civil(t1) == Civil(t2) || Before(Civil(t1), Civil(t2))
  {
    var a, b := Civil(t1), Civil(t2);
    CivilBounds(t1);
    CivilBounds(t2);
    EpochSecondsInDays(a);
    EpochSecondsInDays(b);
    if Before(b, a) {
      EpochDayMonotone(b, a);
    }
  }

  /** Two timestamps fall on the same UTC date exactly when they lie in the same 86400-second day. */
  lemma SameCivilDay(t1: int, t2: int)
    ensures Civil(t1) == Civil(t2) <==> t1 / SecondsPerDay == t2 / SecondsPerDay
  {
    SameDayNumber(t1 / SecondsPerDay, t2 / SecondsPerDay);
  }

  /** Distinct day numbers are distinct dates. */
  lemma SameDayNumber(n1: int, n2: int)
    ensures CivilFromDay(n1) == CivilFromDay(n2) <==> n1 == n2
  {
    CivilFromDayIsDay(n1);
    CivilFromDayIsDay(n2);
  }

  /** The timestamp lies between the start of its year and the start of the next. */
  lemma WithinYear(t: int)
    ensures var y := Civil(t).year;
      YearStartDay(y) * SecondsPerDay <= t < (YearStartDay(y) + DaysInYear(y)) * SecondsPerDay
  {
    var c := Civil(t);
    CivilBounds(t);
    EpochSecondsInDays(c);
    DayOfYearInRange(c);
    DayInYear(EpochDay(c), YearStartDay(c.year), DaysInYear(c.year), t);
  }

  /** A valid date's day number lies within its year. */
  lemma DayOfYearInRange(c: CivilDate)
    requires IsValid(c)
    ensures YearStartDay(c.year) <= EpochDay(c) < YearStartDay(c.year) + DaysInYear(c.year)
  {
    assert DaysBeforeMonth(c.year, c.month) + c.day <= DaysBeforeMonth(c.year, c.month + 1);
  }

  lemma DayInYear(e: int, start: int, len: int, t: int)
    requires start <= e < start + len
    requires e * SecondsPerDay <= t < e * SecondsPerDay + SecondsPerDay
    ensures start * SecondsPerDay <= t < (start + len) * SecondsPerDay
  {
  }

  /**
   * A reference timestamp (class Date): `Year`, `Month` and `Day` are its UTC calendar
   * components, as `intval(gmdate('Y' | 'm' | 'd', $timestamp))` gives them.
   */
  datatype Date = Date(timestamp: int) {

    /** The timestamp lies within its year: from January 1 of `y` up to January 1 of the next. */
    function Year(): (y: int)
      ensures YearStartDay(y) * SecondsPerDay <= timestamp
      ensures timestamp < (YearStartDay(y) + DaysInYear(y)) * SecondsPerDay
    {
      WithinYear(timestamp);
      Civil(timestamp).year
    }

    function Month(): (m: int)
      ensures 1 <= m <= 12
    {
      Civil(timestamp).month
    }

    function Day(): (d: int)
      ensures 1 <= d <= DaysInMonth(Year(), Month())
    {
      Civil(timestamp).day
    }
  }

  /**
   * `Date::make($year, $month, $day)`: a month or day that is not numeric (`null`, or missing) is
   * read as 1; the date is then formatted as `%04d-%02d-%02d` and parsed by `strtotime` in UTC.
   * None stands for the `false` sentinel; it is returned whenever the components do not form a
   * valid date with a four-digit year.
   */
  function Make(year: int, month: Option<int>, day: Option<int>): (r: Option<int>)
    ensures var c := CivilDate(year, month.GetOr(1), day.GetOr(1));
      && (r.Some? <==> 0 <= year <= 9999 && IsValid(c))
      && (r.Some? ==> Civil(r.value) == c && r.value % SecondsPerDay == 0)
  {
    var c := CivilDate(year, month.GetOr(1), day.GetOr(1));
    if 0 <= year <= 9999 && IsValid(c) then
      CivilOfEpochSeconds(c);
      EpochSecondsInDays(c);
      Some(EpochSeconds(c))
    else
      None
  }

  /** `make(year(t), month(t), day(t))` is midnight UTC of the day of `t`. */
  lemma MakeOfComponentsIsMidnight(t: int)
    requires 0 <= Date(t).Year() <= 9999
    ensures var d := Date(t);
      var r := Make(d.Year(), Some(d.Month()), Some(d.Day()));
      && r.Some?
      && r.value <= t < r.value + SecondsPerDay
      && r.value % SecondsPerDay == 0
  {
    var d := Date(t);
    var c := Civil(t);
    var r := Make(d.Year(), Some(d.Month()), Some(d.Day()));
    CivilBounds(t);
    CivilOfEpochSeconds(c);
    assert r == Some(EpochSeconds(c));
  }

  /** `make(y)` with its month and day defaulted is the first of January of that year. */
  lemma MakeDefaults(year: int)
    ensures Make(year, None, None) == Make(year, Some(1), Some(1))
    ensures 0 <= year <= 9999 ==> Make(year, None, None).Some?
  {
  }

  /** `Date::pad`: `sprintf('%02d', $n)`, zero-padded to at least two characters. */
  function Pad(n: int): (s: string)
    ensures |s| >= 2
    ensures 0 <= n <= 9 ==> s == ['0', DigitChar(n)]
    ensures 10 <= n ==> s == NatToString(n)
    ensures 0 <= n ==> AllDigits(s) && DigitsValue(s) == n
  {
    DigitsValueOfNatToString(Abs(n));
    if 0 <= n <= 9 then
      assert DigitsValue(['0', DigitChar(n)]) == DigitsValue(['0']) * 10 + n;
      ['0', DigitChar(n)]
    else if n < 0 && n > -10 then
      IntToString(n)
    else
      assert |NatToString(Abs(n) / 10)| >= 1;
      IntToString(n)
  }
}
