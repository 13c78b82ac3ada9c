/**
 * The cached date index of includes/class-posts.php.
 *
 * The plugin keeps one list in the WordPress option store: the timestamps of all days that have
 * published posts, newest first. Everything else (`days`, `months`, `by_years`, `by_months`) is
 * derived from that list on every request. The option store is modelled as a map from option
 * name to stored value; `md5`, `esc_sql` and the database are parameters of the object.
 */
module PostIndex {
  import opened Wrappers
  import opened PhpStrings
  import opened DateHelper
  import opened FirstOccurrence

  /**
   * A value read back from the option store. The plugin itself only writes lists of `strtotime`
   * results (None stands for its `false`); any other value counts as "not an array".
   */
  datatype StoredValue =
    | ArrayValue(items: seq<Option<int>>)
    | ScalarValue(text: string)

  /** The `(object) ['year' => …, 'month' => …, 'dayofmonth' => …]` records of `days()`. */
  datatype DayRecord = DayRecord(year: int, month: int, dayofmonth: int)

  /** One entry `$by_year[$year] = [$month, …]` of `by_years()`, in insertion order. */
  datatype YearMonths = YearMonths(year: int, months: seq<int>)

  const KeyPrefix: string := "sitemap-html-posts-"

  /** The fixed parts of the days query, between the table name and the post-type list. */
  const SelectDays: string := "SELECT DISTINCT DATE_FORMAT(post_date, '%Y-%m-%d') FROM "
  const WherePostType: string := " WHERE post_type IN ("
  const WherePublished: string := ") AND post_status = 'publish' ORDER BY post_date DESC"

  /** `is_array` on what `get_option` returned (None is its `false` for a missing option). */
  predicate IsArray(v: Option<StoredValue>) {
    v.Some? && v.value.ArrayValue?
  }

  /**
   * The callback of `days()`: `explode('-', gmdate('Y-n-j', $timestamp))`, each part cast to int.
   * A `false` entry is read as timestamp 0. For a year before 0, `gmdate` writes a leading minus
   * sign, so the first part is empty and the year, month and day land one field to the right.
   */
  function DayOf(stamp: Option<int>): DayRecord {
    var c := Civil(stamp.GetOr(0));
    if c.year >= 0 then DayRecord(c.year, c.month, c.day) else DayRecord(0, -c.year, c.month)
  }

  /**
   * The record of a timestamp of year 0 or later holds its UTC year, month and day of the month;
   * before year 0 the fields are shifted as described above.
   */
  lemma DayOfComponents(stamp: Option<int>)
    ensures var d := Date(stamp.GetOr(0));
      d.Year() >= 0 ==> DayOf(stamp) == DayRecord(d.Year(), d.Month(), d.Day())
    ensures var d := Date(stamp.GetOr(0));
      d.Year() < 0 ==> DayOf(stamp) == DayRecord(0, -d.Year(), d.Month())
  {
  }

  /**
   * `days()` on the stored value: empty when it is missing, empty or not an array; otherwise
   * the records of the stored timestamps, one for one and in the same order.
   */
  function DaysOf(v: Option<StoredValue>): (r: seq<DayRecord>)
    ensures r == [] <==> !IsArray(v) || v.value.items == []
    ensures IsArray(v) ==> |r| == |v.value.items|
  {
    if !IsArray(v) || v.value.items == [] then [] else DecodeAll(v.value.items)
  }

  /** `array_map` of the `days()` callback. */
  function DecodeAll(items: seq<Option<int>>): (r: seq<DayRecord>)
    ensures |r| == |items|
  {
    MapSeq(DayOf, items)
  }

  /** `array_map($f, $s)` on a list. */
  function MapSeq<A, B>(f: A -> B, s: seq<A>): (r: seq<B>)
    ensures |r| == |s|
  {
    if s == [] then [] else MapSeq(f, s[..|s| - 1]) + [f(s[|s| - 1])]
  }

  /** Element i of `array_map($f, $s)` is `f` applied to element i of `s`. */
  lemma {:induction false} MapSeqElements<A, B>(f: A -> B, s: seq<A>)
    ensures forall i :: 0 <= i < |s| ==> MapSeq(f, s)[i] == f(s[i])
  {
    if s != [] {
      var init := s[..|s| - 1];
      MapSeqElements(f, init);
      assert forall i :: 0 <= i < |init| ==> s[i] == init[i];
    }
  }

  /** `strtotime` on each `Y-m-d` row of the days query, as `update()` stores it. */
  function ParseRows(rows: seq<CivilDate>): (r: seq<Option<int>>)
    ensures |r| == |rows|
    ensures forall i :: 0 <= i < |r| ==> r[i] == Make(rows[i].year, Some(rows[i].month), Some(rows[i].day))
  {
    seq(|rows|, i requires 0 <= i < |rows| => Make(rows[i].year, Some(rows[i].month), Some(rows[i].day)))
  }

  /**
   * Storing the parsed rows and decoding them with `days()` gives back the rows themselves, for
   * every list of valid dates with four-digit years (the dates MySQL's `DATE_FORMAT` produces).
   */
  lemma UpdateRoundTrip(rows: seq<CivilDate>)
    requires forall i :: 0 <= i < |rows| ==> IsValid(rows[i]) && 0 <= rows[i].year <= 9999
    ensures var days := DaysOf(Some(ArrayValue(ParseRows(rows))));
      && |days| == |rows|
      && forall i :: 0 <= i < |rows| ==>
           days[i] == DayRecord(rows[i].year, rows[i].month, rows[i].day)
  {
    var items := ParseRows(rows);
    var days := DaysOf(Some(ArrayValue(items)));
    forall i | 0 <= i < |rows|
      ensures days[i] == DayRecord(rows[i].year, rows[i].month, rows[i].day)
    {
      var m := Make(rows[i].year, Some(rows[i].month), Some(rows[i].day));
      assert m.Some? && Civil(m.value) == rows[i];
      MapSeqElements(DayOf, items);
      assert days[i] == DayOf(m);
    }
  }

  // ---------------------------------------------------------------------------------------------
  // months(): first record of each (year, month)

  /**
   * The `$month_id` of `months()`, `sprintf('%d-%d', $year, $month)`. Years and months decoded
   * by `days()` are never negative, so the text identifies the pair and the pair stands for it.
   */
  function MonthKey(d: DayRecord): (int, int) {
    (d.year, d.month)
  }

  function YearKey(d: DayRecord): int {
    d.year
  }

  /** `months()` on a list of days. */
  function MonthsOf(days: seq<DayRecord>): seq<DayRecord> {
    Dedup(days, MonthKey)
  }

  /**
   * `months()` keeps exactly one record per (year, month) of `days`, the first one in cache
   * order, and lists them in the order of those first occurrences.
   */
  lemma MonthsAreFirstOccurrences(days: seq<DayRecord>)
    ensures IsFirstOccurrences(days, MonthKey, MonthsOf(days))
  {
    DedupIsFirstOccurrences(days, MonthKey);
  }

  // ---------------------------------------------------------------------------------------------
  // by_years(): months grouped under their year

  function YearsOf(g: seq<YearMonths>): seq<int> {
    seq(|g|, i requires 0 <= i < |g| => g[i].year)
  }

  /** Replacing a group by one of the same year leaves the years alone. */
  lemma YearsOfRenamed(g: seq<YearMonths>, i: nat, ym: YearMonths)
    requires i < |g| && ym.year == g[i].year
    ensures YearsOf(g[i := ym]) == YearsOf(g)
  {
  }

  function DayYears(ds: seq<DayRecord>): seq<int> {
    seq(|ds|, i requires 0 <= i < |ds| => ds[i].year)
  }

  /** The position of the group of `year`, if there is one. */
  function YearIndex(g: seq<YearMonths>, year: int): (r: Option<nat>)
    ensures r.Some? ==> r.value < |g| && g[r.value].year == year
    ensures r.None? ==> forall i :: 0 <= i < |g| ==> g[i].year != year
  {
    if g == [] then None
    else if g[|g| - 1].year == year then Some(|g| - 1)
    else YearIndex(g[..|g| - 1], year)
  }

  /** One step of `by_years()`: `$by_year[$month->year][] = $month->month`. */
  function AddMonth(g: seq<YearMonths>, d: DayRecord): seq<YearMonths> {
    match YearIndex(g, d.year)
    case Some(i) => g[i := YearMonths(d.year, g[i].months + [d.month])]
    case None => g + [YearMonths(d.year, [d.month])]
  }

  /** `by_years()` run over a list of month records. */
  function GroupByYear(ms: seq<DayRecord>): seq<YearMonths> {
    if ms == [] then [] else AddMonth(GroupByYear(ms[..|ms| - 1]), ms[|ms| - 1])
  }

  /** One step of the `by_years()` loop over `ms`. */
  lemma GroupByYearStep(ms: seq<DayRecord>, i: nat)
    requires i < |ms|
    ensures GroupByYear(ms[..i + 1]) == AddMonth(GroupByYear(ms[..i]), ms[i])
  {
    assert ms[..i + 1][..i] == ms[..i];
  }

  predicate Distinct(s: seq<int>) {
    forall i, j :: 0 <= i < j < |s| ==> s[i] != s[j]
  }

  /** The months recorded for `year` in `ms`, in order. */
  function MonthsIn(ms: seq<DayRecord>, year: int): seq<int> {
    if ms == [] then []
    else
      var d := ms[|ms| - 1];
      MonthsIn(ms[..|ms| - 1], year) + (if d.year == year then [d.month] else [])
  }

  lemma {:induction false} MonthsInMembers(ms: seq<DayRecord>, year: int)
    ensures forall m :: m in MonthsIn(ms, year) <==> (year, m) in Keys(ms, MonthKey)
  {
    if ms != [] {
      var init := ms[..|ms| - 1];
      var d := ms[|ms| - 1];
      assert ms == init + [d];
      MonthsInMembers(init, year);
      KeysAppend(init, d, MonthKey);
    }
  }

  lemma {:induction false} MonthsInAbsent(ms: seq<DayRecord>, year: int)
    requires year !in Keys(ms, YearKey)
    ensures MonthsIn(ms, year) == []
  {
    if ms != [] {
      var init := ms[..|ms| - 1];
      var d := ms[|ms| - 1];
      assert ms == init + [d];
      KeysAppend(init, d, YearKey);
      MonthsInAbsent(init, year);
    }
  }

  lemma {:induction false} MonthsInDistinct(ms: seq<DayRecord>, year: int)
    requires forall i, j :: 0 <= i < j < |ms| ==> MonthKey(ms[i]) != MonthKey(ms[j])
    ensures Distinct(MonthsIn(ms, year))
  {
    if ms != [] {
      var init := ms[..|ms| - 1];
      var d := ms[|ms| - 1];
      forall i, j | 0 <= i < j < |init| ensures MonthKey(init[i]) != MonthKey(init[j]) {
        assert init[i] == ms[i] && init[j] == ms[j];
      }
      MonthsInDistinct(init, year);
      var r0 := MonthsIn(init, year);
      var r := MonthsIn(ms, year);
      if d.year == year {
        MonthsInMembers(init, year);
        LastKeyIsNew(ms, MonthKey);
        assert r == r0 + [d.month];
        forall i, j | 0 <= i < j < |r| ensures r[i] != r[j] {
          if j == |r0| {
            assert r[i] in r0;
          } else {
            assert r[i] == r0[i] && r[j] == r0[j];
          }
        }
      } else {
        assert r == r0;
      }
    }
  }

  /**
   * `by_years()` over any list of month records: its years are those of the records in
   * first-occurrence order, each once, and each year holds the months recorded for it, in order.
   */
  lemma {:induction false} GroupByYearSpec(ms: seq<DayRecord>)
    ensures GroupedByYear(ms, GroupByYear(ms))
  {
    if ms != [] {
      var init := ms[..|ms| - 1];
      var d := ms[|ms| - 1];
      assert ms == init + [d];
      GroupByYearSpec(init);
      AddMonthSpec(init, GroupByYear(init), d);
    }
  }

  /**
   * `g` is the grouping of `ms` by year: its years are those of the records in first-occurrence
   * order, each once, and each year holds the months recorded for it, in order.
   */
  ghost predicate GroupedByYear(ms: seq<DayRecord>, g: seq<YearMonths>) {
    && YearsOf(g) == DayYears(Dedup(ms, YearKey))
    && (forall i, j :: 0 <= i < j < |g| ==> g[i].year != g[j].year)
    && (forall y :: y in YearsOf(g) <==> y in Keys(ms, YearKey))
    && (forall i :: 0 <= i < |g| ==> g[i].months == MonthsIn(ms, g[i].year) && g[i].months != [])
  }

  /** One more record keeps the grouping a grouping. */
  lemma AddMonthSpec(init: seq<DayRecord>, g0: seq<YearMonths>, d: DayRecord)
    requires GroupedByYear(init, g0)
    ensures GroupedByYear(init + [d], AddMonth(g0, d))
  {
    var ms := init + [d];
    match YearIndex(g0, d.year)
    case Some(i) => AddToYear(init, g0, d, i);
    case None => AddNewYear(init, g0, d);
  }

  lemma AddToYear(init: seq<DayRecord>, g0: seq<YearMonths>, d: DayRecord, i: nat)
    requires GroupedByYear(init, g0) && YearIndex(g0, d.year) == Some(i)
    ensures GroupedByYear(init + [d], AddMonth(g0, d))
  {
    var ms := init + [d];
    assert ms[..|ms| - 1] == init && ms[|ms| - 1] == d;
    KeysAppend(init, d, YearKey);
    var g := AddMonth(g0, d);
    assert YearsOf(g0)[i] == d.year;
    assert Dedup(ms, YearKey) == Dedup(init, YearKey);
    YearsOfRenamed(g0, i, YearMonths(d.year, g0[i].months + [d.month]));
    forall j | 0 <= j < |g|
      ensures g[j].months == MonthsIn(ms, g[j].year) && g[j].months != []
    {
      if j != i {
        assert g[j] == g0[j] && g0[j].year != d.year;
      }
    }
  }

  lemma AddNewYear(init: seq<DayRecord>, g0: seq<YearMonths>, d: DayRecord)
    requires GroupedByYear(init, g0) && YearIndex(g0, d.year) == None
    ensures GroupedByYear(init + [d], AddMonth(g0, d))
  {
    NewYearYears(init, g0, d);
    NewYearMonths(init, g0, d);
  }

  /** A record of a new year adds the year at the end. */
  lemma NewYearYears(init: seq<DayRecord>, g0: seq<YearMonths>, d: DayRecord)
    requires YearsOf(g0) == DayYears(Dedup(init, YearKey))
    requires forall y :: y in YearsOf(g0) <==> y in Keys(init, YearKey)
    requires YearIndex(g0, d.year) == None
    ensures var g, ms := AddMonth(g0, d), init + [d];
      && YearsOf(g) == DayYears(Dedup(ms, YearKey))
      && (forall y :: y in YearsOf(g) <==> y in Keys(ms, YearKey))
  {
    var ym := YearMonths(d.year, [d.month]);
    assert AddMonth(g0, d) == g0 + [ym];
    assert YearKey(d) == d.year && d.year !in Keys(init, YearKey) by {
      assert d.year !in YearsOf(g0);
    }
    KeysAppend(init, d, YearKey);
    DedupAppend(init, d, YearKey);
    DayYearsAppend(Dedup(init, YearKey), d);
    YearsOfAppend(g0, ym);
  }

  lemma DayYearsAppend(ds: seq<DayRecord>, d: DayRecord)
    ensures DayYears(ds + [d]) == DayYears(ds) + [d.year]
  {
  }

  lemma YearsOfAppend(g: seq<YearMonths>, ym: YearMonths)
    ensures YearsOf(g + [ym]) == YearsOf(g) + [ym.year]
  {
  }

  /** A record of a new year opens a group holding its month alone. */
  lemma NewYearMonths(init: seq<DayRecord>, g0: seq<YearMonths>, d: DayRecord)
    requires forall i :: 0 <= i < |g0| ==> g0[i].months == MonthsIn(init, g0[i].year) && g0[i].months != []
    requires forall y :: y in YearsOf(g0) <==> y in Keys(init, YearKey)
    requires YearIndex(g0, d.year) == None
    ensures var g, ms := AddMonth(g0, d), init + [d];
      forall j :: 0 <= j < |g| ==> g[j].months == MonthsIn(ms, g[j].year) && g[j].months != []
  {
    var ms := init + [d];
    assert ms[..|ms| - 1] == init && ms[|ms| - 1] == d;
    var g := AddMonth(g0, d);
    assert d.year !in YearsOf(g0);
    MonthsInAbsent(init, d.year);
    forall j | 0 <= j < |g|
      ensures g[j].months == MonthsIn(ms, g[j].year) && g[j].months != []
    {
      if j < |g0| {
        assert g[j] == g0[j] && g0[j].year != d.year;
      }
    }
  }

  /** `by_years()` on a list of days, by way of `months()`. */
  function ByYearsOf(days: seq<DayRecord>): seq<YearMonths> {
    GroupByYear(MonthsOf(days))
  }

  /** Some group of `g` lists month `m` under year `y`. */
  predicate Lists(g: seq<YearMonths>, y: int, m: int) {
    exists i :: 0 <= i < |g| && g[i].year == y && m in g[i].months
  }

  /** Some record of `days` has year `y` and month `m`. */
  predicate Records(days: seq<DayRecord>, y: int, m: int) {
    exists k :: 0 <= k < |days| && days[k].year == y && days[k].month == m
  }

  /**
   * `by_years()` lists every year that has a cached day, each once, in the order in which the
   * years first occur in the cache, and every year holds a non-empty list of distinct months.
   */
  lemma ByYearsSpec(days: seq<DayRecord>)
    ensures var g := ByYearsOf(days);
      && YearsOf(g) == DayYears(Dedup(days, YearKey))
      && (forall i, j :: 0 <= i < j < |g| ==> g[i].year != g[j].year)
      && (forall i :: 0 <= i < |g| ==> g[i].months != [])
      && (forall i, j, k :: 0 <= i < |g| && 0 <= j < k < |g[i].months| ==>
            g[i].months[j] != g[i].months[k])
  {
    var ms := MonthsOf(days);
    var g := GroupByYear(ms);
    GroupByYearSpec(ms);
    DedupRefines(days, MonthKey, YearKey);
    DedupIsFirstOccurrences(days, MonthKey);
    forall i | 0 <= i < |g|
      ensures forall j, k :: 0 <= j < k < |g[i].months| ==> g[i].months[j] != g[i].months[k]
    {
      MonthsInDistinct(ms, g[i].year);
    }
  }

  /** A pair (year, month) appears in `by_years()` exactly when some cached day has it. */
  lemma ByYearsMembers(days: seq<DayRecord>, y: int, m: int)
    ensures Lists(ByYearsOf(days), y, m) <==> Records(days, y, m)
  {
    var ms := MonthsOf(days);
    var g := GroupByYear(ms);
    GroupByYearSpec(ms);
    DedupKeys(days, MonthKey);
    MonthsInMembers(ms, y);
    if Records(days, y, m) {
      var k :| 0 <= k < |days| && days[k].year == y && days[k].month == m;
      KeyIn(days, MonthKey, k);
      var j :| 0 <= j < |ms| && MonthKey(ms[j]) == (y, m);
      KeyIn(ms, YearKey, j);
      assert y in YearsOf(g);
      var i :| 0 <= i < |g| && YearsOf(g)[i] == y;
      assert g[i].year == y && m in g[i].months;
    }
    if Lists(g, y, m) {
      var i :| 0 <= i < |g| && g[i].year == y && m in g[i].months;
      assert (y, m) in Keys(days, MonthKey);
    }
  }

  // ---------------------------------------------------------------------------------------------
  // by_months(): distinct days of one month, with their original keys

  predicate InMonth(d: DayRecord, year: int, month: int) {
    d.year == year && d.month == month
  }

  /**
   * `array_filter` to one month then `array_map` to the day of the month: pairs of (original
   * key, day of month), in cache order.
   */
  function MonthDays(days: seq<DayRecord>, year: int, month: int): seq<(int, int)> {
    if days == [] then []
    else
      var init := days[..|days| - 1];
      var d := days[|days| - 1];
      MonthDays(init, year, month) + (if InMonth(d, year, month) then [(|init|, d.dayofmonth)] else [])
  }

  /** The original keys of `f` strictly increase. */
  predicate KeysIncreasing(f: seq<(int, int)>) {
    forall i, j :: 0 <= i < j < |f| ==> f[i].0 < f[j].0
  }

  lemma {:induction false} MonthDaysMembers(days: seq<DayRecord>, year: int, month: int)
    ensures forall p :: p in MonthDays(days, year, month) <==>
      0 <= p.0 < |days| && InMonth(days[p.0], year, month) && p.1 == days[p.0].dayofmonth
    ensures KeysIncreasing(MonthDays(days, year, month))
  {
    if days != [] {
      var init := days[..|days| - 1];
      var f0 := MonthDays(init, year, month);
      MonthDaysMembers(init, year, month);
      forall k | 0 <= k < |init| ensures days[k] == init[k] { }
      forall i | 0 <= i < |f0| ensures f0[i].0 < |init| {
        assert f0[i] in f0;
      }
      var f := MonthDays(days, year, month);
      var d := days[|days| - 1];
      if InMonth(d, year, month) {
        assert f == f0 + [(|init|, d.dayofmonth)];
        forall i, j | 0 <= i < j < |f| ensures f[i].0 < f[j].0 {
          if j == |f0| {
            assert f[i] == f0[i];
          } else {
            assert f[i] == f0[i] && f[j] == f0[j];
          }
        }
      } else {
        assert f == f0;
      }
    }
  }

  function DayValue(p: (int, int)): int {
    p.1
  }

  /** `by_months($year, $month)`: `array_unique` of the filtered days, keeping first keys. */
  function ByMonthsOf(days: seq<DayRecord>, year: int, month: int): seq<(int, int)> {
    Dedup(MonthDays(days, year, month), DayValue)
  }

  /** Position `k` holds a day of the month that no earlier day of that month repeats. */
  predicate IsFirstDay(days: seq<DayRecord>, year: int, month: int, k: int) {
    && 0 <= k < |days|
    && InMonth(days[k], year, month)
    && forall j :: 0 <= j < k && InMonth(days[j], year, month) ==>
         days[j].dayofmonth != days[k].dayofmonth
  }

  /**
   * Every entry of `by_months(y, m)` is a first occurrence of its day of the month among the
   * cached days of that month, kept under its original key, and the keys stay in cache order.
   */
  lemma ByMonthsSound(days: seq<DayRecord>, year: int, month: int)
    ensures forall p :: p in ByMonthsOf(days, year, month) ==>
      IsFirstDay(days, year, month, p.0) && p.1 == days[p.0].dayofmonth
    ensures KeysIncreasing(ByMonthsOf(days, year, month))
  {
    var f := MonthDays(days, year, month);
    var r := ByMonthsOf(days, year, month);
    MonthDaysMembers(days, year, month);
    DedupIsFirstOccurrences(f, DayValue);
    forall p | p in r ensures IsFirstDay(days, year, month, p.0) && p.1 == days[p.0].dayofmonth {
      var j :| 0 <= j < |r| && r[j] == p;
      FirstIsFirstDay(days, year, month, r[j].1);
    }
    forall i, j | 0 <= i < j < |r| ensures r[i].0 < r[j].0 {
      var fi := FirstIndex(f, DayValue, DayValue(r[i]));
      var fj := FirstIndex(f, DayValue, DayValue(r[j]));
      assert r[i] == f[fi] && r[j] == f[fj] && fi < fj;
    }
  }

  /** The first entry of the filtered month with a given day is a first occurrence. */
  lemma FirstIsFirstDay(days: seq<DayRecord>, year: int, month: int, v: int)
    requires v in Keys(MonthDays(days, year, month), DayValue)
    ensures var f := MonthDays(days, year, month);
      var p := f[FirstIndex(f, DayValue, v)];
      IsFirstDay(days, year, month, p.0) && p.1 == days[p.0].dayofmonth && p.1 == v
  {
    var f := MonthDays(days, year, month);
    MonthDaysMembers(days, year, month);
    var fi := FirstIndex(f, DayValue, v);
    var k := f[fi].0;
    assert f[fi] in f;
    forall k' | 0 <= k' < k && InMonth(days[k'], year, month)
      ensures days[k'].dayofmonth != days[k].dayofmonth
    {
      assert (k', days[k'].dayofmonth) in f;
      var i' :| 0 <= i' < |f| && f[i'] == (k', days[k'].dayofmonth);
      assert i' < fi;
      assert DayValue(f[i']) != v;
    }
  }

  /**
   * Every first occurrence of a day among the cached days of the month is in `by_months(y, m)`.
   */
  lemma ByMonthsComplete(days: seq<DayRecord>, year: int, month: int)
    ensures forall k :: IsFirstDay(days, year, month, k) ==>
      (k, days[k].dayofmonth) in ByMonthsOf(days, year, month)
  {
    var f := MonthDays(days, year, month);
    var r := ByMonthsOf(days, year, month);
    MonthDaysMembers(days, year, month);
    DedupIsFirstOccurrences(f, DayValue);
    forall k | IsFirstDay(days, year, month, k) ensures (k, days[k].dayofmonth) in r {
      var v := days[k].dayofmonth;
      assert (k, v) in f;
      var i :| 0 <= i < |f| && f[i] == (k, v);
      KeyIn(f, DayValue, i);
      var j :| 0 <= j < |r| && DayValue(r[j]) == v;
      FirstIsFirstDay(days, year, month, v);
      assert r[j] == f[FirstIndex(f, DayValue, v)];
      var k2 := r[j].0;
      assert IsFirstDay(days, year, month, k2) && days[k2].dayofmonth == v;
      assert !(k2 < k) && !(k < k2);
    }
  }

  /** `by_months(y, m)` is empty exactly when the cache has no day of that month. */
  lemma ByMonthsEmpty(days: seq<DayRecord>, year: int, month: int)
    ensures ByMonthsOf(days, year, month) == [] <==>
      forall k :: 0 <= k < |days| ==> !InMonth(days[k], year, month)
  {
    var f := MonthDays(days, year, month);
    MonthDaysMembers(days, year, month);
    DedupKeys(f, DayValue);
    if exists k :: 0 <= k < |days| && InMonth(days[k], year, month) {
      var k :| 0 <= k < |days| && InMonth(days[k], year, month);
      assert (k, days[k].dayofmonth) in f;
      var i :| 0 <= i < |f| && f[i] == (k, days[k].dayofmonth);
      KeyIn(f, DayValue, i);
    }
  }

  // ---------------------------------------------------------------------------------------------
  // class Posts

  /** `Posts`: the date index of one set of post types, read and written through the store. */
  class Posts {
    /** The posts table of the database handle (`$this->db->posts`). */
    const postsTable: string
    const postTypes: seq<string>
    /** `md5` and `esc_sql`, which are not part of this model. */
    const md5: string -> string
    const escSql: string -> string
    /** The option store: option name to stored value. */
    var options: map<string, StoredValue>

    /** `new Posts($db, $post_types)`; the post types default to `['post']`. */
    constructor(postsTable: string, postTypes: Option<seq<string>>, md5: string -> string,
                escSql: string -> string, options: map<string, StoredValue>)
      ensures this.postsTable == postsTable && this.postTypes == postTypes.GetOr(["post"])
      ensures this.md5 == md5 && this.escSql == escSql && this.options == options
    {
      this.postsTable := postsTable;
      this.postTypes := postTypes.GetOr(["post"]);
      this.md5 := md5;
      this.escSql := escSql;
      this.options := options;
    }

    /**
     * `cache_key($query)`: the fixed prefix followed by the hash of the query text and the post
     * types joined by '/', and nothing else.
     */
    function CacheKey(query: string): (key: string)
      ensures KeyPrefix <= key
      ensures key[|KeyPrefix|..] == md5(query + Join(postTypes, "/"))
    {
      KeyPrefix + md5(query + Join(postTypes, "/"))
    }

    /** Each post type escaped and put in single quotes. */
    function QuotedTypes(): (r: seq<string>)
      ensures |r| == |postTypes|
      ensures forall i :: 0 <= i < |r| ==> r[i] == "'" + escSql(postTypes[i]) + "'"
    {
      seq(|postTypes|, i requires 0 <= i < |postTypes| => "'" + escSql(postTypes[i]) + "'")
    }

    /** The `IN (…)` list of `query_post_types_in()`. */
    function PostTypesIn(): string {
      Join(QuotedTypes(), ", ")
    }

    /** `query_post_types_in()`: quotes each post type in turn and joins them with ", ". */
    method QueryPostTypesIn() returns (r: string)
      ensures r == PostTypesIn()
      ensures |postTypes| == 1 ==> r == "'" + escSql(postTypes[0]) + "'"
      ensures postTypes == [] ==> r == ""
    {
      var conditionals: seq<string> := [];
      for i := 0 to |postTypes|
        invariant conditionals == QuotedTypes()[..i]
      {
        conditionals := conditionals + ["'" + escSql(postTypes[i]) + "'"];
      }
      assert conditionals == QuotedTypes();
      r := Join(conditionals, ", ");
    }

    /**
     * `query_for_days()`: the distinct days of the posts table, restricted to the `IN` list of
     * the post types, and to published posts newest first.
     */
    function QueryForDays(): (q: string)
      ensures var head := SelectDays + postsTable + WherePostType;
        && head <= q && |q| == |head| + |PostTypesIn()| + |WherePublished|
        && q[|head|..|q| - |WherePublished|] == PostTypesIn()
        && q[|q| - |WherePublished|..] == WherePublished
    {
      var head := SelectDays + postsTable + WherePostType;
      var q := head + PostTypesIn() + WherePublished;
      assert q[|head|..|q| - |WherePublished|] == PostTypesIn();
      q
    }

    /** `cache_get($query)`: the stored value, or None where `get_option` returns false. */
    function CacheGet(query: string): (r: Option<StoredValue>)
      reads this
      ensures r.Some? <==> CacheKey(query) in options
      ensures r.Some? ==> r.value == options[CacheKey(query)]
    {
      if CacheKey(query) in options then Some(options[CacheKey(query)]) else None
    }

    /** `cache_set($query, $results)`: overwrites the option of that query and no other. */
    method CacheSet(query: string, results: StoredValue)
      modifies this
      ensures options == old(options)[CacheKey(query) := results]
    {
      options := options[CacheKey(query) := results];
    }

    /** `is_cached()`: an array is stored under the key; without one there are no days. */
    predicate IsCached()
      reads this
      ensures IsCached() ==> CacheKey(QueryForDays()) in options
      ensures !IsCached() ==> Days() == []
    {
      IsArray(CacheGet(QueryForDays()))
    }

    /**
     * `days()`: nothing unless an array is cached; otherwise one record per cached entry, the
     * record of entry i at position i.
     */
    function Days(): (r: seq<DayRecord>)
      reads this
      ensures !IsArray(CacheGet(QueryForDays())) ==> r == []
      ensures IsArray(CacheGet(QueryForDays())) ==>
        var items := CacheGet(QueryForDays()).value.items;
        |r| == |items| && forall i :: 0 <= i < |r| ==> r[i] == DayOf(items[i])
    {
      var v := CacheGet(QueryForDays());
      if IsArray(v) then
        MapSeqElements(DayOf, v.value.items);
        DaysOf(v)
      else
        DaysOf(v)
    }

    /** A stored empty array counts as cached, although it yields no days. */
    lemma EmptyArrayIsCached()
      requires CacheGet(QueryForDays()) == Some(ArrayValue([]))
      ensures IsCached() && Days() == []
    {
    }

    /**
     * `update()`: parses the rows of the days query, replaces the cached list with them and
     * returns them; afterwards the index is cached and `days()` decodes exactly that list.
     */
    method Update(rows: seq<CivilDate>) returns (results: seq<Option<int>>)
      modifies this
      ensures results == ParseRows(rows)
      ensures options == old(options)[CacheKey(QueryForDays()) := ArrayValue(results)]
      ensures CacheGet(QueryForDays()) == Some(ArrayValue(results))
      ensures IsCached() && Days() == DaysOf(Some(ArrayValue(results)))
    {
      results := ParseRows(rows);
      CacheSet(QueryForDays(), ArrayValue(results));
    }

    /** `months()`: walks the days, keeping a record only for a month not yet seen. */
    method Months() returns (r: seq<DayRecord>)
      ensures r == MonthsOf(Days())
    {
      var days := Days();
      var seen: set<(int, int)> := {};
      r := [];
      for i := 0 to |days|
        invariant r == Dedup(days[..i], MonthKey)
        invariant seen == Keys(days[..i], MonthKey)
      {
        var day := days[i];
        DedupPrefixStep(days, i, MonthKey);
        var monthId := MonthKey(day);
        if monthId !in seen {
          r := r + [day];
          seen := seen + {monthId};
        }
      }
      assert days[..|days|] == days;
    }

    /** `by_years()`: appends each month of `months()` to the list of its year. */
    method ByYears() returns (r: seq<YearMonths>)
      ensures r == ByYearsOf(Days())
    {
      var months := Months();
      r := [];
      for i := 0 to |months|
        invariant r == GroupByYear(months[..i])
      {
        GroupByYearStep(months, i);
        r := AddMonth(r, months[i]);
      }
      assert months[..|months|] == months;
    }

    /**
     * `by_months($year, $month)`: exactly the first occurrences of each day of that month among
     * the cached days, as (key, day of the month), keys in cache order.
     */
    function ByMonths(year: int, month: int): (r: seq<(int, int)>)
      reads this
      ensures forall p :: p in r ==> IsFirstDay(Days(), year, month, p.0) && p.1 == Days()[p.0].dayofmonth
      ensures forall k :: IsFirstDay(Days(), year, month, k) ==> (k, Days()[k].dayofmonth) in r
      ensures KeysIncreasing(r)
    {
      ByMonthsSound(Days(), year, month);
      ByMonthsComplete(Days(), year, month);
      ByMonthsOf(Days(), year, month)
    }
  }
}
