/**
 * Request decoding in includes/class-plugin.php: the `YYYYMM` and day route tokens, the view
 * predicates derived from them, the timestamp of the requested date, its distance from today,
 * and the decision of `maybe_sitemap_not_found` to answer with a 404.
 *
 * The query variables, the queried page and the clock are WordPress state; here they are the
 * fields of `Request` and explicit parameters.
 */
module SitemapRequest {
  import opened Wrappers
  import opened PhpStrings
  import opened DateHelper

  const QueryVarDay: string := "sitemap_day"
  const QueryVarYearMonth: string := "sitemap_yearmonth"

  /**
   * What the plugin reads of the current request: whether the queried page has the 'sitemap'
   * slug (`is_sitemap()`), and the values of the two query variables, '' when absent as
   * `get_query_var` returns them.
   */
  datatype Request = Request(onSitemap: bool, yearMonth: string, day: string)

  /** PHP truthiness of an `integer|null` component. */
  predicate Truthy(v: Option<int>) {
    v.Some? && v.value != 0
  }

  /** `year()`: `absint` of the first four characters of a non-empty numeric year-month token. */
  function Year(req: Request): (r: Option<int>)
    ensures r.Some? <==> !IsEmpty(req.yearMonth) && IsNumeric(req.yearMonth)
    ensures r.Some? ==> r.value >= 0
  {
    if !IsEmpty(req.yearMonth) && IsNumeric(req.yearMonth) then
      Some(AbsInt(Substr(req.yearMonth, 0, 4)) as int)
    else
      None
  }

  /** `month()`: `absint` of characters five and six of the same token; no range check. */
  function Month(req: Request): (r: Option<int>)
    ensures r.Some? <==> !IsEmpty(req.yearMonth) && IsNumeric(req.yearMonth)
    ensures r.Some? ==> r.value >= 0
  {
    if !IsEmpty(req.yearMonth) && IsNumeric(req.yearMonth) then
      Some(AbsInt(Substr(req.yearMonth, 4, 2)) as int)
    else
      None
  }

  /** `day()`: `absint` of any non-empty day token, numeric or not. */
  function Day(req: Request): (r: Option<int>)
    ensures r.Some? <==> !IsEmpty(req.day)
    ensures r.Some? ==> r.value >= 0
  {
    if !IsEmpty(req.day) then Some(AbsInt(req.day) as int) else None
  }

  /** The digits of a run of digits from `start`, at most `length` of them. */
  lemma SubstrOfDigits(s: string, start: nat, length: nat)
    requires AllDigits(s)
    ensures AllDigits(Substr(s, start, length))
  {
    var r := Substr(s, start, length);
    if start < |s| {
      var end := if start + length < |s| then start + length else |s|;
      assert r == s[start..end];
      forall i | 0 <= i < |r| ensures IsDigit(r[i]) {
        assert r[i] == s[start + i];
      }
    }
  }

  /**
   * A year-month token made of digits (other than "0") decodes to the value of its first four
   * digits and of its fifth and sixth digits; a token shorter than five digits has month 0.
   */
  lemma DigitTokenDecodes(req: Request)
    requires AllDigits(req.yearMonth) && !IsEmpty(req.yearMonth)
    ensures AllDigits(Substr(req.yearMonth, 0, 4)) && AllDigits(Substr(req.yearMonth, 4, 2))
    ensures Year(req) == Some(DigitsValue(Substr(req.yearMonth, 0, 4)) as int)
    ensures Month(req) == Some(DigitsValue(Substr(req.yearMonth, 4, 2)) as int)
  {
    var s := req.yearMonth;
    DigitStringIsNumeric(s);
    SubstrOfDigits(s, 0, 4);
    SubstrOfDigits(s, 4, 2);
    DigitStringIntVal(Substr(s, 0, 4));
    DigitStringIntVal(Substr(s, 4, 2));
    assert Year(req) == Some(AbsInt(Substr(s, 0, 4)) as int);
    assert Month(req) == Some(AbsInt(Substr(s, 4, 2)) as int);
  }

  /** The token "202413" is a run of digits whose parts are worth 2024 and 13. */
  lemma MonthThirteenToken(s: string)
    requires s == "202413"
    ensures AllDigits(s) && !IsEmpty(s)
    ensures AllDigits(Substr(s, 0, 4)) && AllDigits(Substr(s, 4, 2))
    ensures DigitsValue(Substr(s, 0, 4)) == 2024 && DigitsValue(Substr(s, 4, 2)) == 13
  {
    assert Substr(s, 0, 4) == "2024" && Substr(s, 4, 2) == "13";
    assert "2024"[..3] == "202" && "202"[..2] == "20" && "20"[..1] == "2" && "2"[..0] == "";
    assert DigitsValue("2024") == 2024;
    assert "13"[..1] == "1" && "1"[..0] == "";
    assert DigitsValue("13") == 13;
  }

  /** "202413" is accepted as a token and decodes to year 2024 and month 13. */
  lemma MonthThirteenIsDecoded(req: Request)
    requires req.yearMonth == "202413"
    ensures Year(req) == Some(2024) && Month(req) == Some(13)
  {
    MonthThirteenToken(req.yearMonth);
    DigitTokenDecodes(req);
  }

  /** `is_date_query()`: some component is truthy, which needs a route token that is not empty. */
  predicate IsDateQuery(req: Request)
    ensures IsDateQuery(req) ==> !IsEmpty(req.yearMonth) || !IsEmpty(req.day)
  {
    Truthy(Year(req)) || Truthy(Month(req)) || Truthy(Day(req))
  }

  /**
   * `is_root()`: the sitemap page with neither a month nor a day. The bare sitemap page is the
   * index, and so is a year-month token whose month part is 0.
   */
  predicate IsRoot(req: Request)
    ensures req.onSitemap && IsEmpty(req.yearMonth) && IsEmpty(req.day) ==> IsRoot(req)
    ensures IsRoot(req) && Month(req).Some? ==> Month(req) == Some(0)
  {
    req.onSitemap && !Truthy(Month(req)) && !Truthy(Day(req))
  }

  /** `is_month()`: a non-empty numeric year-month token, and a day token that is empty or worth 0. */
  predicate IsMonth(req: Request)
    ensures IsMonth(req) ==> req.onSitemap && !IsEmpty(req.yearMonth) && IsNumeric(req.yearMonth)
    ensures IsMonth(req) ==> IsEmpty(req.day) || AbsInt(req.day) == 0
  {
    req.onSitemap && Truthy(Month(req)) && !Truthy(Day(req))
  }

  /** `is_day()`: a non-empty numeric year-month token and a day token that is not empty. */
  predicate IsDay(req: Request)
    ensures IsDay(req) ==> req.onSitemap && !IsEmpty(req.yearMonth) && IsNumeric(req.yearMonth)
    ensures IsDay(req) ==> !IsEmpty(req.day) && AbsInt(req.day) != 0
  {
    req.onSitemap && Truthy(Month(req)) && Truthy(Day(req))
  }

  /**
   * At most one view holds; on the sitemap page exactly one holds unless the request has a day
   * without a month, which selects none of them.
   */
  lemma ViewsAreExclusive(req: Request)
    ensures !(IsRoot(req) && IsMonth(req)) && !(IsRoot(req) && IsDay(req)) && !(IsMonth(req) && IsDay(req))
    ensures req.onSitemap ==>
      ((IsRoot(req) || IsMonth(req) || IsDay(req)) <==> !(!Truthy(Month(req)) && Truthy(Day(req))))
    ensures !req.onSitemap ==> !IsRoot(req) && !IsMonth(req) && !IsDay(req)
  {
  }

  /**
   * `timestamp()`: `Date::make(year(), month(), day())`; a missing year is read as 0, a missing
   * month or day as 1. Where it is defined it is the UTC midnight of exactly that date.
   */
  function Timestamp(req: Request): (r: Option<int>)
    ensures var c := CivilDate(Year(req).GetOr(0), Month(req).GetOr(1), Day(req).GetOr(1));
      && (r.Some? <==> Year(req).GetOr(0) <= 9999 && IsValid(c))
      && (r.Some? ==> Civil(r.value) == c && r.value % SecondsPerDay == 0)
  {
    Make(Year(req).GetOr(0), Month(req), Day(req))
  }

  /**
   * `get_time_difference()`: midnight of today (UTC, from the clock `now`) minus the requested
   * timestamp, where PHP reads a `false` operand as 0.
   */
  function TimeDifference(req: Request, now: int): (r: int)
    ensures Timestamp(req).Some? && 0 <= Date(now).Year() <= 9999 ==>
      r == SecondsPerDay * (now / SecondsPerDay - Timestamp(req).value / SecondsPerDay)
  {
    var today := Date(now);
    DayDifference(req, now);
    Make(today.Year(), Some(today.Month()), Some(today.Day())).GetOr(0) - Timestamp(req).GetOr(0)
  }

  /** Today's midnight minus a valid requested midnight is a whole number of days. */
  lemma DayDifference(req: Request, now: int)
    ensures var today := Date(now);
      var mid := Make(today.Year(), Some(today.Month()), Some(today.Day()));
      Timestamp(req).Some? && 0 <= today.Year() <= 9999 ==>
        mid.Some? &&
        mid.value - Timestamp(req).value == SecondsPerDay * (now / SecondsPerDay - Timestamp(req).value / SecondsPerDay)
  {
    var today := Date(now);
    if Timestamp(req).Some? && 0 <= today.Year() <= 9999 {
      MakeOfComponentsIsMidnight(now);
      var mid := Make(today.Year(), Some(today.Month()), Some(today.Day())).value;
      MidnightsApart(mid, Timestamp(req).value, now);
    }
  }

  lemma MidnightsApart(mid: int, t: int, now: int)
    requires mid % SecondsPerDay == 0 && t % SecondsPerDay == 0
    requires mid <= now < mid + SecondsPerDay
    ensures mid - t == SecondsPerDay * (now / SecondsPerDay - t / SecondsPerDay)
  {
    assert now / SecondsPerDay == mid / SecondsPerDay;
  }

  /** `is_today()`: for a valid date, the requested day number is the day number of the clock. */
  predicate IsToday(req: Request, now: int)
    ensures Timestamp(req).Some? && 0 <= Date(now).Year() <= 9999 ==>
      (IsToday(req, now) <==> Timestamp(req).value / SecondsPerDay == now / SecondsPerDay)
  {
    TimeDifference(req, now) == 0
  }

  /** `is_yesterday()`: for a valid date, the requested day number is one less than the clock's. */
  predicate IsYesterday(req: Request, now: int)
    ensures Timestamp(req).Some? && 0 <= Date(now).Year() <= 9999 ==>
      (IsYesterday(req, now) <==> Timestamp(req).value / SecondsPerDay == now / SecondsPerDay - 1)
  {
    TimeDifference(req, now) == SecondsPerDay
  }

  /**
   * For a valid requested date and a clock within four-digit years, `is_today` holds exactly when
   * the requested date is the current UTC date, and `is_yesterday` exactly when it is the date
   * one day before.
   */
  lemma TodayAndYesterday(req: Request, now: int)
    requires Timestamp(req).Some? && 0 <= Date(now).Year() <= 9999
    ensures IsToday(req, now) <==> Civil(Timestamp(req).value) == Civil(now)
    ensures IsYesterday(req, now) <==> Civil(Timestamp(req).value) == Civil(now - SecondsPerDay)
  {
    var t := Timestamp(req).value;
    DaysApart(t, now, IsToday(req, now), IsYesterday(req, now));
  }

  /** Comparing day numbers is comparing UTC dates. */
  lemma DaysApart(t: int, now: int, today: bool, yesterday: bool)
    requires today <==> t / SecondsPerDay == now / SecondsPerDay
    requires yesterday <==> t / SecondsPerDay == now / SecondsPerDay - 1
    ensures today <==> Civil(t) == Civil(now)
    ensures yesterday <==> Civil(t) == Civil(now - SecondsPerDay)
  {
    PreviousDayNumber(now);
    SameCivilDay(t, now);
    SameCivilDay(t, now - SecondsPerDay);
  }

  lemma PreviousDayNumber(now: int)
    ensures (now - SecondsPerDay) / SecondsPerDay == now / SecondsPerDay - 1
  {
  }

  // ---------------------------------------------------------------------------------------------
  // maybe_sitemap_not_found

  /** A page: its ID and slug (`post_name`). */
  datatype Page = Page(id: int, slug: string)

  /** The parts of the main `WP_Query` that `maybe_sitemap_not_found` reads. */
  datatype MainQuery = MainQuery(
    isMainQuery: bool,
    isPage: bool,
    pageId: string,               // query var 'page_id', set by the sitemap rewrite rules
    page: string,                 // query var 'page', a pagination token
    queriedObject: Option<Page>)

  /**
   * `is_sitemap($page)`: whether the page has the slug 'sitemap'; without a page it falls back
   * to the queried page of the request, `current`.
   */
  predicate IsSitemap(page: Option<Page>, current: Option<Page>)
    ensures page.Some? ==> (IsSitemap(page, current) <==> page.value.slug == "sitemap")
    ensures page.None? ==>
      (IsSitemap(page, current) <==> current.Some? && current.value.slug == "sitemap")
  {
    var p := if page.Some? then page else current;
    p.Some? && p.value.slug == "sitemap"
  }

  /**
   * `timestamp_has_posts()`. `postsExist` is the answer of the one-post `WP_Query` for the
   * requested date; it is only asked when the timestamp is truthy, so an invalid date and
   * 1970-01-01 (timestamp 0) both count as having no posts.
   */
  predicate TimestampHasPosts(req: Request, postsExist: bool)
    ensures TimestampHasPosts(req, postsExist) ==>
      postsExist && IsValid(CivilDate(Year(req).GetOr(0), Month(req).GetOr(1), Day(req).GetOr(1)))
    ensures Timestamp(req).None? || Timestamp(req) == Some(0) ==> !TimestampHasPosts(req, postsExist)
  {
    var t := Timestamp(req);
    t.Some? && t.value != 0 && postsExist
  }

  /**
   * The main page query is for the sitemap page: the page is `get_post(page_id)` when the
   * query carries a non-zero 'page_id' (the routes of the plugin's rewrite rules), and otherwise
   * the queried object, which must then be present.
   */
  predicate OnSitemapPage(q: MainQuery, getPost: int -> Option<Page>, current: Option<Page>) {
    var id := IntVal(q.pageId);
    && q.isMainQuery && q.isPage
    && (id != 0 || q.queriedObject.Some?)
    && IsSitemap(if id != 0 then getPost(id) else q.queriedObject, current)
  }

  /**
   * The decision of `maybe_sitemap_not_found`: true where it calls `set_404()` and clears
   * 'page_id'. `getPost` is `get_post` and `current` the queried page of the request.
   */
  predicate NotFound(q: MainQuery, req: Request, getPost: int -> Option<Page>, current: Option<Page>,
                     postsExist: bool)
    ensures OnSitemapPage(q, getPost, current) ==>
      (NotFound(q, req, getPost, current, postsExist) <==>
         (!IsEmpty(q.page) || IsDateQuery(req)) && !TimestampHasPosts(req, postsExist))
    ensures !OnSitemapPage(q, getPost, current) ==> !NotFound(q, req, getPost, current, postsExist)
  {
    if !(q.isMainQuery && q.isPage) then false
    else
      var id := IntVal(q.pageId);
      if id == 0 && q.queriedObject.None? then false
      else
        var page := if id != 0 then getPost(id) else q.queriedObject;
        IsSitemap(page, current) && (!IsEmpty(q.page) || IsDateQuery(req)) && !TimestampHasPosts(req, postsExist)
  }

  /**
   * A 404 is only ever sent for the main page query of the sitemap page, when the request carries
   * a page number or a date, and the date has no posts.
   */
  lemma NotFoundNeedsDateWithoutPosts(q: MainQuery, req: Request, getPost: int -> Option<Page>,
                                      current: Option<Page>, postsExist: bool)
    requires NotFound(q, req, getPost, current, postsExist)
    ensures q.isMainQuery && q.isPage && OnSitemapPage(q, getPost, current)
    ensures !IsEmpty(q.page) || IsDateQuery(req)
    ensures !TimestampHasPosts(req, postsExist)
  {
  }

  /**
   * On the sitemap page, a date query whose month is not 0 (such as month 13 from the token
   * "202413") and whose day is not 0, and whose components do not form a valid date, is always a
   * 404, whatever the posts.
   */
  lemma InvalidDateIsNotFound(q: MainQuery, req: Request, getPost: int -> Option<Page>,
                              current: Option<Page>, postsExist: bool)
    requires OnSitemapPage(q, getPost, current)
    requires Month(req) != Some(0) && Day(req) != Some(0)
    requires IsDateQuery(req) && Timestamp(req).None?
    ensures NotFound(q, req, getPost, current, postsExist)
  {
  }

  /** The year-month token "202413" on the sitemap page is a 404. */
  lemma MonthThirteenIsNotFound(q: MainQuery, req: Request, getPost: int -> Option<Page>,
                                current: Option<Page>, postsExist: bool)
    requires OnSitemapPage(q, getPost, current)
    requires req.yearMonth == "202413"
    ensures NotFound(q, req, getPost, current, postsExist)
  {
    MonthThirteenIsDecoded(req);
    assert IsDateQuery(req) && Timestamp(req).None?;
  }

  /** A valid date other than 1970-01-01 that has posts is never a 404. */
  lemma DateWithPostsIsFound(q: MainQuery, req: Request, getPost: int -> Option<Page>,
                             current: Option<Page>)
    requires Timestamp(req).Some? && Timestamp(req).value != 0
    ensures !NotFound(q, req, getPost, current, true)
  {
  }
}
