/**
 * Routing of includes/class-plugin.php: the rewrite rules of the sitemap page, the canonical
 * URLs of its month and day views, and the round trip from a canonical URL back through the
 * rules to the requested date.
 */
module SitemapRoutes {
  import opened Wrappers
  import opened PhpStrings
  import opened DateHelper
  import Req = SitemapRequest

  /** One rewrite rule: the pattern matched against the request path and its query string. */
  datatype RewriteRule = RewriteRule(from: string, to: string)

  /**
   * `get_page_rewrite_rules`: the day rule, then the year-month rule, with the page slug in the
   * pattern and the page ID in the query.
   */
  function PageRewriteRules(slug: string, id: int): (rules: seq<RewriteRule>)
    ensures |rules| == 2
    ensures rules[0].from == slug + "/(\\d{6})(\\d{1,2})/?"
    ensures rules[1].from == slug + "/(\\d{6})/?"
    ensures rules[0].to == "index.php?page_id=" + IntToString(id) + "&" + Req.QueryVarYearMonth
      + "=$matches[1]&" + Req.QueryVarDay + "=$matches[2]"
    ensures rules[1].to == "index.php?page_id=" + IntToString(id) + "&" + Req.QueryVarYearMonth
      + "=$matches[1]"
  {
    var query := "index.php?page_id=" + IntToString(id) + "&" + Req.QueryVarYearMonth + "=$matches[1]";
    [ RewriteRule(slug + "/(\\d{6})(\\d{1,2})/?", query + "&" + Req.QueryVarDay + "=$matches[2]"),
      RewriteRule(slug + "/(\\d{6})/?", query) ]
  }

  /**
   * The query variables the two rules of `PageRewriteRules` give a request path (relative to the
   * site root), tried in order and anchored at the start as WordPress anchors them. The first
   * branch reads the day rule `<slug>/(\d{6})(\d{1,2})/?`: seven or more digits after "<slug>/",
   * the first six as `$matches[1]` and the greedy `\d{1,2}` taking the next one or two as
   * `$matches[2]`. The second branch reads the year-month rule `<slug>/(\d{6})/?`: exactly six
   * digits. None when neither rule matches.
   */
  function Route(path: string, slug: string): (r: Option<(string, string)>)
    ensures r.Some? ==> |r.value.0| == 6 && AllDigits(r.value.0) && AllDigits(r.value.1)
    ensures r.Some? ==> 0 <= |r.value.1| <= 2
  {
    if !(slug + "/" <= path) then None
    else
      var digits := LeadingDigits(path[|slug| + 1..]);
      if |digits| >= 7 then
        var dayEnd := if |digits| >= 8 then 8 else 7;
        Some((digits[..6], digits[6..dayEnd]))
      else if |digits| == 6 then
        Some((digits, ""))
      else
        None
  }

  /** The request a routed path makes on the sitemap page. */
  function RoutedRequest(vars: (string, string)): Req.Request {
    Req.Request(true, vars.0, vars.1)
  }

  /**
   * `user_trailingslashit` for a permalink structure with (`withSlash`) or without a trailing
   * slash: trailing slashes and backslashes are dropped, and one slash is added back if wanted.
   */
  function UserTrailingSlashIt(s: string, withSlash: bool): string {
    RTrim(s, {'/', '\\'}) + (if withSlash then "/" else "")
  }

  /**
   * `url($paths)`: the page's permalink without trailing slashes, a slash, the joined paths, and
   * `user_trailingslashit` on the whole. Paths that end in a digit are kept as they are, followed
   * by one slash exactly when the permalink structure wants it.
   */
  function Url(permalink: string, paths: seq<string>, withSlash: bool): (r: string)
    ensures var p := Concat(paths);
      p != [] && IsDigit(p[|p| - 1]) ==>
        r == RTrim(permalink, {'/'}) + "/" + p + (if withSlash then "/" else "")
  {
    var p := Concat(paths);
    var base := RTrim(permalink, {'/'}) + "/" + p;
    if p != [] && IsDigit(p[|p| - 1]) then
      assert base[|base| - 1] == p[|p| - 1];
      NoTrailingSlash(base);
      UserTrailingSlashIt(base, withSlash)
    else
      UserTrailingSlashIt(base, withSlash)
  }

  /** The year and padded month of a timestamp, as `url_month` joins them. */
  function MonthSegment(t: int): string {
    var d := Date(t);
    IntToString(d.Year()) + Pad(d.Month())
  }

  /** The year, padded month and padded day of a timestamp, as `url_day` joins them. */
  function DaySegment(t: int): string {
    MonthSegment(t) + Pad(Date(t).Day())
  }

  /**
   * `url_month`: the trimmed permalink, a slash, the year-month segment of `t`, and a slash when
   * the permalinks have one.
   */
  function UrlMonth(permalink: string, t: int, withSlash: bool): (r: string)
    ensures r == RTrim(permalink, {'/'}) + "/" + MonthSegment(t) + (if withSlash then "/" else "")
  {
    var d := Date(t);
    MonthPaths(t);
    Url(permalink, [IntToString(d.Year()), Pad(d.Month())], withSlash)
  }

  /**
   * `url_day`: the trimmed permalink, a slash, the day segment of `t`, and a slash when the
   * permalinks have one.
   */
  function UrlDay(permalink: string, t: int, withSlash: bool): (r: string)
    ensures r == RTrim(permalink, {'/'}) + "/" + DaySegment(t) + (if withSlash then "/" else "")
  {
    var d := Date(t);
    DayPaths(t);
    Url(permalink, [IntToString(d.Year()), Pad(d.Month()), Pad(d.Day())], withSlash)
  }

  /** The paths of `url_month` join to the month segment, which ends in a digit. */
  lemma MonthPaths(t: int)
    ensures var s := MonthSegment(t);
      Concat([IntToString(Date(t).Year()), Pad(Date(t).Month())]) == s && s != [] && IsDigit(s[|s| - 1])
  {
    var d := Date(t);
    PadTwoDigits(d.Month());
    ConcatAppend([IntToString(d.Year())], Pad(d.Month()));
    assert Concat([IntToString(d.Year())]) == IntToString(d.Year()) by {
      assert [IntToString(d.Year())][..0] == [];
    }
    assert [IntToString(d.Year())] + [Pad(d.Month())] == [IntToString(d.Year()), Pad(d.Month())];
    var s := MonthSegment(t);
    assert s[|s| - 1] == Pad(d.Month())[1];
  }

  /** The paths of `url_day` join to the day segment, which ends in a digit. */
  lemma DayPaths(t: int)
    ensures var s := DaySegment(t);
      Concat([IntToString(Date(t).Year()), Pad(Date(t).Month()), Pad(Date(t).Day())]) == s
      && s != [] && IsDigit(s[|s| - 1])
  {
    var d := Date(t);
    var ms := [IntToString(d.Year()), Pad(d.Month())];
    MonthPaths(t);
    PadTwoDigits(d.Day());
    ConcatAppend(ms, Pad(d.Day()));
    assert ms + [Pad(d.Day())] == [IntToString(d.Year()), Pad(d.Month()), Pad(d.Day())];
    var s := DaySegment(t);
    assert s[|s| - 1] == Pad(d.Day())[1];
  }

  /** A number below 100 pads to exactly two digits. */
  lemma PadTwoDigits(n: int)
    requires 0 <= n <= 99
    ensures |Pad(n)| == 2 && AllDigits(Pad(n)) && DigitsValue(Pad(n)) == n
  {
    if n >= 10 {
      assert |NatToString(n / 10)| == 1;
    }
  }

  /** For a four-digit year the month segment is six digits: the year, then the padded month. */
  lemma MonthSegmentShape(t: int)
    requires 1000 <= Date(t).Year() <= 9999
    ensures var s := MonthSegment(t);
      && |s| == 6 && AllDigits(s)
      && DigitsValue(s[..4]) == Date(t).Year() && DigitsValue(s[4..]) == Date(t).Month()
  {
    var d := Date(t);
    var y := IntToString(d.Year());
    NatToStringOfFourDigits(d.Year());
    DigitsValueOfNatToString(d.Year());
    PadTwoDigits(d.Month());
    var s := MonthSegment(t);
    assert s[..4] == y && s[4..] == Pad(d.Month());
  }

  /** The day segment is eight digits: the month segment, then the padded day. */
  lemma DaySegmentShape(t: int)
    requires 1000 <= Date(t).Year() <= 9999
    ensures var s := DaySegment(t);
      && |s| == 8 && AllDigits(s) && s[..6] == MonthSegment(t) && DigitsValue(s[6..]) == Date(t).Day()
  {
    MonthSegmentShape(t);
    PadTwoDigits(Date(t).Day());
    var s := DaySegment(t);
    assert s[6..] == Pad(Date(t).Day());
  }

  /** `rtrim` leaves a string that ends in a digit alone. */
  lemma NoTrailingSlash(s: string)
    requires s != [] && IsDigit(s[|s| - 1])
    ensures RTrim(s, {'/', '\\'}) == s
  {
  }

  /** A segment of digits after "<slug>/" is the digit run the rules look at. */
  lemma RouteOfSegment(slug: string, seg: string, trail: string)
    requires AllDigits(seg) && (trail == "" || trail == "/")
    ensures var digits := LeadingDigits((slug + "/" + seg + trail)[|slug| + 1..]);
      digits == seg
  {
    var path := slug + "/" + seg + trail;
    assert path[|slug| + 1..] == seg + trail;
    LeadingDigitsAppend(seg, trail);
  }

  /** Six digits select the year-month rule, eight the day rule. */
  lemma RouteOfDigits(slug: string, seg: string, trail: string)
    requires AllDigits(seg) && (|seg| == 6 || |seg| == 8) && (trail == "" || trail == "/")
    ensures |seg| == 6 ==> Route(slug + "/" + seg + trail, slug) == Some((seg, ""))
    ensures |seg| == 8 ==> Route(slug + "/" + seg + trail, slug) == Some((seg[..6], seg[6..]))
  {
    var path := slug + "/" + seg + trail;
    RouteOfSegment(slug, seg, trail);
    assert slug + "/" <= path;
    assert LeadingDigits(path[|slug| + 1..]) == seg;
    if |seg| == 8 {
      TailOfEight(seg);
      assert Route(path, slug) == Some((seg[..6], seg[6..8]));
    } else {
      assert Route(path, slug) == Some((seg, ""));
    }
  }

  lemma TailOfEight(seg: string)
    requires |seg| == 8
    ensures seg[6..8] == seg[6..]
  {
  }

  lemma SixCharacterSlices(token: string)
    requires |token| == 6
    ensures Substr(token, 0, 4) == token[..4] && Substr(token, 4, 2) == token[4..]
    ensures !IsEmpty(token)
  {
  }

  /** A six-digit year-month token decodes to the values of its first four and last two digits. */
  lemma TokenOfDigits(token: string, day: string)
    requires AllDigits(token) && |token| == 6
    ensures Req.Year(Req.Request(true, token, day)) == Some(DigitsValue(token[..4]) as int)
    ensures Req.Month(Req.Request(true, token, day)) == Some(DigitsValue(token[4..]) as int)
  {
    SixCharacterSlices(token);
    Req.DigitTokenDecodes(Req.Request(true, token, day));
  }

  /**
   * A month URL routes back to its month: the year-month rule matches, `year()` and `month()`
   * give the timestamp's year and month, the request is a month view, and its timestamp is
   * midnight UTC on the first of that month.
   */
  lemma MonthUrlRoundTrip(slug: string, t: int, trail: string)
    requires 1000 <= Date(t).Year() <= 9999 && (trail == "" || trail == "/")
    ensures var r := Route(slug + "/" + MonthSegment(t) + trail, slug);
      && r == Some((MonthSegment(t), ""))
      && Req.Year(RoutedRequest(r.value)) == Some(Date(t).Year())
      && Req.Month(RoutedRequest(r.value)) == Some(Date(t).Month())
      && Req.IsMonth(RoutedRequest(r.value))
      && Req.Timestamp(RoutedRequest(r.value)) == Make(Date(t).Year(), Some(Date(t).Month()), Some(1))
  {
    var seg := MonthSegment(t);
    MonthSegmentShape(t);
    RouteOfDigits(slug, seg, trail);
    TokenOfDigits(seg, "");
    var req := Req.Request(true, seg, "");
    assert RoutedRequest((seg, "")) == req;
    MonthRequestOf(req, Date(t).Year(), Date(t).Month());
  }

  /** A request naming a month of a year and no day is a month view of the first of that month. */
  lemma MonthRequestOf(req: Req.Request, y: int, m: int)
    requires req.onSitemap && req.day == ""
    requires Req.Year(req) == Some(y) && Req.Month(req) == Some(m) && 1 <= m
    ensures Req.IsMonth(req)
    ensures Req.Timestamp(req) == Make(y, Some(m), Some(1))
  {
    assert Req.Day(req) == None;
    assert Req.Timestamp(req) == Make(y, Some(m), None);
  }

  /** The request a day URL routes to names the timestamp's calendar date. */
  lemma DayUrlDecodes(t: int)
    requires 1000 <= Date(t).Year() <= 9999
    ensures var req := Req.Request(true, MonthSegment(t), Pad(Date(t).Day()));
      && Req.Year(req) == Some(Date(t).Year())
      && Req.Month(req) == Some(Date(t).Month())
      && Req.Day(req) == Some(Date(t).Day())
  {
    var ms := MonthSegment(t);
    var dd := Pad(Date(t).Day());
    MonthSegmentShape(t);
    PadTwoDigits(Date(t).Day());
    TokenOfDigits(ms, dd);
    DigitStringIntVal(dd);
    assert !IsEmpty(dd);
  }

  /**
   * A day URL routes back to its day: the day rule matches, `year()`, `month()` and `day()` give
   * the timestamp's calendar date, the request is a day view, and its timestamp is midnight UTC
   * of that day.
   */
  lemma DayUrlRoundTrip(slug: string, t: int, trail: string)
    requires 1000 <= Date(t).Year() <= 9999 && (trail == "" || trail == "/")
    ensures var r := Route(slug + "/" + DaySegment(t) + trail, slug);
      && r == Some((MonthSegment(t), Pad(Date(t).Day())))
      && Req.Year(RoutedRequest(r.value)) == Some(Date(t).Year())
      && Req.Month(RoutedRequest(r.value)) == Some(Date(t).Month())
      && Req.Day(RoutedRequest(r.value)) == Some(Date(t).Day())
      && Req.IsDay(RoutedRequest(r.value))
      && Req.Timestamp(RoutedRequest(r.value)).Some?
      && Req.Timestamp(RoutedRequest(r.value)).value <= t < Req.Timestamp(RoutedRequest(r.value)).value + SecondsPerDay
  {
    var seg := DaySegment(t);
    var ms := MonthSegment(t);
    var dd := Pad(Date(t).Day());
    DaySegmentShape(t);
    PadTwoDigits(Date(t).Day());
    assert seg[..6] == ms && seg[6..] == dd;
    RouteOfDigits(slug, seg, trail);
    DayUrlDecodes(t);
    var req := Req.Request(true, ms, dd);
    assert RoutedRequest((ms, dd)) == req;
    MakeOfComponentsIsMidnight(t);
  }
}
