# sitemap-html in Dafny

A model of the core of the WordPress plugin **sitemap-html** (xwp), which serves a dated HTML
sitemap from a page with the slug `sitemap`. The sitemap has three views:

- the index lists every month with published posts, grouped by year;
- `/sitemap/YYYYMM/` lists the days of one month;
- `/sitemap/YYYYMMDD/` lists the posts of one day.

The model covers:

- the UTC calendar helper `Date`;
- the cached date index `Posts`, which is one list of day timestamps kept in the option store;
- the request logic of `Plugin`:
  - decoding the route tokens, and the view predicates;
  - the 404 decision;
  - the `Cache-Control` rewrite;
  - the cron rounding of timestamps;
  - the publish-status test;
  - URLs and rewrite rules;
  - the link sections, breadcrumbs and HTML markup of the `[sitemap-html-dated]` shortcode.

Modules, one file each:

| module | file | models |
|---|---|---|
| `Wrappers` | wrappers.dfy | `Option`, standing for PHP's `null`/`false` results |
| `PhpStrings` | php_strings.dfy | the PHP builtins the plugin relies on: `intval`, `absint`, `is_numeric`, `empty`, `substr`, `strpos`, `implode`, `rtrim`, `sprintf('%d')` |
| `DateHelper` | date_helper.dfy | `Date` (includes/class-date.php), with `gmdate`/`strtotime` in UTC written out through the epoch formula of section 4.16 of POSIX.1-2017 Base Definitions |
| `FirstOccurrence` | first_occurrence.dfy | first-occurrence deduplication by a key, which is the pattern behind `months()` and `array_unique` |
| `PostIndex` | posts.dfy | `Posts` (includes/class-posts.php), as a `class` whose option store is a `map` field |
| `SitemapRequest` | plugin_request.dfy | route tokens, view predicates, `timestamp`, today/yesterday, and `maybe_sitemap_not_found` |
| `HeaderFilter` | plugin_headers.dfy | `cache_headers` and its `s-maxage` rewrite (section 5.2.2.10 of RFC 9111) |
| `Schedule` | plugin_schedule.dfy | `timestamp_top_hour`, `timestamp_quarter_hour`, `has_post_published_status_changed` |
| `SitemapRoutes` | plugin_routes.dfy | `get_page_rewrite_rules`, `url`, `url_month`, `url_day`, and the two rewrite patterns |
| `SitemapRender` | plugin_render.dfy | `links_by_years`, `links_by_months`, `get_breadcrumbs_markup`, `get_sitemap_html_markup`, `render_sitemap_html_shortcode` |

Each loop of the source is a `method`, proved equal to a specification function. The properties
the plugin promises are then lemmas about those functions. This holds for:

- `months()` and `by_years()`;
- `query_post_types_in()`;
- `links_by_years()`;
- the two markup builders;
- the section and breadcrumb assembly of the shortcode.

`update()` changes the option store, so `Posts` is a class with `modifies` on `Update`.

WordPress collaborators are parameters:

- the clock;
- `md5` and `esc_sql`;
- the escaping functions, `date_i18n` and `get_permalink`;
- the permalink structure;
- the posts of a day;
- the answer of the "has posts" query.

## Model

| member | source | states |
|---|---|---|
| DateHelper.Civil | includes/class-date.php:33-62 | The UTC calendar date of any timestamp is a valid date: month in 1..12, day within the month's length. |
| DateHelper.Date.Month | includes/class-date.php:51-53 | `month()` is between 1 and 12. |
| DateHelper.Date.Day | includes/class-date.php:42-44 | `day()` is between 1 and the number of days of that month and year. |
| DateHelper.Date.Year | includes/class-date.php:60-62 | The timestamp lies between the start of `year()` and the start of the next year. |
| DateHelper.CivilBounds | includes/class-date.php:33-62 | The midnight of a timestamp's date is at most the timestamp, less than a day before it, and divisible by 86400. |
| DateHelper.CivilFromDayIsDay | includes/class-date.php:33-62 | The date computed for day number n lies exactly n days after 1970-01-01, for negative n too. |
| DateHelper.YearStartStep | includes/class-date.php:73-85 | Consecutive year starts of the epoch formula differ by 365 or 366 days, following the Gregorian leap rule. |
| DateHelper.EpochDayMonotone | includes/class-date.php:73-85 | An earlier valid date gets a strictly smaller day number. |
| DateHelper.EpochDayInjective | includes/class-date.php:73-85 | Two valid dates with the same day number are the same date. |
| DateHelper.CivilOfEpochSeconds | includes/class-date.php:33-85 | Round trip: the date of the timestamp of a valid date is that date. |
| DateHelper.CivilMonotone | includes/class-date.php:33-62 | A later timestamp never has an earlier date. |
| DateHelper.SameCivilDay | includes/class-date.php:33-62 | Two timestamps have the same date exactly when they have the same floored day number. |
| DateHelper.Make | includes/class-date.php:73-85 | A missing or non-numeric month or day is read as 1. The result is a timestamp exactly when the year is 0..9999 and the date is valid, and `false` otherwise. The timestamp decomposes back to the same year, month and day, and is a UTC midnight. |
| DateHelper.MakeOfComponentsIsMidnight | includes/class-date.php:33-85 | `make(year(t), month(t), day(t))` succeeds and is UTC midnight of the day of t: at most t, less than a day before it, and a multiple of 86400. |
| DateHelper.MakeDefaults | includes/class-date.php:73-75 | `make(y)` equals `make(y, 1, 1)` and never fails for years 0..9999. |
| DateHelper.Pad | includes/class-date.php:94-96 | The result has at least two characters. It is '0' plus the digit for 0..9, and the plain decimal for n ≥ 10. For n ≥ 0 its digits read back as n. |
| PhpStrings.DigitsValueOfNatToString | includes/class-date.php:94-96 | The decimal text of a number reads back as that number. |
| PhpStrings.DigitStringIntVal | includes/class-plugin.php:503-546 | `intval` of a digit string is the value of its digits. |
| PhpStrings.IntVal | includes/class-plugin.php:503-546 | `intval` is negative only for text that starts with '-' after leading space, and 0 for text that does not start with a digit or sign. |
| PhpStrings.AbsInt | includes/class-plugin.php:503-546 | `absint` is 0 exactly when `intval` is 0, and the value of the digits for a digit string. |
| PhpStrings.IsNumeric | includes/class-plugin.php:506 | Numeric text holds a digit. |
| PhpStrings.IsEmpty | includes/class-plugin.php:503-546 | `empty()` text ('' or '0') has `intval` 0. |
| PhpStrings.DigitStringIsNumeric | includes/class-plugin.php:506 | A non-empty digit string is numeric. |
| PhpStrings.IndexOf | includes/class-plugin.php:144 | `strpos` gives the first position where the needle occurs, or `false` when it occurs nowhere. |
| PhpStrings.LeadingDigitsAppend | includes/class-plugin.php:145 | A run of digits followed by a non-digit is exactly the longest leading run of digits, as `\d+` takes it. |
| PhpStrings.RTrim | includes/class-plugin.php:596 | `rtrim` keeps a prefix of the input that does not end in a trimmed character, and every character it removes is in the set: the result is the longest such prefix. |
| PhpStrings.JoinAppend | includes/class-posts.php:111 | `implode` of one more part adds the separator and the part. |
| FirstOccurrence.DedupAppend | includes/class-posts.php:169-175 | One loop step: an element is added exactly when its key has not been seen. |
| FirstOccurrence.DedupIsFirstOccurrences | includes/class-posts.php:166-178 | Deduplication keeps one element per key, namely the first with that key, and keeps these in the order of first occurrence. |
| FirstOccurrence.DedupKeys | includes/class-posts.php:166-178 | Deduplication keeps every key of the input, and only elements of the input. |
| FirstOccurrence.CoarseKeysOfDedup | includes/class-posts.php:213-221 | Deduplicating by month loses no year. |
| FirstOccurrence.DedupRefines | includes/class-posts.php:213-221 | Deduplicating by month, then by year, equals deduplicating by year. |
| PostIndex.DaysOf | includes/class-posts.php:185-206 | `days()` is empty exactly when the stored value is missing, not an array, or an empty array. Otherwise it has one record per cached timestamp. |
| PostIndex.DayOfComponents | includes/class-posts.php:194-203 | For a year ≥ 0 a record is the UTC (year, month, day) of its timestamp, and a `false` entry reads as timestamp 0. For a negative year the minus sign shifts the fields. |
| PostIndex.MapSeqElements | includes/class-posts.php:194-205 | Record i is the callback applied to cached entry i, so order and length are kept. |
| PostIndex.ParseRows | includes/class-posts.php:140-145 | `update()` converts every row with `strtotime`, in order. |
| PostIndex.UpdateRoundTrip | includes/class-posts.php:136-205 | `days()` decodes the list written by `update()` back to exactly the rows' dates, in order. |
| PostIndex.MonthsAreFirstOccurrences | includes/class-posts.php:166-178 | `months()` keeps one record per (year, month), the first in cache order, in first-occurrence order. |
| PostIndex.YearIndex | includes/class-posts.php:217 | Finds the existing entry of a year, and reports none only when no entry has that year. |
| PostIndex.MonthsInMembers | includes/class-posts.php:213-221 | The months grouped under a year are exactly the months recorded for it. |
| PostIndex.MonthsInDistinct | includes/class-posts.php:213-221 | Over distinct (year, month) records, the months of a year are distinct. |
| PostIndex.GroupByYearSpec | includes/class-posts.php:213-221 | Grouping lists each year of the records once, in first-occurrence order. Each year holds the months recorded for it, in order, and the list is never empty. |
| PostIndex.AddMonthSpec | includes/class-posts.php:217 | One `$by_year[$year][] = $month` step keeps that grouping. |
| PostIndex.ByYearsSpec | includes/class-posts.php:213-221 | `by_years()` lists the cached years once each, in first-occurrence order. Every year holds a non-empty list of distinct months. |
| PostIndex.ByYearsMembers | includes/class-posts.php:213-221 | (y, m) appears in `by_years()` exactly when some cached day has year y and month m. |
| PostIndex.MonthDaysMembers | includes/class-posts.php:231-245 | The filter and map keep exactly the (original key, day of month) pairs of that month's days, with increasing keys. |
| PostIndex.ByMonthsSound | includes/class-posts.php:231-248 | Every entry of `by_months(y, m)` is the first occurrence of its day value in that month, under its original key, with keys in cache order. |
| PostIndex.ByMonthsComplete | includes/class-posts.php:231-248 | Every first occurrence of a day value in that month is in `by_months(y, m)`. |
| PostIndex.ByMonthsEmpty | includes/class-posts.php:231-248 | `by_months(y, m)` is empty exactly when no cached day falls in that month. |
| PostIndex.Posts.constructor | includes/class-posts.php:34-37 | Stores the collaborators, with the post types defaulting to `['post']`. |
| PostIndex.Posts.CacheKey | includes/class-posts.php:46-51 | The key starts with 'sitemap-html-posts-'. The rest is the hash of the query text followed by the post types joined by '/'. |
| PostIndex.Posts.QuotedTypes | includes/class-posts.php:104-112 | One entry per post type: that type escaped and put in single quotes. |
| PostIndex.Posts.QueryPostTypesIn | includes/class-posts.php:104-112 | The loop yields the quoted types joined by ', '. That is one quoted type for one type, and '' for none. |
| PostIndex.Posts.CacheGet | includes/class-posts.php:73-81 | The value stored under the query's key, or `false` when there is none. |
| PostIndex.Posts.CacheSet | includes/class-posts.php:89-97 | Overwrites the query's key in the store and nothing else. |
| PostIndex.Posts.QueryForDays | includes/class-posts.php:119-127 | The query selects distinct days from the posts table, with the quoted post types inside `IN (...)`, followed by the 'publish' filter and the ordering. |
| PostIndex.Posts.IsCached | includes/class-posts.php:157-159 | Cached means an array is stored under the days query's key, so it implies the key is present. When not cached, `days()` is empty. |
| PostIndex.Posts.Days | includes/class-posts.php:185-206 | `days()` is empty unless an array is stored. Otherwise it has one record per entry, in order, each the date of its entry. |
| PostIndex.Posts.EmptyArrayIsCached | includes/class-posts.php:157-159 | A stored empty array counts as cached, although `days()` is empty. |
| PostIndex.Posts.ByMonths | includes/class-posts.php:231-248 | Every entry is the first occurrence of its day value in that month, under its original key. Every first occurrence is present, and keys are increasing. |
| PostIndex.Posts.Update | includes/class-posts.php:136-159 | Returns the parsed rows and stores them under the days query's key, and changes nothing else. Afterwards `is_cached()` holds and `days()` decodes exactly that list. |
| PostIndex.Posts.Months | includes/class-posts.php:166-178 | The `isset` loop yields the first-occurrence deduplication of `days()` by (year, month). |
| PostIndex.Posts.ByYears | includes/class-posts.php:213-221 | The loop yields the grouping of `months()` by year. |
| SitemapRequest.Year | includes/class-plugin.php:503-511 | Defined exactly when the token is non-empty and numeric, and never negative. |
| SitemapRequest.Month | includes/class-plugin.php:520-528 | Defined exactly when the token is non-empty and numeric, and never negative. |
| SitemapRequest.Day | includes/class-plugin.php:538-546 | Defined exactly when the day token is non-empty, and never negative. |
| SitemapRequest.DigitTokenDecodes | includes/class-plugin.php:503-528 | For a digit token, the year is the value of characters 1-4 and the month the value of characters 5-6. |
| SitemapRequest.MonthThirteenIsDecoded | includes/class-plugin.php:520-528 | "202413" decodes to year 2024 and month 13, because there is no range check. |
| SitemapRequest.ViewsAreExclusive | includes/class-plugin.php:444-464 | At most one of root, month and day holds. On the sitemap one holds unless there is a day without a month, and off the sitemap none holds. |
| SitemapRequest.IsDateQuery | includes/class-plugin.php:435-437 | A date query needs a non-empty year-month token or a non-empty day token. |
| SitemapRequest.IsRoot | includes/class-plugin.php:444-446 | The sitemap page with empty tokens is the root. On the root a decoded month can only be 0. |
| SitemapRequest.IsMonth | includes/class-plugin.php:453-455 | A month view is on the sitemap, with a non-empty numeric year-month token and a day that is empty or reads as 0. |
| SitemapRequest.IsDay | includes/class-plugin.php:462-464 | A day view is on the sitemap, with a non-empty numeric year-month token and a non-empty day that does not read as 0. |
| SitemapRequest.Timestamp | includes/class-plugin.php:644-646 | A timestamp exists exactly when the year is at most 9999 and the decoded date, with missing parts read as 1, is valid. It is the UTC midnight of that date. |
| SitemapRequest.TimeDifference | includes/class-plugin.php:489-493 | For a valid request and a clock year in 0..9999, the difference is 86400 times the number of days between the request's date and the clock's date. |
| SitemapRequest.IsToday | includes/class-plugin.php:471-473 | For a valid request and a clock year in 0..9999, `is_today` holds exactly when the request's day number equals the clock's. |
| SitemapRequest.IsYesterday | includes/class-plugin.php:480-482 | For a valid request and a clock year in 0..9999, `is_yesterday` holds exactly when the request's day number is one less than the clock's. |
| SitemapRequest.IsSitemap | includes/class-plugin.php:568-575 | A given page is the sitemap exactly when its slug is 'sitemap'. Without one, the request's queried page decides. |
| SitemapRequest.TimestampHasPosts | includes/class-plugin.php:401-428 | True only when the posts query finds posts and the decoded date is valid. False when there is no timestamp or it is 0. |
| SitemapRequest.NotFound | includes/class-plugin.php:213-231 | When the main page query is on the sitemap page, a 404 happens exactly for a page number or a date query without posts. Otherwise it never happens. The page is `get_post(page_id)` on the plugin's rewrite routes, which carry a non-zero 'page_id', and the queried object elsewhere. |
| SitemapRequest.TodayAndYesterday | includes/class-plugin.php:471-493 | For a valid requested date, `is_today` holds exactly when it is the UTC date of the clock. `is_yesterday` holds exactly when it is the UTC date one day earlier. |
| SitemapRequest.NotFoundNeedsDateWithoutPosts | includes/class-plugin.php:213-231 | A 404 only happens when the main page query is on the sitemap page, with a page number or a date query, and the date has no posts. |
| SitemapRequest.InvalidDateIsNotFound | includes/class-plugin.php:213-231 | On the sitemap page, a date query with an invalid date is a 404, whether it arrives through a rewrite route with 'page_id' or as the queried object. Months and days of 00 are excluded. |
| SitemapRequest.MonthThirteenIsNotFound | includes/class-plugin.php:213-231 | On the sitemap page, /sitemap/202413/ is a 404, including its rewrite route with 'page_id'. |
| SitemapRequest.DateWithPostsIsFound | includes/class-plugin.php:213-231 | A valid non-zero date that has posts is never a 404. |
| HeaderFilter.SMaxAgeTextValue | includes/class-plugin.php:137 | The directive's number is 30 days in seconds. |
| HeaderFilter.ReplaceSMaxAge | includes/class-plugin.php:145 | The replacement is empty only for empty text. A match at the start becomes the directive "s-maxage=2592000". Otherwise the first character is kept. |
| HeaderFilter.KeepFront | includes/class-plugin.php:145 | The replacement leaves the first nine characters alone, and keeps a digit in the tenth position exactly where there was one. |
| HeaderFilter.ReplaceIdempotent | includes/class-plugin.php:145 | Running the `s-maxage=\d+` replacement twice gives the same text as running it once. |
| HeaderFilter.NoMatchPrefix | includes/class-plugin.php:145 | Text in which no match starts is copied unchanged. |
| HeaderFilter.OccurrenceKept | includes/class-plugin.php:144-145 | After the replacement, "s-maxage" still occurs. |
| HeaderFilter.DefaultIsFixed | includes/class-plugin.php:141 | The header written where there was none is left unchanged by the replacement. |
| HeaderFilter.DefaultMentionsSMaxAge | includes/class-plugin.php:141 | `strpos` finds "s-maxage" in that header. |
| HeaderFilter.AppendedIsFixed | includes/class-plugin.php:149 | A header with the directive appended is left unchanged by the replacement. |
| HeaderFilter.AppendedIsFound | includes/class-plugin.php:149 | `strpos` finds the appended directive. |
| HeaderFilter.RewriteCacheControlAsWritten | includes/class-plugin.php:140-150 | As written, only 'Cache-Control' is set, and every other header keeps its value. |
| HeaderFilter.RewriteCacheControl | includes/class-plugin.php:140-150 | As intended, only 'Cache-Control' is set, and every other header keeps its value. |
| HeaderFilter.RewriteIdempotent | includes/class-plugin.php:137-150 | The intended rewrite applied twice equals the rewrite applied once. |
| HeaderFilter.LeadingSMaxAgeIsAppended | includes/class-plugin.php:144-149 | With "s-maxage=600" the code as written appends a second directive, and one more on every pass. The intended rewrite replaces it. |
| HeaderFilter.KeepsHeaders | includes/class-plugin.php:133-135 | Headers are changed only on a sitemap page with a day that is neither today nor yesterday. Every day view other than today and yesterday is changed. |
| HeaderFilter.FilteredHeaders | includes/class-plugin.php:130-152 | As written, with `strpos` truthiness: headers are returned untouched off the sitemap, on the index and month pages, and for today and yesterday. Otherwise only 'Cache-Control' changes. |
| HeaderFilter.FilteredHeadersIntended | includes/class-plugin.php:130-152 | The same filter with the intended `false !== strpos` test: untouched where the page is not cached, otherwise only 'Cache-Control' changes. |
| HeaderFilter.CachedPagesAreOlderDays | includes/class-plugin.php:130-135 | Headers change only on a sitemap page with a day that is neither today nor yesterday. With a month as well, that page is a day page. |
| HeaderFilter.RewriteAsWrittenIdempotent | includes/class-plugin.php:137-150 | For a Cache-Control that does not begin with "s-maxage", the rewrite as written leaves a header in which `strpos` finds "s-maxage" at a non-zero position, and a second rewrite changes nothing. |
| HeaderFilter.CacheHeadersIdempotent | includes/class-plugin.php:130-152 | As written, filtering twice equals filtering once, for headers whose Cache-Control does not begin with "s-maxage". |
| HeaderFilter.CacheHeadersIntendedIdempotent | includes/class-plugin.php:130-152 | With the intended test, filtering twice equals filtering once, for all headers. |
| HeaderFilter.CacheHeaders | includes/class-plugin.php:130-152 | The in-place update of `$headers`, with the `strpos` test as written, computes the as-written filtered headers. |
| Schedule.TruncDiv | includes/class-plugin.php:343 | `intval` of a quotient truncates toward zero: below the dividend for t ≥ 0, above it for t < 0. |
| Schedule.TopOfHour | includes/class-plugin.php:342-344 | The result is a multiple of 3600. For t ≥ 0 it is the largest one ≤ t. For t < 0 it rounds toward zero. |
| Schedule.QuarterHour | includes/class-plugin.php:353-355 | The result is a multiple of 900. For t ≥ 0 it is the largest one ≤ t. For t < 0 it rounds toward zero. |
| Schedule.QuarterHourIsMultiple | includes/class-plugin.php:353-355 | Multiplying by 3600 then dividing by 4 is exact: the result is the truncated quotient by 900, times 900. |
| Schedule.TopOfHourIdempotent | includes/class-plugin.php:342-344 | Rounding a time already on the hour changes nothing. |
| Schedule.QuarterHourIdempotent | includes/class-plugin.php:353-355 | Rounding a time already on a quarter hour changes nothing. |
| Schedule.TopOfHourIsQuarterHour | includes/class-plugin.php:342-355 | A time on the hour is on a quarter hour. |
| Schedule.QuarterHourWithinHour | includes/class-plugin.php:299-318 | For t ≥ 0, the one-time update falls between the daily event's hour and the clock. |
| Schedule.PublishedStatusChanged | includes/class-plugin.php:290-292 | The status changed exactly when the post entered or left 'publish'. |
| Schedule.SchedulesOnPostChange | includes/class-plugin.php:258-262 | An update is scheduled exactly when the post entered or left 'publish' and its type is one of the sitemap's post types. |
| Schedule.UnpublishedEditsDoNotSchedule | includes/class-plugin.php:258-262 | Edits of a published post, and changes among unpublished states, never schedule an update. |
| SitemapRoutes.PageRewriteRules | includes/class-plugin.php:364-394 | The day rule, then the year-month rule, with the page slug in the pattern and the page ID and query variables in the target. |
| SitemapRoutes.Route | includes/class-plugin.php:366-382 | A matched path gives a 6-digit year-month token and a day token of at most two digits. |
| SitemapRoutes.PadTwoDigits | includes/class-date.php:94-96 | A number below 100 pads to exactly two digits that read back as the number. |
| SitemapRoutes.MonthSegmentShape | includes/class-plugin.php:609-619 | For a 4-digit year the month segment is 6 digits: the year, then the month. |
| SitemapRoutes.DaySegmentShape | includes/class-plugin.php:627-637 | The day segment is 8 digits: the month segment, then the day. |
| SitemapRoutes.Url | includes/class-plugin.php:592-601 | For paths ending in a digit, the URL is the permalink without trailing slashes, '/', the joined paths, and a slash when the permalink structure wants one. |
| SitemapRoutes.UrlMonth | includes/class-plugin.php:609-619 | `url_month(t)` is the trimmed permalink, '/', t's month segment, and the optional trailing slash. |
| SitemapRoutes.UrlDay | includes/class-plugin.php:627-637 | `url_day(t)` is the trimmed permalink, '/', t's day segment, and the optional trailing slash. |
| SitemapRoutes.RouteOfDigits | includes/class-plugin.php:364-394 | A 6-digit segment takes the year-month rule. An 8-digit one takes the day rule, split after six digits. |
| SitemapRoutes.MonthUrlRoundTrip | includes/class-plugin.php:609-619 | The path of `url_month(t)` routes back to t's year and month as a month view. The view's timestamp is the first of that month. |
| SitemapRoutes.DayUrlDecodes | includes/class-plugin.php:503-546 | The tokens of a day URL decode to t's year, month and day. |
| SitemapRoutes.DayUrlRoundTrip | includes/class-plugin.php:627-637 | The path of `url_day(t)` routes back to t's year, month and day as a day view. Its timestamp is the midnight of t's day. |
| SitemapRender.Reverse | includes/class-plugin.php:657 | `array_reverse`: same length, elements in the opposite order. |
| SitemapRender.MonthStarts | includes/class-plugin.php:658-663 | One `make(year, month, 1)` per month, in order. |
| SitemapRender.AllYearLinks | includes/class-plugin.php:653-668 | One entry per year of `by_years()`, holding its months' first days in reverse order. |
| SitemapRender.LinksByYears | includes/class-plugin.php:653-668 | The loop yields the link entries of `by_years()`. |
| SitemapRender.MonthStartInjective | includes/class-plugin.php:660 | Different months of a year have different first days. |
| SitemapRender.LinksByYearsMembers | includes/class-plugin.php:653-668 | For a year in range, the index links the first of a month under its year exactly when some cached day falls in that month. |
| SitemapRender.MonthDayStamps | includes/class-plugin.php:677-686 | `by_months()` reversed with keys preserved, each day of the month mapped to its timestamp. |
| SitemapRender.LinksByMonthsSpec | includes/class-plugin.php:677-686 | Every entry is the first occurrence of its day in the cache, mapped to that day's timestamp, with cache keys strictly decreasing. Every first occurrence is present. |
| SitemapRender.LinksByMonths | includes/class-plugin.php:677-686 | Every link is the first occurrence of its day in t's month, mapped to `make(year, month, day)`, with cache keys strictly decreasing. Every first occurrence is present. |
| SitemapRender.CrumbPositions | includes/class-plugin.php:816-831 | The crumb items number their positions 1..n in order. |
| SitemapRender.GetBreadcrumbsMarkup | includes/class-plugin.php:808-837 | The loop with its `++$position` counter yields the breadcrumb markup. |
| SitemapRender.BreadcrumbsMarkupSpec | includes/class-plugin.php:808-837 | The markup is '' exactly for an empty trail. Otherwise it is the list of crumbs with positions 1..n inside the `nav` and `ol` elements. |
| SitemapRender.AppendSections | includes/class-plugin.php:857-882 | The section loop appends every section's markup, in order. |
| SitemapRender.SectionsMarkupIsConcat | includes/class-plugin.php:857-882 | The sections' markup is the concatenation of each section's markup. |
| SitemapRender.GetSitemapHtmlMarkup | includes/class-plugin.php:848-887 | The method yields the breadcrumbs (except on the index), then the sitemap block. |
| SitemapRender.SitemapHtmlMarkupSpec | includes/class-plugin.php:848-887 | The index page has no breadcrumbs. Other pages start with them. The block holds every section's markup in order. |
| SitemapRender.MonthItems | includes/class-plugin.php:914-922 | One item per month link of a year. |
| SitemapRender.DayItems | includes/class-plugin.php:929-937 | One item per day link of a month. |
| SitemapRender.PostItems | includes/class-plugin.php:943-951 | One item per post of a day. |
| SitemapRender.ViewOf | includes/class-plugin.php:896-898 | The view is the index, month or day view exactly when `is_root`, `is_month` or `is_day` holds. |
| SitemapRender.YearSectionsOf | includes/class-plugin.php:909-924 | The index loop builds one year section per entry of `links_by_years()`. |
| SitemapRender.SectionsOfView | includes/class-plugin.php:906-953 | The appends to `$links` give one section per year of the index, one section for a month or a day view, and none for any other request. |
| SitemapRender.CrumbsOfView | includes/class-plugin.php:955-969 | The appends to `$breadcrumbs` give the Index crumb, labelled `__( 'Index', 'html-sitemap' )`, followed by the month crumb only in a day view. |
| SitemapRender.CrumbsSpec | includes/class-plugin.php:955-969 | The trail starts with the Index crumb, whose label is 'Index' translated in the 'html-sitemap' domain. The day view adds exactly one crumb, its month's. |
| SitemapRender.IndexLabelMissesPluginDomain | includes/class-plugin.php:958 | With translations loaded for the 'sitemap-html' domain only, "No posts found." is translated but the Index crumb stays 'Index'. |
| SitemapRender.IndexLabelIntendedIsTranslated | includes/class-plugin.php:958 | Looked up in the plugin's 'sitemap-html' domain, the Index label gets that domain's translation. |
| SitemapRender.NoSectionsExactly | includes/class-plugin.php:906-974 | No section is built exactly for an index with no cached months, or for no view at all. A month or day view builds exactly one section, even with no items, and the index builds one per year. |
| SitemapRender.RenderSitemapHtmlShortcode | includes/class-plugin.php:894-977 | '' without a queried page. Otherwise "No posts found.", translated in the 'sitemap-html' domain and escaped, when no section was built, and the sitemap markup of the view's sections and trail when one was. |
| SitemapRender.EmptyOnlyWithoutPage | includes/class-plugin.php:901-977 | The shortcode's output is '' only when there is no queried page. |

## Left out

- `days()`, `cache_get`/`cache_set`: the option store is one map. The backend probe (`use_large_option`) and the WP Large Options functions are not modelled.
- `query_for_days`: the SQL is a fixed text without the template's line breaks and indentation. The database, `get_col` and `strtotime` of the rows are not modelled; `update()` takes the rows as calendar dates.
- `md5`, `esc_sql`, `esc_html`, `esc_url`, `esc_attr`, `date_i18n`, `get_permalink`, `user_trailingslashit`, and `__()` with its text domain, are not modelled. They are uninterpreted parameters, except that `user_trailingslashit` is written out for a structure with or without a trailing slash.
- `timestamp_has_posts` and `links_by_day`: their `WP_Query` calls are oracle inputs, a boolean and a function from timestamp to posts.
- `DateHelper.Make`: `strtotime`'s normalisation of out-of-range months and days, and years outside 0..9999, are not modelled; these give `false`. The default timezone is taken to be UTC.
- `PhpStrings.IntVal`: exponent forms such as "1e3" are read only up to the first non-digit. Integers are unbounded; PHP's 64-bit overflow to float is not modelled.
- `SitemapRoutes.Route`: only the two patterns of `get_page_rewrite_rules` are decoded. WordPress's rewrite engine, query strings and other rules are not modelled.
- `SitemapRoutes.MonthUrlRoundTrip`: stated for years 1000..9999. Shorter years give segments the 6-digit pattern does not match.
- `HeaderFilter.CacheHeaders`: the header array is a map, so the order of header keys is not modelled.
- `HeaderFilter.CacheHeadersIdempotent`: the code as written is idempotent only when Cache-Control does not begin with "s-maxage" (see Findings). Idempotence for all headers is stated of the corrected filter, `HeaderFilter.CacheHeadersIntendedIdempotent`.
- `SitemapRequest.NotFound`: a month or day of 00 makes `make` return `false` in this model, so such a request is a 404 whatever the posts. The plugin's `strtotime` normalises a 00 month or day into a valid date, and `array_filter` drops the zero from the posts query, so the plugin can serve that page. `SitemapRequest.InvalidDateIsNotFound` is therefore stated only for months and days other than 00.
- `SitemapRender`: the markup leaves out the whitespace inside the `sprintf` templates.
- `SitemapRender.MonthItems`, `SitemapRender.DayItems` and `SitemapRender.PostItems` state lengths only. Their elements are fixed by their definitions, from `date_i18n` labels and URL functions that are not modelled.
- Cron (`wp_schedule_event`, `wp_schedule_single_event`, `wp_next_scheduled`, `wp_unschedule_event`) is not modelled. Only the timestamps handed to it are.
- Hook registration, `register_query_vars`, `add_rewrite_rules`, `set_page_title`, `set_canonical`, `inject_sitemap_shortcode`, `create_sitemap_page`, the admin notice, styles, the bootstrap file and the singleton are not modelled. They are glue with no logic of their own.
- `post_types()` is the post-type list of `SchedulesOnPostChange`. The `sitemap_html_post_types` filter is not modelled.

## Findings

| source | as written | input that shows it | evidently intended | confidence | as-written member | corrected member |
|---|---|---|---|---|---|---|
| includes/class-plugin.php:144 | `elseif ( strpos( $headers['Cache-Control'], 's-maxage' ) )` treats a match at position 0 as no match | Cache-Control "s-maxage=600" on an old day page becomes "s-maxage=600, s-maxage=2592000", and grows by another directive on every pass | replace the existing directive, giving "s-maxage=2592000", whenever "s-maxage" occurs (`false !== strpos(...)`) | not executed | HeaderFilter.LeadingSMaxAgeIsAppended | HeaderFilter.RewriteIdempotent |
| includes/class-plugin.php:958 | the Index crumb's label is `__( 'Index', 'html-sitemap' )`, while the plugin's text domain, and every other lookup (such as `esc_html__( 'No posts found.', 'sitemap-html' )` at line 973), is 'sitemap-html' | a site with the plugin's translations loaded shows "No posts found." translated, but the Index crumb in English | `__( 'Index', 'sitemap-html' )` | not executed | SitemapRender.IndexLabelMissesPluginDomain | SitemapRender.IndexLabelIntendedIsTranslated |
