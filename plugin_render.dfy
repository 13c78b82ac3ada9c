/**
 * Rendering of the `[sitemap-html-dated]` shortcode in includes/class-plugin.php: the link
 * sections of the index, month and day views, the breadcrumb trail and the HTML markup.
 *
 * WordPress's escaping functions, `date_i18n`, `get_permalink` and the posts of a day are
 * collaborators passed in as `Wp`; markup is modelled without the whitespace of the templates.
 */
module SitemapRender {
  import opened Wrappers
  import opened PhpStrings
  import opened DateHelper
  import opened PostIndex
  import Req = SitemapRequest
  import Routes = SitemapRoutes

  /** A post as `links_by_day` lists it: its ID (for `get_permalink`) and its title. */
  datatype Post = Post(id: int, title: string)

  /**
   * The WordPress functions rendering relies on. `translate(text, domain)` is `__()`;
   * `dateI18n(format, None)` is `date_i18n` with a `false` timestamp; `withSlash` is the permalink
   * structure's trailing slash, read by `user_trailingslashit`; `postsOnDay` stands for the query
   * of `links_by_day`.
   */
  datatype Wp = Wp(
    translate: (string, string) -> string,
    escHtml: string -> string,
    escUrl: string -> string,
    escAttr: string -> string,
    dateI18n: (string, Option<int>) -> string,
    permalink: int -> string,
    withSlash: bool,
    postsOnDay: Option<int> -> seq<Post>)

  /** An item of a section: its label and its link. */
  datatype Link = Link(text: string, link: string)

  /** A section of the sitemap: a heading, the CSS classes of its block and its items. */
  datatype Section = Section(heading: string, classes: seq<string>, items: seq<Link>)

  /** A breadcrumb: its link and its label. */
  datatype Crumb = Crumb(link: string, text: string)

  /** An entry `$links[$year]` of `links_by_years()`. */
  datatype YearLinks = YearLinks(year: int, timestamps: seq<Option<int>>)

  const IndexLabel: string := "Index"
  const NoPostsText: string := "No posts found."
  /** The plugin's text domain, named in the header of sitemap-html.php. */
  const TextDomain: string := "sitemap-html"
  /** The text domain the Index crumb's label is looked up in. */
  const IndexLabelDomain: string := "html-sitemap"
  const YearClass: string := "sitemap-html__year"
  const MonthClass: string := "sitemap-html__month"
  const DayClass: string := "sitemap-html__day"

  /** `array_reverse`. */
  function Reverse<T>(s: seq<T>): (r: seq<T>)
    ensures |r| == |s|
    ensures forall i :: 0 <= i < |r| ==> r[i] == s[|s| - 1 - i]
  {
    if s == [] then [] else [s[|s| - 1]] + Reverse(s[..|s| - 1])
  }

  // ---------------------------------------------------------------------------------------------
  // links_by_years and links_by_months

  /** The first-of-month timestamps of the months of a year, in the order of the months. */
  function MonthStarts(year: int, months: seq<int>): (r: seq<Option<int>>)
    ensures |r| == |months|
    ensures forall k :: 0 <= k < |r| ==> r[k] == Make(year, Some(months[k]), Some(1))
  {
    if months == [] then []
    else MonthStarts(year, months[..|months| - 1]) + [Make(year, Some(months[|months| - 1]), Some(1))]
  }

  /** The entry of `links_by_years()` for one year of `by_years()`. */
  function YearLinksOf(g: YearMonths): YearLinks {
    YearLinks(g.year, Reverse(MonthStarts(g.year, g.months)))
  }

  /** `links_by_years()` on the result of `by_years()`, in its year order. */
  function AllYearLinks(g: seq<YearMonths>): (r: seq<YearLinks>)
    ensures |r| == |g|
    ensures forall i :: 0 <= i < |g| ==> r[i] == YearLinksOf(g[i])
  {
    if g == [] then [] else AllYearLinks(g[..|g| - 1]) + [YearLinksOf(g[|g| - 1])]
  }

  /** `links_by_years()`: per year of the index, the first of each month, newest month last. */
  method LinksByYears(posts: Posts) returns (links: seq<YearLinks>)
    ensures links == AllYearLinks(ByYearsOf(posts.Days()))
  {
    var byYears := posts.ByYears();
    links := [];
    for i := 0 to |byYears|
      invariant links == AllYearLinks(byYears[..i])
    {
      assert byYears[..i + 1][..i] == byYears[..i];
      links := links + [YearLinks(byYears[i].year, Reverse(MonthStarts(byYears[i].year, byYears[i].months)))];
    }
    assert byYears[..|byYears|] == byYears;
  }

  /** Both components of a valid first of the month are recovered from its timestamp. */
  lemma MonthStartInjective(y: int, m: int, m': int)
    requires Make(y, Some(m), Some(1)).Some? && Make(y, Some(m), Some(1)) == Make(y, Some(m'), Some(1))
    ensures m == m'
  {
  }

  /** Some link of `links` under year `y` is the timestamp `t`. */
  predicate LinksHave(links: seq<YearLinks>, y: int, t: Option<int>) {
    exists i, k :: 0 <= i < |links| && 0 <= k < |links[i].timestamps| && links[i].year == y && links[i].timestamps[k] == t
  }

  /**
   * The index links the first of a month of a year in range under that year exactly when some
   * cached day falls in that month.
   */
  lemma LinksByYearsMembers(days: seq<DayRecord>, y: int, m: int)
    requires 0 <= y <= 9999 && 1 <= m <= 12
    ensures LinksHave(AllYearLinks(ByYearsOf(days)), y, Make(y, Some(m), Some(1)))
      <==> Records(days, y, m)
  {
    var g := ByYearsOf(days);
    ByYearsMembers(days, y, m);
    ListedIsLinked(g, y, m);
    LinkedIsListed(g, y, m);
  }

  /** Month `j` of a group is linked, counted from the end of the year's links. */
  lemma LinkOfMonth(g: YearMonths, j: int)
    requires 0 <= j < |g.months|
    ensures YearLinksOf(g).timestamps[|g.months| - 1 - j] == Make(g.year, Some(g.months[j]), Some(1))
  {
    ReverseAt(MonthStarts(g.year, g.months), j);
  }

  lemma ReverseAt<T>(s: seq<T>, j: int)
    requires 0 <= j < |s|
    ensures Reverse(s)[|s| - 1 - j] == s[j]
  {
  }

  lemma ListedIsLinked(g: seq<YearMonths>, y: int, m: int)
    ensures Lists(g, y, m) ==> LinksHave(AllYearLinks(g), y, Make(y, Some(m), Some(1)))
  {
    if Lists(g, y, m) {
      var links := AllYearLinks(g);
      var i :| 0 <= i < |g| && g[i].year == y && m in g[i].months;
      var j :| 0 <= j < |g[i].months| && g[i].months[j] == m;
      LinkOfMonth(g[i], j);
      assert links[i] == YearLinksOf(g[i]);
      LinksHaveWitness(links, i, |g[i].months| - 1 - j);
    }
  }

  lemma LinksHaveWitness(links: seq<YearLinks>, i: int, k: int)
    requires 0 <= i < |links| && 0 <= k < |links[i].timestamps|
    ensures LinksHave(links, links[i].year, links[i].timestamps[k])
  {
  }

  lemma LinkedIsListed(g: seq<YearMonths>, y: int, m: int)
    requires Make(y, Some(m), Some(1)).Some?
    ensures LinksHave(AllYearLinks(g), y, Make(y, Some(m), Some(1))) ==> Lists(g, y, m)
  {
    var links := AllYearLinks(g);
    var t := Make(y, Some(m), Some(1));
    if LinksHave(links, y, t) {
      var i, k :| 0 <= i < |links| && 0 <= k < |links[i].timestamps| && links[i].year == y && links[i].timestamps[k] == t;
      var j := |g[i].months| - 1 - k;
      LinkOfMonth(g[i], j);
      MonthStartInjective(y, m, g[i].months[j]);
      assert g[i].year == y && g[i].months[j] == m;
    }
  }

  /** The keyed timestamps of the days of one month, from `by_months` reversed with its keys. */
  function MonthDayStamps(year: int, month: int, byMonths: seq<(int, int)>): (r: seq<(int, Option<int>)>)
    ensures |r| == |byMonths|
    ensures forall i :: 0 <= i < |r| ==>
      r[i] == (byMonths[|byMonths| - 1 - i].0, Make(year, Some(month), Some(byMonths[|byMonths| - 1 - i].1)))
  {
    var rev := Reverse(byMonths);
    seq(|rev|, i requires 0 <= i < |rev| => (rev[i].0, Make(year, Some(month), Some(rev[i].1))))
  }

  /**
   * `links_by_months($timestamp)`: the days of the timestamp's month, last first, keys kept. Each
   * link is the midnight of a first occurrence of its day in the cache, under that day's key,
   * keys descending, and every first occurrence is linked.
   */
  function LinksByMonths(posts: Posts, t: int): (r: seq<(int, Option<int>)>)
    reads posts
    ensures var d, days := Date(t), posts.Days();
      && (forall i :: 0 <= i < |r| ==>
            IsFirstDay(days, d.Year(), d.Month(), r[i].0)
            && r[i].1 == Make(d.Year(), Some(d.Month()), Some(days[r[i].0].dayofmonth)))
      && (forall i, j :: 0 <= i < j < |r| ==> r[i].0 > r[j].0)
      && (forall k :: IsFirstDay(days, d.Year(), d.Month(), k) ==>
            (k, Make(d.Year(), Some(d.Month()), Some(days[k].dayofmonth))) in r)
  {
    var d := Date(t);
    LinksByMonthsSpec(posts.Days(), d.Year(), d.Month());
    MonthDayStamps(d.Year(), d.Month(), posts.ByMonths(d.Year(), d.Month()))
  }

  /**
   * Every link of a month is the midnight of a first occurrence of its day in the cache, under
   * that day's key, keys descending; and every first occurrence is linked.
   */
  lemma LinksByMonthsSpec(days: seq<DayRecord>, year: int, month: int)
    ensures var r := MonthDayStamps(year, month, ByMonthsOf(days, year, month));
      && (forall i :: 0 <= i < |r| ==>
            IsFirstDay(days, year, month, r[i].0)
            && r[i].1 == Make(year, Some(month), Some(days[r[i].0].dayofmonth)))
      && (forall i, j :: 0 <= i < j < |r| ==> r[i].0 > r[j].0)
      && (forall k :: IsFirstDay(days, year, month, k) ==>
            (k, Make(year, Some(month), Some(days[k].dayofmonth))) in r)
  {
    var b := ByMonthsOf(days, year, month);
    ByMonthsSound(days, year, month);
    ByMonthsComplete(days, year, month);
    StampsSound(days, year, month, b);
    StampsDescending(year, month, b);
    StampsComplete(days, year, month, b);
  }

  lemma StampsSound(days: seq<DayRecord>, year: int, month: int, b: seq<(int, int)>)
    requires forall p :: p in b ==> IsFirstDay(days, year, month, p.0) && p.1 == days[p.0].dayofmonth
    ensures var r := MonthDayStamps(year, month, b);
      forall i :: 0 <= i < |r| ==>
        IsFirstDay(days, year, month, r[i].0) && r[i].1 == Make(year, Some(month), Some(days[r[i].0].dayofmonth))
  {
    var r := MonthDayStamps(year, month, b);
    forall i | 0 <= i < |r|
      ensures IsFirstDay(days, year, month, r[i].0)
      ensures r[i].1 == Make(year, Some(month), Some(days[r[i].0].dayofmonth))
    {
      var p := b[|b| - 1 - i];
      assert p in b;
      assert r[i] == (p.0, Make(year, Some(month), Some(p.1)));
    }
  }

  lemma StampsDescending(year: int, month: int, b: seq<(int, int)>)
    requires KeysIncreasing(b)
    ensures var r := MonthDayStamps(year, month, b);
      forall i, j :: 0 <= i < j < |r| ==> r[i].0 > r[j].0
  {
    var r := MonthDayStamps(year, month, b);
    forall i, j | 0 <= i < j < |r| ensures r[i].0 > r[j].0 {
      assert r[i].0 == b[|b| - 1 - i].0 && r[j].0 == b[|b| - 1 - j].0;
    }
  }

  lemma StampsComplete(days: seq<DayRecord>, year: int, month: int, b: seq<(int, int)>)
    requires forall k :: IsFirstDay(days, year, month, k) ==> (k, days[k].dayofmonth) in b
    ensures forall k :: IsFirstDay(days, year, month, k) ==>
      (k, Make(year, Some(month), Some(days[k].dayofmonth))) in MonthDayStamps(year, month, b)
  {
    var r := MonthDayStamps(year, month, b);
    forall k | IsFirstDay(days, year, month, k)
      ensures (k, Make(year, Some(month), Some(days[k].dayofmonth))) in r
    {
      var j :| 0 <= j < |b| && b[j] == (k, days[k].dayofmonth);
      assert r[|b| - 1 - j] == (k, Make(year, Some(month), Some(days[k].dayofmonth)));
    }
  }

  // ---------------------------------------------------------------------------------------------
  // get_breadcrumbs_markup

  const BreadcrumbsOpen: string :=
    "<nav id=\"sitemap-html-breadcrumbs\" aria-label=\"Breadcrumb\">"
    + "<ol itemscope itemtype=\"http://schema.org/BreadcrumbList\">"
  const BreadcrumbsClose: string := "</ol></nav>"

  lemma AppendAssoc(a: string, b: string, c: string)
    ensures (a + b) + c == a + (b + c)
  {
  }

  /** The list item of one breadcrumb at a position. */
  function CrumbMarkup(wp: Wp, c: Crumb, position: int): string {
    CrumbOpen + wp.escUrl(c.link) + CrumbName + wp.escHtml(c.text) + CrumbPosition + IntToString(position) + CrumbClose
  }

  const CrumbOpen: string :=
    "<li itemprop=\"itemListElement\" itemscope itemtype=\"http://schema.org/ListItem\">"
    + "<a itemprop=\"item\" href=\""
  const CrumbName: string := "\"><span itemprop=\"name\">"
  const CrumbPosition: string := "</span></a><meta itemprop=\"position\" content=\""
  const CrumbClose: string := "\"></li>"

  /** The list items of a trail, the last one at position `|crumbs|`. */
  function CrumbItems(wp: Wp, crumbs: seq<Crumb>): seq<string> {
    if crumbs == [] then []
    else CrumbItems(wp, crumbs[..|crumbs| - 1]) + [CrumbMarkup(wp, crumbs[|crumbs| - 1], |crumbs|)]
  }

  lemma CrumbItemsAppend(wp: Wp, crumbs: seq<Crumb>, i: nat)
    requires i < |crumbs|
    ensures CrumbItems(wp, crumbs[..i + 1]) == CrumbItems(wp, crumbs[..i]) + [CrumbMarkup(wp, crumbs[i], i + 1)]
  {
    assert crumbs[..i + 1][..i] == crumbs[..i];
  }

  /** The breadcrumbs are numbered 1..n in order: crumb i is at position i + 1. */
  lemma {:induction false} CrumbPositions(wp: Wp, crumbs: seq<Crumb>)
    ensures |CrumbItems(wp, crumbs)| == |crumbs|
    ensures forall i :: 0 <= i < |crumbs| ==> CrumbItems(wp, crumbs)[i] == CrumbMarkup(wp, crumbs[i], i + 1)
  {
    if crumbs != [] {
      var n := |crumbs|;
      var init := crumbs[..n - 1];
      CrumbPositions(wp, init);
      var items := CrumbItems(wp, crumbs);
      var prev := CrumbItems(wp, init);
      assert items == prev + [CrumbMarkup(wp, crumbs[n - 1], n)];
      forall i | 0 <= i < n ensures items[i] == CrumbMarkup(wp, crumbs[i], i + 1) {
        if i < n - 1 {
          assert items[i] == prev[i] && init[i] == crumbs[i];
        }
      }
    }
  }

  /** The markup of a breadcrumb trail: '' for no crumbs. */
  function BreadcrumbsMarkup(wp: Wp, crumbs: seq<Crumb>): string {
    if crumbs == [] then "" else BreadcrumbsOpen + Concat(CrumbItems(wp, crumbs)) + BreadcrumbsClose
  }

  /** `get_breadcrumbs_markup`. */
  method GetBreadcrumbsMarkup(wp: Wp, crumbs: seq<Crumb>) returns (markup: string)
    ensures markup == BreadcrumbsMarkup(wp, crumbs)
  {
    if crumbs == [] {
      return "";
    }
    markup := BreadcrumbsOpen;
    ghost var body := "";
    var position := 1;
    for i := 0 to |crumbs|
      invariant position == i + 1
      invariant body == Concat(CrumbItems(wp, crumbs[..i]))
      invariant markup == BreadcrumbsOpen + body
    {
      var item := CrumbMarkup(wp, crumbs[i], position);
      CrumbItemsAppend(wp, crumbs, i);
      ConcatAppend(CrumbItems(wp, crumbs[..i]), item);
      AppendAssoc(BreadcrumbsOpen, body, item);
      markup := markup + item;
      body := body + item;
      position := position + 1;
    }
    assert crumbs[..|crumbs|] == crumbs;
    markup := markup + BreadcrumbsClose;
  }

  /**
   * The trail markup is empty exactly when there are no crumbs; otherwise it is the list items
   * of the crumbs at positions 1..n, inside the nav and list elements.
   */
  lemma BreadcrumbsMarkupSpec(wp: Wp, crumbs: seq<Crumb>)
    ensures BreadcrumbsMarkup(wp, crumbs) == "" <==> crumbs == []
    ensures crumbs != [] ==>
      BreadcrumbsMarkup(wp, crumbs)
      == BreadcrumbsOpen + Concat(seq(|crumbs|, i requires 0 <= i < |crumbs| => CrumbMarkup(wp, crumbs[i], i + 1)))
         + BreadcrumbsClose
  {
    CrumbPositions(wp, crumbs);
    var items := seq(|crumbs|, i requires 0 <= i < |crumbs| => CrumbMarkup(wp, crumbs[i], i + 1));
    assert CrumbItems(wp, crumbs) == items;
  }

  // ---------------------------------------------------------------------------------------------
  // get_sitemap_html_markup

  const SitemapOpen: string := "<div id=\"sitemap-html\">"
  const SitemapClose: string := "</div>"

  function ItemMarkup(wp: Wp, l: Link): string {
    "<li><a href=\"" + wp.escUrl(l.link) + "\">" + wp.escHtml(l.text) + "</a></li>"
  }

  function ItemsMarkup(wp: Wp, items: seq<Link>): string {
    if items == [] then "" else ItemsMarkup(wp, items[..|items| - 1]) + ItemMarkup(wp, items[|items| - 1])
  }

  function SectionMarkup(wp: Wp, s: Section): string {
    "<div class=\"" + wp.escAttr(Join(s.classes, " ")) + "\"><h2>" + wp.escHtml(s.heading) + "</h2><ul>"
    + ItemsMarkup(wp, s.items) + "</ul></div>"
  }

  function SectionsMarkup(wp: Wp, sections: seq<Section>): string {
    if sections == [] then ""
    else SectionsMarkup(wp, sections[..|sections| - 1]) + SectionMarkup(wp, sections[|sections| - 1])
  }

  /** The markup of the sitemap: the trail (except on the index), then the sections in a block. */
  function SitemapHtmlMarkup(wp: Wp, sections: seq<Section>, isRoot: bool, crumbs: seq<Crumb>): string {
    (if isRoot then "" else BreadcrumbsMarkup(wp, crumbs)) + SitemapBlock(wp, sections)
  }

  /** The block of the sitemap: the sections' markup inside the sitemap's `div`. */
  function SitemapBlock(wp: Wp, sections: seq<Section>): string {
    SitemapOpen + SectionsMarkup(wp, sections) + SitemapClose
  }

  /** `get_sitemap_html_markup`. */
  method GetSitemapHtmlMarkup(wp: Wp, sections: seq<Section>, isRoot: bool, crumbs: seq<Crumb>)
    returns (output: string)
    ensures output == SitemapHtmlMarkup(wp, sections, isRoot, crumbs)
  {
    var head := "";
    if !isRoot {
      head := GetBreadcrumbsMarkup(wp, crumbs);
    }
    output := AppendSections(wp, sections, head + SitemapOpen);
    output := output + SitemapClose;
    AppendAssoc(head, SitemapOpen, SectionsMarkup(wp, sections));
    AppendAssoc(head, SitemapOpen + SectionsMarkup(wp, sections), SitemapClose);
  }

  /** The loop of `get_sitemap_html_markup`: each section's markup appended in order. */
  method AppendSections(wp: Wp, sections: seq<Section>, head: string) returns (output: string)
    ensures output == head + SectionsMarkup(wp, sections)
  {
    output := head;
    ghost var body := "";
    for i := 0 to |sections|
      invariant body == SectionsMarkup(wp, sections[..i])
      invariant output == head + body
    {
      var block := SectionMarkup(wp, sections[i]);
      assert sections[..i + 1] == sections[..i] + [sections[i]];
      SectionsMarkupAppend(wp, sections[..i], sections[i]);
      AppendAssoc(head, body, block);
      output := output + block;
      body := body + block;
    }
    assert sections[..|sections|] == sections;
  }

  /** The index block's markup with one section more is the markup before it, then the section. */
  lemma SectionsMarkupAppend(wp: Wp, sections: seq<Section>, s: Section)
    ensures SectionsMarkup(wp, sections + [s]) == SectionsMarkup(wp, sections) + SectionMarkup(wp, s)
  {
    assert (sections + [s])[..|sections|] == sections;
  }

  /**
   * The sitemap markup holds the sections' markup in order inside its block, after the trail
   * except on the index page; the index page never shows a trail.
   */
  lemma SitemapHtmlMarkupSpec(wp: Wp, sections: seq<Section>, isRoot: bool, crumbs: seq<Crumb>)
    ensures isRoot ==> SitemapHtmlMarkup(wp, sections, isRoot, crumbs) == SitemapBlock(wp, sections)
    ensures !isRoot ==> BreadcrumbsMarkup(wp, crumbs) <= SitemapHtmlMarkup(wp, sections, isRoot, crumbs)
    ensures SitemapBlock(wp, sections)[|SitemapOpen|..|SitemapOpen| + |SectionsMarkup(wp, sections)|]
      == Concat(seq(|sections|, i requires 0 <= i < |sections| => SectionMarkup(wp, sections[i])))
  {
    var block := SitemapBlock(wp, sections);
    var body := SectionsMarkup(wp, sections);
    if isRoot {
      assert "" + block == block;
    } else {
      PrefixOfAppend(BreadcrumbsMarkup(wp, crumbs), block);
    }
    assert block[|SitemapOpen|..|SitemapOpen| + |body|] == body;
    SectionsMarkupIsConcat(wp, sections);
  }

  lemma PrefixOfAppend(a: string, b: string)
    ensures a <= a + b
  {
  }

  lemma {:induction false} SectionsMarkupIsConcat(wp: Wp, sections: seq<Section>)
    ensures SectionsMarkup(wp, sections) == Concat(seq(|sections|, i requires 0 <= i < |sections| => SectionMarkup(wp, sections[i])))
  {
    if sections != [] {
      var n := |sections|;
      var init := sections[..n - 1];
      SectionsMarkupIsConcat(wp, init);
      var all := seq(n, i requires 0 <= i < n => SectionMarkup(wp, sections[i]));
      var first := seq(n - 1, i requires 0 <= i < n - 1 => SectionMarkup(wp, init[i]));
      assert all[..n - 1] == first;
    }
  }

  // ---------------------------------------------------------------------------------------------
  // render_sitemap_html_shortcode

  /** The items of a year on the index: each month's name and its month URL. */
  function MonthItems(wp: Wp, pageId: int, stamps: seq<Option<int>>): (r: seq<Link>)
    ensures |r| == |stamps|
  {
    if stamps == [] then []
    else
      var t := stamps[|stamps| - 1];
      MonthItems(wp, pageId, stamps[..|stamps| - 1])
        + [Link(wp.dateI18n("F", t), Routes.UrlMonth(wp.permalink(pageId), t.GetOr(0), wp.withSlash))]
  }

  /** The section of one year on the index. */
  function YearSection(wp: Wp, pageId: int, yl: YearLinks): Section {
    Section(IntToString(yl.year), [YearClass], MonthItems(wp, pageId, yl.timestamps))
  }

  function YearSections(wp: Wp, pageId: int, links: seq<YearLinks>): (r: seq<Section>)
    ensures |r| == |links|
  {
    if links == [] then []
    else YearSections(wp, pageId, links[..|links| - 1]) + [YearSection(wp, pageId, links[|links| - 1])]
  }

  lemma YearSectionsAppend(wp: Wp, pageId: int, links: seq<YearLinks>, i: nat)
    requires i < |links|
    ensures YearSections(wp, pageId, links[..i + 1])
      == YearSections(wp, pageId, links[..i]) + [YearSection(wp, pageId, links[i])]
  {
    assert links[..i + 1][..i] == links[..i];
  }

  /** The items of a month: each day's name and its day URL. */
  function DayItems(wp: Wp, pageId: int, stamps: seq<(int, Option<int>)>): (r: seq<Link>)
    ensures |r| == |stamps|
  {
    if stamps == [] then []
    else
      var t := stamps[|stamps| - 1].1;
      DayItems(wp, pageId, stamps[..|stamps| - 1])
        + [Link(wp.dateI18n("F j", t), Routes.UrlDay(wp.permalink(pageId), t.GetOr(0), wp.withSlash))]
  }

  /** The items of a day: each post's title and permalink. */
  function PostItems(wp: Wp, posts: seq<Post>): (r: seq<Link>)
    ensures |r| == |posts|
  {
    if posts == [] then []
    else PostItems(wp, posts[..|posts| - 1]) + [Link(posts[|posts| - 1].title, wp.permalink(posts[|posts| - 1].id))]
  }

  /** The view a request selects, from `is_root()`, `is_month()` and `is_day()` in that order. */
  datatype View = IndexView | MonthView | DayView | NoView

  function ViewOf(req: Req.Request): (v: View)
    ensures v == IndexView <==> Req.IsRoot(req)
    ensures v == MonthView <==> Req.IsMonth(req)
    ensures v == DayView <==> Req.IsDay(req)
  {
    Req.ViewsAreExclusive(req);
    if Req.IsRoot(req) then IndexView
    else if Req.IsMonth(req) then MonthView
    else if Req.IsDay(req) then DayView
    else NoView
  }

  /** The sections the shortcode builds for a view of the timestamp `ts` on page `pageId`. */
  function Sections(posts: Posts, wp: Wp, view: View, ts: Option<int>, pageId: int): seq<Section>
    reads posts
  {
    match view
    case IndexView => YearSections(wp, pageId, AllYearLinks(ByYearsOf(posts.Days())))
    case MonthView => [MonthSection(posts, wp, ts, pageId)]
    case DayView => [DaySection(wp, ts)]
    case NoView => []
  }

  /** The one section of a month view: the month's days. */
  function MonthSection(posts: Posts, wp: Wp, ts: Option<int>, pageId: int): Section
    reads posts
  {
    Section(wp.dateI18n("F Y", ts), [MonthClass], DayItems(wp, pageId, LinksByMonths(posts, ts.GetOr(0))))
  }

  /** The one section of a day view: the posts of the day. */
  function DaySection(wp: Wp, ts: Option<int>): Section {
    Section(wp.dateI18n("F j, Y", ts), [DayClass], PostItems(wp, wp.postsOnDay(ts)))
  }

  /** The breadcrumb trail of a view of the timestamp `ts` on page `pageId`. */
  function Crumbs(wp: Wp, view: View, ts: Option<int>, pageId: int): seq<Crumb> {
    [Crumb(wp.permalink(pageId), IndexCrumbLabel(wp))] + if view == DayView then [MonthCrumb(wp, ts, pageId)] else []
  }

  /** The crumb of the month of a day view. */
  function MonthCrumb(wp: Wp, ts: Option<int>, pageId: int): Crumb {
    Crumb(Routes.UrlMonth(wp.permalink(pageId), ts.GetOr(0), wp.withSlash), wp.dateI18n("F Y", ts))
  }

  /** `__( 'Index', 'html-sitemap' )`: the label of the first crumb, as written. */
  function IndexCrumbLabel(wp: Wp): string {
    wp.translate(IndexLabel, IndexLabelDomain)
  }

  /** The label of the first crumb looked up in the plugin's own text domain. */
  function IndexCrumbLabelIntended(wp: Wp): string {
    wp.translate(IndexLabel, TextDomain)
  }

  /** `esc_html__( 'No posts found.', 'sitemap-html' )` inside a paragraph. */
  function NoPostsMarkup(wp: Wp): string {
    NoPostsOpen + wp.escHtml(wp.translate(NoPostsText, TextDomain)) + NoPostsClose
  }

  /**
   * `wp` has translations loaded for the plugin's text domain only, given by `tr`; text looked up
   * in any other domain comes back unchanged.
   */
  ghost predicate TranslatesOnlyPluginDomain(wp: Wp, tr: string -> string) {
    forall text, domain :: wp.translate(text, domain) == if domain == TextDomain then tr(text) else text
  }

  /**
   * As written, a translation of the plugin reaches "No posts found." but never the Index crumb,
   * which stays in English because its label is looked up in another domain.
   */
  lemma IndexLabelMissesPluginDomain(wp: Wp, tr: string -> string)
    requires TranslatesOnlyPluginDomain(wp, tr)
    ensures IndexCrumbLabel(wp) == IndexLabel
    ensures NoPostsMarkup(wp) == NoPostsOpen + wp.escHtml(tr(NoPostsText)) + NoPostsClose
  {
  }

  /** Looked up in the plugin's domain, the Index label is translated like every other text. */
  lemma IndexLabelIntendedIsTranslated(wp: Wp, tr: string -> string)
    requires TranslatesOnlyPluginDomain(wp, tr)
    ensures IndexCrumbLabelIntended(wp) == tr(IndexLabel)
  {
  }

  const NoPostsOpen: string := "<p>"
  const NoPostsClose: string := "</p>"

  /**
   * `render_sitemap_html_shortcode`. `pageId` is the ID of the queried object, None when there is
   * none or it has no ID.
   */
  method RenderSitemapHtmlShortcode(posts: Posts, wp: Wp, req: Req.Request, pageId: Option<int>)
    returns (html: string)
    ensures pageId.None? ==> html == ""
    ensures pageId.Some? ==>
      var sections := Sections(posts, wp, ViewOf(req), Req.Timestamp(req), pageId.value);
      && (sections == [] ==> html == NoPostsMarkup(wp))
      && (sections != [] ==>
            html == SitemapHtmlMarkup(wp, sections, Req.IsRoot(req), Crumbs(wp, ViewOf(req), Req.Timestamp(req), pageId.value)))
  {
    if pageId.None? {
      return "";
    }
    var id := pageId.value;
    var view := ViewOf(req);
    var ts := Req.Timestamp(req);
    var links := SectionsOfView(posts, wp, view, ts, id);
    var breadcrumbs := CrumbsOfView(wp, view, ts, id);
    if links == [] {
      return NoPostsMarkup(wp);
    }
    html := GetSitemapHtmlMarkup(wp, links, view == IndexView, breadcrumbs);
  }

  /** The sections `render_sitemap_html_shortcode` appends to `$links` for a view. */
  method SectionsOfView(posts: Posts, wp: Wp, view: View, ts: Option<int>, id: int) returns (links: seq<Section>)
    ensures links == Sections(posts, wp, view, ts, id)
  {
    links := [];
    if view == IndexView {
      var byYears := LinksByYears(posts);
      links := YearSectionsOf(wp, id, byYears);
    } else if view == MonthView {
      links := links + [MonthSection(posts, wp, ts, id)];
    } else if view == DayView {
      links := links + [DaySection(wp, ts)];
    }
  }

  /** The breadcrumbs `render_sitemap_html_shortcode` appends to `$breadcrumbs`. */
  method CrumbsOfView(wp: Wp, view: View, ts: Option<int>, id: int) returns (breadcrumbs: seq<Crumb>)
    ensures breadcrumbs == Crumbs(wp, view, ts, id)
  {
    breadcrumbs := [Crumb(wp.permalink(id), IndexCrumbLabel(wp))];
    if view == DayView {
      breadcrumbs := breadcrumbs + [MonthCrumb(wp, ts, id)];
    }
  }

  /** The loop of the index view: one section per year of `links_by_years`, in its order. */
  method YearSectionsOf(wp: Wp, id: int, byYears: seq<YearLinks>) returns (links: seq<Section>)
    ensures links == YearSections(wp, id, byYears)
  {
    links := [];
    for i := 0 to |byYears|
      invariant links == YearSections(wp, id, byYears[..i])
    {
      YearSectionsAppend(wp, id, byYears, i);
      links := links + [YearSection(wp, id, byYears[i])];
    }
    assert byYears[..|byYears|] == byYears;
  }

  /**
   * "No posts found." is shown only when no section was built: on the index of an empty cache,
   * or for a request that is none of the three views (a day without a month). A month or day
   * view always has exactly one section, even without items.
   */
  lemma NoSectionsExactly(posts: Posts, wp: Wp, req: Req.Request, pageId: int)
    ensures var sections := Sections(posts, wp, ViewOf(req), Req.Timestamp(req), pageId);
      && (sections == [] <==>
            (Req.IsRoot(req) && ByYearsOf(posts.Days()) == [])
            || (!Req.IsRoot(req) && !Req.IsMonth(req) && !Req.IsDay(req)))
      && (Req.IsMonth(req) || Req.IsDay(req) ==> |sections| == 1)
      && (Req.IsRoot(req) ==> |sections| == |ByYearsOf(posts.Days())|)
  {
  }

  /** The trail starts at the index; the day view adds exactly one crumb, its month. */
  lemma CrumbsSpec(wp: Wp, view: View, ts: Option<int>, pageId: int)
    ensures Crumbs(wp, view, ts, pageId)[0] == Crumb(wp.permalink(pageId), IndexCrumbLabel(wp))
    ensures |Crumbs(wp, view, ts, pageId)| == if view == DayView then 2 else 1
    ensures view == DayView ==> Crumbs(wp, view, ts, pageId)[1] == MonthCrumb(wp, ts, pageId)
  {
    var index := [Crumb(wp.permalink(pageId), IndexCrumbLabel(wp))];
    var month := if view == DayView then [MonthCrumb(wp, ts, pageId)] else [];
    assert Crumbs(wp, view, ts, pageId) == index + month;
  }

  /** The shortcode renders nothing exactly when there is no queried page. */
  lemma EmptyOnlyWithoutPage(wp: Wp, sections: seq<Section>, isRoot: bool, crumbs: seq<Crumb>)
    ensures NoPostsMarkup(wp) != ""
    ensures SitemapHtmlMarkup(wp, sections, isRoot, crumbs) != ""
  {
    var block := SitemapBlock(wp, sections);
    assert block[0] == SitemapOpen[0];
    assert NoPostsMarkup(wp)[0] == NoPostsOpen[0];
  }
}
