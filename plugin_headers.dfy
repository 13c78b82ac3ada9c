/**
 * `cache_headers` in includes/class-plugin.php: long shared-cache lifetimes (`s-maxage`) for the
 * day pages of the sitemap, written into the response's Cache-Control header.
 *
 * The headers are a map from name to value; `preg_replace('/s-maxage=\d+/', ...)` is written out
 * as a left-to-right scan.
 */
module HeaderFilter {
  import opened Wrappers
  import opened PhpStrings
  import Req = SitemapRequest

  type Headers = map<string, string>

  const CacheControl: string := "Cache-Control"
  const DayInSeconds: nat := 86400
  const SMaxAge: nat := 30 * DayInSeconds
  /** The needle of `strpos`. */
  const SMaxAgeKey: string := "s-maxage"
  /** The literal part of the pattern `s-maxage=\d+`. */
  const SMaxAgeName: string := "s-maxage="
  /** The decimal text of `$smaxage`. */
  const SMaxAgeText: string := "2592000"
  /** `'s-maxage=' . $smaxage`. */
  const SMaxAgeDirective: string := SMaxAgeName + SMaxAgeText
  /** The Cache-Control header set where there was none: its two other directives, then ours. */
  const DefaultMaxAge: string := "max-age=300, "
  const DefaultStale: string := "stale-while-revalidate, "
  const DefaultCacheControl: string := DefaultMaxAge + DefaultStale + SMaxAgeDirective

  /** The pattern `s-maxage=\d+` matches at the start of `s`. */
  predicate MatchAt0(s: string) {
    |s| > 9 && s[..9] == SMaxAgeName && IsDigit(s[9])
  }

  lemma DirectiveShape()
    ensures |SMaxAgeDirective| > 9 && SMaxAgeDirective[..9] == SMaxAgeName
    ensures SMaxAgeDirective[9..] == SMaxAgeText && AllDigits(SMaxAgeText)
    ensures MatchAt0(SMaxAgeDirective) && SMaxAgeDirective[..8] == SMaxAgeKey
  {
  }

  /** The text written after "s-maxage=" is the decimal form of thirty days in seconds. */
  lemma SMaxAgeTextValue()
    ensures AllDigits(SMaxAgeText) && DigitsValue(SMaxAgeText) == SMaxAge
  {
    var t := SMaxAgeText;
    assert t[..6] == "259200" && t[..5] == "25920" && t[..4] == "2592";
    assert t[..3] == "259" && t[..2] == "25" && t[..1] == "2" && t[..0] == "";
    assert "259200"[..5] == "25920" && "25920"[..4] == "2592" && "2592"[..3] == "259";
    assert "259"[..2] == "25" && "25"[..1] == "2" && "2"[..0] == "";
  }

  /**
   * `preg_replace('/s-maxage=\d+/', 's-maxage=2592000', s)`: every match, scanning from the left
   * and taking the longest run of digits, is replaced by the directive.
   */
  function ReplaceSMaxAge(s: string): (r: string)
    decreases |s|
    ensures r == [] <==> s == []
    ensures MatchAt0(s) ==> SMaxAgeDirective <= r
    ensures s != [] && !MatchAt0(s) ==> r[0] == s[0]
  {
    if s == [] then []
    else if MatchAt0(s) then
      var digits := LeadingDigits(s[9..]);
      assert digits != [];
      SMaxAgeDirective + ReplaceSMaxAge(s[9 + |digits|..])
    else
      [s[0]] + ReplaceSMaxAge(s[1..])
  }

  /**
   * The replacement never touches the first nine characters, and keeps a digit in the tenth
   * position exactly where there was one.
   */
  lemma {:induction false} KeepFront(s: string)
    decreases |s|
    ensures |s| <= 9 ==> ReplaceSMaxAge(s) == s
    ensures |ReplaceSMaxAge(s)| >= (if |s| < 10 then |s| else 10)
    ensures forall i :: 0 <= i < |s| && i < 9 ==> ReplaceSMaxAge(s)[i] == s[i]
    ensures |s| > 9 ==> (IsDigit(ReplaceSMaxAge(s)[9]) <==> IsDigit(s[9]))
  {
    if s == [] {
    } else if MatchAt0(s) {
      DirectiveShape();
      var r := ReplaceSMaxAge(s);
      assert r[..|SMaxAgeDirective|] == SMaxAgeDirective;
      forall i | 0 <= i < |s| && i < 9 ensures r[i] == s[i] {
        assert r[i] == SMaxAgeDirective[..9][i];
      }
      assert r[9] == SMaxAgeDirective[9..][0];
    } else {
      KeepFront(s[1..]);
      var r := ReplaceSMaxAge(s);
      assert r == [s[0]] + ReplaceSMaxAge(s[1..]);
      forall i | 0 <= i < |s| && i < 9 ensures r[i] == s[i] {
        if i > 0 {
          assert r[i] == ReplaceSMaxAge(s[1..])[i - 1];
        }
      }
      if |s| > 9 {
        assert r[9] == ReplaceSMaxAge(s[1..])[8] == s[9];
      }
      if |s| <= 9 {
        assert ReplaceSMaxAge(s[1..]) == s[1..];
      }
    }
  }

  /** A match at the start survives the replacement, and none is created there. */
  lemma MatchAt0Kept(s: string)
    ensures MatchAt0(ReplaceSMaxAge(s)) <==> MatchAt0(s)
  {
    KeepFront(s);
    var r := ReplaceSMaxAge(s);
    if |s| > 9 {
      assert r[..9] == s[..9];
    }
  }

  /** Replacing a second time changes nothing. */
  lemma {:induction false} ReplaceIdempotent(s: string)
    decreases |s|
    ensures ReplaceSMaxAge(ReplaceSMaxAge(s)) == ReplaceSMaxAge(s)
  {
    if s == [] {
    } else if MatchAt0(s) {
      var t := s[9 + |LeadingDigits(s[9..])|..];
      TailAfterDigits(s);
      var rt := ReplaceSMaxAge(t);
      KeepFront(t);
      assert rt == [] || !IsDigit(rt[0]) by {
        if t != [] {
          assert rt[0] == t[0];
        }
      }
      DirectiveThenNonDigit(rt);
      ReplaceIdempotent(t);
    } else {
      var r := ReplaceSMaxAge(s);
      MatchAt0Kept(s);
      assert r == [s[0]] + ReplaceSMaxAge(s[1..]);
      assert r != [] && r[0] == s[0] && r[1..] == ReplaceSMaxAge(s[1..]);
      ReplaceIdempotent(s[1..]);
    }
  }

  /** A match is replaced by the directive; what follows its digits does not start with a digit. */
  lemma TailAfterDigits(s: string)
    requires MatchAt0(s)
    ensures var t := s[9 + |LeadingDigits(s[9..])|..];
      && ReplaceSMaxAge(s) == SMaxAgeDirective + ReplaceSMaxAge(t)
      && (t == [] || !IsDigit(t[0]))
  {
    var digits := LeadingDigits(s[9..]);
    var t := s[9 + |digits|..];
    if t != [] {
      assert t[0] == s[9..][|digits|];
    }
  }

  /** The directive followed by text that does not start with a digit is kept as it is. */
  lemma DirectiveThenNonDigit(rt: string)
    requires rt == [] || !IsDigit(rt[0])
    ensures ReplaceSMaxAge(SMaxAgeDirective + rt) == SMaxAgeDirective + ReplaceSMaxAge(rt)
  {
    var r := SMaxAgeDirective + rt;
    DirectiveThenText(rt);
    DirectiveShape();
    LeadingDigitsAppend(SMaxAgeText, rt);
    ReplaceAtMatch(r);
  }

  /** The directive followed by any text is a match, with the digits of the directive after it. */
  lemma DirectiveThenText(rt: string)
    ensures var r := SMaxAgeDirective + rt;
      MatchAt0(r) && r[9..] == SMaxAgeText + rt && r[9 + |SMaxAgeText|..] == rt
  {
    var r := SMaxAgeDirective + rt;
    DirectiveShape();
    assert r[..9] == SMaxAgeDirective[..9];
    assert r[9] == SMaxAgeDirective[9];
  }

  /** Where a match starts, the directive is written and the scan resumes after the digits. */
  lemma ReplaceAtMatch(s: string)
    requires MatchAt0(s)
    ensures ReplaceSMaxAge(s) == SMaxAgeDirective + ReplaceSMaxAge(s[9 + |LeadingDigits(s[9..])|..])
  {
  }

  /** Text in which no match starts is copied unchanged. */
  lemma {:induction false} NoMatchPrefix(x: string, y: string)
    requires forall k :: 0 <= k < |x| ==> !MatchAt0((x + y)[k..])
    ensures ReplaceSMaxAge(x + y) == x + ReplaceSMaxAge(y)
  {
    if x != [] {
      NoMatchShift(x, y);
      NoMatchPrefix(x[1..], y);
      ReplaceStep(x + y);
      ConsConcat(x, y, ReplaceSMaxAge(y));
    } else {
      assert x + y == y;
    }
  }

  lemma ConsConcat<T>(x: seq<T>, y: seq<T>, r: seq<T>)
    requires x != []
    ensures [(x + y)[0]] + (x[1..] + r) == x + r
  {
    assert x == [x[0]] + x[1..];
  }

  /** Where no match starts, the first character is copied and the scan moves on by one. */
  lemma ReplaceStep(s: string)
    requires s != [] && !MatchAt0(s)
    ensures ReplaceSMaxAge(s) == [s[0]] + ReplaceSMaxAge(s[1..])
  {
  }

  /** The hypothesis of `NoMatchPrefix` carries over to the text after the first character. */
  lemma NoMatchShift(x: string, y: string)
    requires x != []
    requires forall k :: 0 <= k < |x| ==> !MatchAt0((x + y)[k..])
    ensures !MatchAt0(x + y) && (x + y)[1..] == x[1..] + y
    ensures forall k :: 0 <= k < |x[1..]| ==> !MatchAt0((x[1..] + y)[k..])
  {
    assert (x + y)[0..] == x + y;
    forall k | 0 <= k < |x[1..]| ensures !MatchAt0((x[1..] + y)[k..]) {
      assert (x[1..] + y)[k..] == (x + y)[k + 1..];
    }
  }

  /** Text without the letter 's' holds no match. */
  lemma NoSPrefix(x: string, y: string)
    requires forall k :: 0 <= k < |x| ==> x[k] != 's'
    ensures ReplaceSMaxAge(x + y) == x + ReplaceSMaxAge(y)
  {
    forall k | 0 <= k < |x| ensures !MatchAt0((x + y)[k..]) {
      assert (x + y)[k..][0] == x[k];
      assert SMaxAgeName[0] == 's';
    }
    NoMatchPrefix(x, y);
  }

  /** An occurrence of "s-maxage" survives the replacement. */
  lemma {:induction false} OccurrenceKept(s: string, j: nat) returns (j': nat)
    requires OccursAt(s, SMaxAgeKey, j)
    decreases |s|
    ensures OccursAt(ReplaceSMaxAge(s), SMaxAgeKey, j')
  {
    if MatchAt0(s) || j == 0 {
      OccurrenceAtFront(s);
      j' := 0;
    } else {
      assert s[1..][j - 1..j - 1 + 8] == s[j..j + 8];
      var k := OccurrenceKept(s[1..], j - 1);
      OccurrenceShifted(s, k);
      j' := k + 1;
    }
  }

  /** A match or an occurrence at the start leaves "s-maxage" at the start. */
  lemma OccurrenceAtFront(s: string)
    requires MatchAt0(s) || OccursAt(s, SMaxAgeKey, 0)
    ensures OccursAt(ReplaceSMaxAge(s), SMaxAgeKey, 0)
  {
    var r := ReplaceSMaxAge(s);
    if MatchAt0(s) {
      DirectiveShape();
      assert r[..|SMaxAgeDirective|] == SMaxAgeDirective;
      assert r[..8] == SMaxAgeDirective[..8];
    } else {
      KeepFront(s);
      assert r[..8] == s[..8];
    }
  }

  /** Past a copied first character, an occurrence moves one place to the right. */
  lemma OccurrenceShifted(s: string, k: nat)
    requires s != [] && !MatchAt0(s) && OccursAt(ReplaceSMaxAge(s[1..]), SMaxAgeKey, k)
    ensures OccursAt(ReplaceSMaxAge(s), SMaxAgeKey, k + 1)
  {
    var t := ReplaceSMaxAge(s[1..]);
    assert ReplaceSMaxAge(s) == [s[0]] + t;
    ConsSlice(s[0], t, k, 8);
  }

  lemma ConsSlice<T>(a: T, t: seq<T>, k: nat, n: nat)
    requires k + n <= |t|
    ensures ([a] + t)[k + 1..k + 1 + n] == t[k..k + n]
  {
  }

  /** PHP truthiness of the result of `strpos`: found, and not at position 0. */
  predicate StrposTruthy(p: Option<nat>) {
    p.Some? && p.value != 0
  }

  /** Every header other than Cache-Control is kept, and Cache-Control is present afterwards. */
  predicate OnlyCacheControlSet(h: Headers, r: Headers) {
    r.Keys == h.Keys + {CacheControl} && forall k :: k in h && k != CacheControl ==> r[k] == h[k]
  }

  /**
   * The rewrite of the Cache-Control header as the source writes it: a header whose first
   * "s-maxage" is at position 0 takes the append branch, since `strpos` returns 0 there.
   */
  function RewriteCacheControlAsWritten(h: Headers): (r: Headers)
    ensures OnlyCacheControlSet(h, r)
  {
    if CacheControl !in h then h[CacheControl := DefaultCacheControl]
    else if StrposTruthy(IndexOf(h[CacheControl], SMaxAgeKey)) then
      h[CacheControl := ReplaceSMaxAge(h[CacheControl])]
    else
      h[CacheControl := h[CacheControl] + ", " + SMaxAgeDirective]
  }

  /** The rewrite as intended: any header that mentions "s-maxage" takes the replace branch. */
  function RewriteCacheControl(h: Headers): (r: Headers)
    ensures OnlyCacheControlSet(h, r)
  {
    if CacheControl !in h then h[CacheControl := DefaultCacheControl]
    else if IndexOf(h[CacheControl], SMaxAgeKey).Some? then
      h[CacheControl := ReplaceSMaxAge(h[CacheControl])]
    else
      h[CacheControl := h[CacheControl] + ", " + SMaxAgeDirective]
  }

  /** The directive is left alone by the replacement. */
  lemma DirectiveIsFixed(d: string)
    requires d == SMaxAgeDirective
    ensures ReplaceSMaxAge(d) == d
  {
    DirectiveShape();
    assert MatchAt0(d);
    LeadingDigitsAppend(d[9..], []);
    assert d[9..] + [] == d[9..];
    assert d[9 + |d[9..]|..] == [];
  }

  /** A leading 's' that does not start "s-maxage=" and a digit is copied. */
  lemma LeadingSCopied(u: string)
    requires u != [] && u[0] != '-'
    ensures ReplaceSMaxAge("s" + u) == "s" + ReplaceSMaxAge(u)
  {
    var t := "s" + u;
    assert t[1] == u[0];
    assert !MatchAt0(t) by {
      if |t| > 9 {
        assert t[..9][1] == t[1];
        assert SMaxAgeName[1] == '-';
      }
    }
    assert t[1..] == u;
  }

  lemma WithoutS(x: string)
    requires x == DefaultMaxAge || x == DefaultStale[1..] || x == ", "
    ensures forall k :: 0 <= k < |x| ==> x[k] != 's'
  {
  }

  /** The default header, split at the 's' of "stale" and at the directive. */
  lemma DefaultShape()
    ensures DefaultCacheControl == DefaultMaxAge + ("s" + (DefaultStale[1..] + SMaxAgeDirective))
    ensures DefaultStale[1] == 't'
  {
    assert DefaultStale == "s" + DefaultStale[1..];
  }

  /** The default header is left alone by the replacement. */
  lemma DefaultIsFixed(c: string)
    requires c == DefaultCacheControl
    ensures ReplaceSMaxAge(c) == c
  {
    var d := SMaxAgeDirective;
    var u := DefaultStale[1..] + d;
    DefaultShape();
    WithoutS(DefaultMaxAge);
    WithoutS(DefaultStale[1..]);
    NoSPrefix(DefaultMaxAge, "s" + u);
    LeadingSCopied(u);
    NoSPrefix(DefaultStale[1..], d);
    DirectiveIsFixed(d);
  }

  /** `strpos` finds "s-maxage" in the default header. */
  lemma DefaultMentionsSMaxAge(c: string)
    requires c == DefaultCacheControl
    ensures IndexOf(c, SMaxAgeKey).Some?
  {
    var d := SMaxAgeDirective;
    var at := |DefaultMaxAge + DefaultStale|;
    DirectiveShape();
    assert c[at..at + 8] == d[..8];
    assert OccursAt(c, SMaxAgeKey, at);
  }

  /** An appended directive is left alone by the replacement. */
  lemma AppendedIsFixed(c: string)
    requires IndexOf(c, SMaxAgeKey).None?
    ensures ReplaceSMaxAge(c + ", " + SMaxAgeDirective) == c + ", " + SMaxAgeDirective
  {
    var d := SMaxAgeDirective;
    var y := ", " + d;
    assert c + ", " + d == c + y;
    NoMatchBeforeAppend(c, y);
    NoMatchPrefix(c, y);
    WithoutS(", ");
    NoSPrefix(", ", d);
    DirectiveIsFixed(d);
  }

  /** No match starts inside a header without "s-maxage" when ", " follows it. */
  lemma NoMatchBeforeAppend(c: string, y: string)
    requires IndexOf(c, SMaxAgeKey).None? && y != [] && y[0] == ','
    ensures forall k :: 0 <= k < |c| ==> !MatchAt0((c + y)[k..])
  {
    forall k | 0 <= k < |c| ensures !MatchAt0((c + y)[k..]) {
      NoMatchAt(c, y, k);
    }
  }

  lemma NoMatchAt(c: string, y: string, k: nat)
    requires k < |c| && y != [] && y[0] == ',' && !OccursAt(c, SMaxAgeKey, k)
    ensures !MatchAt0((c + y)[k..])
  {
    var s := (c + y)[k..];
    NameShape();
    if k + 8 <= |c| {
      assert c[k..k + 8] == s[..8];
      if |s| > 9 {
        assert s[..8] == s[..9][..8];
      }
    } else {
      assert s[|c| - k] == ',';
      if |s| > 9 {
        assert s[..9][|c| - k] == ',';
      }
    }
  }

  /** "s-maxage=" is "s-maxage" and '=', and holds no comma. */
  lemma NameShape()
    ensures SMaxAgeName[..8] == SMaxAgeKey && |SMaxAgeName| == 9
    ensures forall i :: 0 <= i < 9 ==> SMaxAgeName[i] != ','
  {
  }

  /** The next `strpos` finds an appended directive. */
  lemma AppendedIsFound(c: string)
    ensures IndexOf(c + ", " + SMaxAgeDirective, SMaxAgeKey).Some?
  {
    var s := c + ", " + SMaxAgeDirective;
    DirectiveShape();
    assert s[|c| + 2..|c| + 2 + 8] == SMaxAgeDirective[..8];
    assert OccursAt(s, SMaxAgeKey, |c| + 2);
  }

  /** Running the intended rewrite twice gives the same headers as running it once. */
  lemma RewriteIdempotent(h: Headers)
    ensures RewriteCacheControl(RewriteCacheControl(h)) == RewriteCacheControl(h)
  {
    var r := RewriteCacheControl(h);
    if CacheControl !in h {
      DefaultIsFixed(DefaultCacheControl);
      DefaultMentionsSMaxAge(DefaultCacheControl);
    } else if IndexOf(h[CacheControl], SMaxAgeKey).Some? {
      var j := OccurrenceKept(h[CacheControl], IndexOf(h[CacheControl], SMaxAgeKey).value);
      ReplaceIdempotent(h[CacheControl]);
    } else {
      AppendedIsFixed(h[CacheControl]);
      AppendedIsFound(h[CacheControl]);
    }
    assert r[CacheControl := RewriteCacheControl(r)[CacheControl]] == RewriteCacheControl(r);
  }

  /**
   * A Cache-Control header that begins with its s-maxage directive keeps the old directive and
   * gains a second one as written, and gains yet another on every further pass; the intended
   * rewrite replaces it.
   */
  lemma LeadingSMaxAgeIsAppended(h: Headers)
    requires CacheControl in h && h[CacheControl] == "s-maxage=600"
    ensures var h2 := RewriteCacheControlAsWritten(h);
      && h2[CacheControl] == h[CacheControl] + ", " + SMaxAgeDirective
      && RewriteCacheControlAsWritten(h2)[CacheControl] == h2[CacheControl] + ", " + SMaxAgeDirective
      && RewriteCacheControlAsWritten(h2) != h2
    ensures RewriteCacheControl(h)[CacheControl] == SMaxAgeDirective
  {
    var c := h[CacheControl];
    LeadingDirective(c);
    var y := ", " + SMaxAgeDirective;
    LeadingStaysLeading(c, y);
    assert c + ", " + SMaxAgeDirective == c + y;
    var h2 := RewriteCacheControlAsWritten(h);
    var h3 := RewriteCacheControlAsWritten(h2);
    assert |h3[CacheControl]| > |h2[CacheControl]|;
  }

  /** `strpos` finds "s-maxage" at position 0 of "s-maxage=600", and the directive replaces it. */
  lemma LeadingDirective(c: string)
    requires c == "s-maxage=600"
    ensures IndexOf(c, SMaxAgeKey) == Some(0)
    ensures ReplaceSMaxAge(c) == SMaxAgeDirective
  {
    assert OccursAt(c, SMaxAgeKey, 0);
    assert MatchAt0(c);
    assert c[9..] == "600";
    DigitsAreLeadingDigits("600");
    assert c[9 + 3..] == [];
  }

  /** Text appended after a leading "s-maxage" leaves it first. */
  lemma LeadingStaysLeading(c: string, y: string)
    requires IndexOf(c, SMaxAgeKey) == Some(0)
    ensures IndexOf(c + y, SMaxAgeKey) == Some(0)
  {
    assert OccursAt(c, SMaxAgeKey, 0);
    assert (c + y)[..8] == c[..8];
    assert OccursAt(c + y, SMaxAgeKey, 0);
  }

  /** `cache_headers` leaves the headers alone off the sitemap, on its index and month pages, and for today and yesterday. */
  predicate KeepsHeaders(req: Req.Request, now: int)
    ensures !KeepsHeaders(req, now) ==>
      req.onSitemap && Req.Truthy(Req.Day(req)) && !Req.IsToday(req, now) && !Req.IsYesterday(req, now)
    ensures Req.IsDay(req) && !Req.IsToday(req, now) && !Req.IsYesterday(req, now) ==>
      !KeepsHeaders(req, now)
  {
    !req.onSitemap || Req.IsRoot(req) || Req.IsMonth(req) || Req.IsToday(req, now) || Req.IsYesterday(req, now)
  }

  /**
   * What `cache_headers` returns for the headers `h`, with the clock as a parameter: the rewrite
   * as written, so a Cache-Control header that begins with "s-maxage" gains a second directive.
   */
  function FilteredHeaders(req: Req.Request, now: int, h: Headers): (r: Headers)
    ensures KeepsHeaders(req, now) ==> r == h
    ensures !KeepsHeaders(req, now) ==> OnlyCacheControlSet(h, r)
  {
    if KeepsHeaders(req, now) then h else RewriteCacheControlAsWritten(h)
  }

  /** `cache_headers` as intended, with the corrected `strpos` test of the Findings. */
  function FilteredHeadersIntended(req: Req.Request, now: int, h: Headers): (r: Headers)
    ensures KeepsHeaders(req, now) ==> r == h
    ensures !KeepsHeaders(req, now) ==> OnlyCacheControlSet(h, r)
  {
    if KeepsHeaders(req, now) then h else RewriteCacheControl(h)
  }

  /**
   * Only sitemap pages that name a day, other than today and yesterday, get the long cache
   * lifetime; a day page also needs a month to be shown.
   */
  lemma CachedPagesAreOlderDays(req: Req.Request, now: int, h: Headers)
    requires FilteredHeaders(req, now, h) != h
    ensures req.onSitemap && Req.Truthy(Req.Day(req))
    ensures !Req.IsToday(req, now) && !Req.IsYesterday(req, now)
    ensures Req.Truthy(Req.Month(req)) ==> Req.IsDay(req)
  {
  }

  /** The headers have no Cache-Control entry, or one that does not begin with "s-maxage". */
  predicate NoLeadingSMaxAge(h: Headers) {
    CacheControl !in h || IndexOf(h[CacheControl], SMaxAgeKey) != Some(0)
  }

  /**
   * As written, the rewrite keeps Cache-Control from beginning with "s-maxage" and is then
   * stable: a second pass changes nothing. (A header that begins with it grows on every pass,
   * see `LeadingSMaxAgeIsAppended`.)
   */
  lemma RewriteAsWrittenIdempotent(h: Headers)
    requires NoLeadingSMaxAge(h)
    ensures NoLeadingSMaxAge(RewriteCacheControlAsWritten(h))
    ensures StrposTruthy(IndexOf(RewriteCacheControlAsWritten(h)[CacheControl], SMaxAgeKey))
    ensures RewriteCacheControlAsWritten(RewriteCacheControlAsWritten(h)) == RewriteCacheControlAsWritten(h)
  {
    var r := RewriteCacheControlAsWritten(h);
    if CacheControl !in h {
      DefaultStable();
    } else if StrposTruthy(IndexOf(h[CacheControl], SMaxAgeKey)) {
      ReplacedStable(h[CacheControl]);
    } else {
      AppendedStable(h[CacheControl]);
    }
    StableIsFixed(r);
  }

  /** A Cache-Control value that the rewrite as written sends to the replace branch and keeps. */
  predicate Stable(c: string) {
    StrposTruthy(IndexOf(c, SMaxAgeKey)) && ReplaceSMaxAge(c) == c
  }

  lemma StableIsFixed(h: Headers)
    requires CacheControl in h && Stable(h[CacheControl])
    ensures NoLeadingSMaxAge(h) && RewriteCacheControlAsWritten(h) == h
  {
    assert h[CacheControl := h[CacheControl]] == h;
  }

  lemma DefaultStable()
    ensures Stable(DefaultCacheControl)
  {
    DefaultIsFixed(DefaultCacheControl);
    DefaultMentionsSMaxAge(DefaultCacheControl);
    assert DefaultCacheControl[0] == 'm';
    assert !OccursAt(DefaultCacheControl, SMaxAgeKey, 0);
  }

  lemma ReplacedStable(c: string)
    requires StrposTruthy(IndexOf(c, SMaxAgeKey))
    ensures Stable(ReplaceSMaxAge(c))
  {
    var j := OccurrenceKept(c, IndexOf(c, SMaxAgeKey).value);
    ReplaceIdempotent(c);
    NotAtFrontKept(c);
  }

  lemma AppendedStable(c: string)
    requires IndexOf(c, SMaxAgeKey) != Some(0) && !StrposTruthy(IndexOf(c, SMaxAgeKey))
    ensures Stable(c + ", " + SMaxAgeDirective)
  {
    AppendedIsFixed(c);
    AppendedIsFound(c);
    AppendedNotAtFront(c);
  }

  /** The replacement never moves an occurrence of "s-maxage" to position 0. */
  lemma NotAtFrontKept(c: string)
    requires !OccursAt(c, SMaxAgeKey, 0)
    ensures !OccursAt(ReplaceSMaxAge(c), SMaxAgeKey, 0)
  {
    KeepFront(c);
    var r := ReplaceSMaxAge(c);
    if |c| > 9 {
      assert r[..8] == c[..8];
    }
  }

  /** Appending ", s-maxage=2592000" to a header without "s-maxage" does not put it first. */
  lemma AppendedNotAtFront(c: string)
    requires IndexOf(c, SMaxAgeKey).None?
    ensures !OccursAt(c + ", " + SMaxAgeDirective, SMaxAgeKey, 0)
  {
    var s := c + ", " + SMaxAgeDirective;
    if |c| >= 8 {
      assert s[..8] == c[..8];
      assert !OccursAt(c, SMaxAgeKey, 0);
    } else if |s| >= 8 {
      assert s[..8][|c|] == ',';
      assert SMaxAgeKey[|c|] != ',';
    }
  }

  /**
   * Filtering the headers twice gives the same headers as filtering them once, for headers whose
   * Cache-Control does not begin with "s-maxage".
   */
  lemma CacheHeadersIdempotent(req: Req.Request, now: int, h: Headers)
    requires NoLeadingSMaxAge(h)
    ensures FilteredHeaders(req, now, FilteredHeaders(req, now, h)) == FilteredHeaders(req, now, h)
  {
    if !KeepsHeaders(req, now) {
      RewriteAsWrittenIdempotent(h);
    }
  }

  /** With the corrected test, filtering twice equals filtering once for all headers. */
  lemma CacheHeadersIntendedIdempotent(req: Req.Request, now: int, h: Headers)
    ensures FilteredHeadersIntended(req, now, FilteredHeadersIntended(req, now, h))
      == FilteredHeadersIntended(req, now, h)
  {
    RewriteIdempotent(h);
  }

  lemma FilteredHeadersCases(req: Req.Request, now: int, h: Headers)
    ensures !KeepsHeaders(req, now) ==> FilteredHeaders(req, now, h) == RewriteCacheControlAsWritten(h)
    ensures KeepsHeaders(req, now) ==> FilteredHeaders(req, now, h) == h
  {
  }

  /**
   * `cache_headers`: the headers are returned untouched for the pages that may still change;
   * otherwise the Cache-Control entry is added, has its s-maxage replaced when `strpos` is
   * truthy, or has one appended.
   */
  method CacheHeaders(req: Req.Request, now: int, h: Headers) returns (headers: Headers)
    ensures headers == FilteredHeaders(req, now, h)
  {
    headers := h;
    FilteredHeadersCases(req, now, h);
    if KeepsHeaders(req, now) {
      return;
    }
    if CacheControl !in headers {
      headers := headers[CacheControl := DefaultCacheControl];
    } else if StrposTruthy(IndexOf(headers[CacheControl], SMaxAgeKey)) {
      headers := headers[CacheControl := ReplaceSMaxAge(headers[CacheControl])];
    } else {
      headers := headers[CacheControl := headers[CacheControl] + ", " + SMaxAgeDirective];
    }
  }
}
