/**
 * The PHP string built-ins that the sitemap plugin relies on, stated over `string` (a `seq<char>`):
 * integer formatting, `intval`, `is_numeric`, `empty` on strings, `substr`, `strpos`, `implode`
 * and `rtrim`.
 */
module PhpStrings {
  import opened Wrappers

  predicate IsDigit(c: char) { '0' <= c <= '9' }

  predicate AllDigits(s: string) { forall i :: 0 <= i < |s| ==> IsDigit(s[i]) }

  predicate HasDigit(s: string) { exists i :: 0 <= i < |s| && IsDigit(s[i]) }

  function DigitChar(d: int): (c: char)
    requires 0 <= d < 10
    ensures IsDigit(c)
  {
    ('0' as int + d) as char
  }

  function DigitValue(c: char): (d: int)
    requires IsDigit(c)
    ensures 0 <= d < 10 && DigitChar(d) == c
  {
    c as int - '0' as int
  }

  function Abs(n: int): nat { if n < 0 then -n else n }

  /** Decimal digits of `n`, most significant first and without leading zeros (`sprintf('%d')`). */
  function NatToString(n: nat): (s: string)
    ensures 1 <= |s| && AllDigits(s)
    ensures (s[0] == '0') == (n == 0)
  {
    if n < 10 then [DigitChar(n)] else NatToString(n / 10) + [DigitChar(n % 10)]
  }

  /** PHP's string form of an integer: a minus sign for negative values. */
  function IntToString(n: int): string {
    if n < 0 then "-" + NatToString(-n) else NatToString(n)
  }

  /** The value of a run of decimal digits; leading zeros are allowed. */
  function DigitsValue(s: string): nat
    requires AllDigits(s)
  {
    if s == [] then 0 else DigitsValue(s[..|s| - 1]) * 10 + DigitValue(s[|s| - 1])
  }

  lemma {:induction false} DigitsValueOfNatToString(n: nat)
    ensures DigitsValue(NatToString(n)) == n
  {
    if n >= 10 {
      var a := NatToString(n / 10);
      assert (a + [DigitChar(n % 10)])[..|a|] == a;
      DigitsValueOfNatToString(n / 10);
    }
  }

  /** A number of four decimal digits prints as exactly four characters. */
  lemma NatToStringOfFourDigits(n: nat)
    requires 1000 <= n <= 9999
    ensures |NatToString(n)| == 4
  {
    assert |NatToString(n / 1000)| == 1;
    assert |NatToString(n / 100)| == 2;
    assert |NatToString(n / 10)| == 3;
  }

  /** The white-space characters PHP skips around numeric strings: space, \t, \n, \r, \v and \f. */
  predicate IsSpace(c: char) {
    c == ' ' || c == '\t' || c == '\n' || c == '\r' || c == 11 as char || c == 12 as char
  }

  function SkipSpace(s: string): (r: string)
    ensures |r| <= |s| && r == s[|s| - |r|..]
    ensures r != [] ==> !IsSpace(r[0])
  {
    if s != [] && IsSpace(s[0]) then SkipSpace(s[1..]) else s
  }

  function TrimTrailingSpace(s: string): (r: string)
    ensures r <= s
  {
    if s != [] && IsSpace(s[|s| - 1]) then TrimTrailingSpace(s[..|s| - 1]) else s
  }

  /** The longest prefix of `s` made of decimal digits. */
  function LeadingDigits(s: string): (r: string)
    ensures r <= s && AllDigits(r)
    ensures |r| < |s| ==> !IsDigit(s[|r|])
  {
    if s != [] && IsDigit(s[0]) then [s[0]] + LeadingDigits(s[1..]) else []
  }

  /** Digits followed by a non-digit: the digits are the leading run. */
  lemma {:induction false} LeadingDigitsAppend(d: string, y: string)
    requires AllDigits(d) && (y == [] || !IsDigit(y[0]))
    ensures LeadingDigits(d + y) == d
  {
    if d == [] {
    } else {
      assert (d + y)[1..] == d[1..] + y;
      LeadingDigitsAppend(d[1..], y);
    }
  }

  function StripSign(s: string): string {
    if s != [] && (s[0] == '+' || s[0] == '-') then s[1..] else s
  }

  /**
   * `intval` of a string: leading white space is skipped, an optional sign is read, then the
   * longest run of digits; a string with no leading digits gives 0. Only a minus sign gives a
   * negative value.
   */
  function IntVal(s: string): (r: int)
    ensures r < 0 ==> SkipSpace(s) != [] && SkipSpace(s)[0] == '-'
    ensures var t := SkipSpace(s);
      t == [] || !(IsDigit(t[0]) || t[0] == '+' || t[0] == '-') ==> r == 0
  {
    var t := SkipSpace(s);
    if t != [] && t[0] == '-' then -(DigitsValue(LeadingDigits(t[1..])) as int)
    else if t != [] && t[0] == '+' then DigitsValue(LeadingDigits(t[1..]))
    else DigitsValue(LeadingDigits(t))
  }

  /** `absint`: the absolute value of `intval`; a run of digits gives its digit value. */
  function AbsInt(s: string): (r: nat)
    ensures r == 0 <==> IntVal(s) == 0
    ensures AllDigits(s) ==> r == DigitsValue(s)
  {
    if AllDigits(s) then
      DigitStringIntVal(s);
      Abs(IntVal(s))
    else
      Abs(IntVal(s))
  }

  /** An optional exponent part of a numeric string: empty, or e/E, an optional sign and digits. */
  predicate IsExponentOrEmpty(s: string) {
    s == [] || ((s[0] == 'e' || s[0] == 'E') && StripSign(s[1..]) != [] && AllDigits(StripSign(s[1..])))
  }

  /**
   * `is_numeric` of a string in PHP 8: optional surrounding white space, an optional sign, digits
   * with an optional fraction (at least one digit on either side of the point) and an optional
   * exponent. A numeric string holds at least one digit.
   */
  predicate IsNumeric(s: string)
    ensures IsNumeric(s) ==> HasDigit(s)
  {
    NumericBodyHasDigit(s);
    IsNumericBody(StripSign(TrimTrailingSpace(SkipSpace(s))))
  }

  /**
   * The unsigned body of a numeric string holds a digit, and skipping white space, trimming it
   * and dropping a sign only remove characters around the body.
   */
  lemma NumericBodyHasDigit(s: string)
    ensures IsNumericBody(StripSign(TrimTrailingSpace(SkipSpace(s)))) ==> HasDigit(s)
  {
    var a := SkipSpace(s);
    var b := TrimTrailingSpace(a);
    var c := StripSign(b);
    if IsNumericBody(c) {
      var k := BodyHasDigit(c);
      DigitAt(c, k);
      if c != b {
        DigitInTail(b);
      }
      DigitInPrefix(a, b);
      DigitInSuffix(s, a);
    }
  }

  lemma DigitAt(s: string, k: nat)
    requires k < |s| && IsDigit(s[k])
    ensures HasDigit(s)
  {
  }

  lemma DigitInTail(b: string)
    requires b != [] && HasDigit(StripSign(b))
    ensures HasDigit(b)
  {
    var c := StripSign(b);
    var i :| 0 <= i < |c| && IsDigit(c[i]);
    if c != b {
      assert b[i + 1] == c[i];
    }
  }

  lemma DigitInPrefix(a: string, b: string)
    requires b <= a && HasDigit(b)
    ensures HasDigit(a)
  {
    var i :| 0 <= i < |b| && IsDigit(b[i]);
    assert a[i] == b[i];
  }

  lemma DigitInSuffix(s: string, a: string)
    requires |a| <= |s| && a == s[|s| - |a|..] && HasDigit(a)
    ensures HasDigit(s)
  {
    var i :| 0 <= i < |a| && IsDigit(a[i]);
    assert s[|s| - |a| + i] == a[i];
  }

  /** A numeric body has a whole digit or a fraction digit. */
  lemma BodyHasDigit(c: string) returns (k: nat)
    requires IsNumericBody(c)
    ensures k < |c| && IsDigit(c[k])
  {
    var whole := LeadingDigits(c);
    if whole != [] {
      k := 0;
      assert c[0] == whole[0];
    } else {
      var rest := c[|whole|..];
      assert rest == c && rest != [] && rest[0] == '.';
      var frac := LeadingDigits(rest[1..]);
      assert frac != [] && frac[0] == rest[1..][0];
      k := 1;
    }
  }

  /** The unsigned part of a numeric string: whole digits, then the rest. */
  predicate IsNumericBody(b: string) {
    var whole := LeadingDigits(b);
    IsNumericRest(whole != [], b[|whole|..])
  }

  /** What may follow the whole digits: a fraction and/or an exponent. */
  predicate IsNumericRest(hasWhole: bool, rest: string) {
    if rest != [] && rest[0] == '.' then
      var frac := LeadingDigits(rest[1..]);
      (hasWhole || frac != []) && IsExponentOrEmpty(rest[1 + |frac|..])
    else
      hasWhole && IsExponentOrEmpty(rest)
  }

  /** `empty()` of a string: the empty string and "0" are empty, and both are worth 0. */
  predicate IsEmpty(s: string)
    ensures IsEmpty(s) ==> IntVal(s) == 0
  {
    if s == "0" then ZeroIntVal(); true else s == ""
  }

  lemma ZeroIntVal()
    ensures IntVal("0") == 0
  {
    var z := "0";
    assert AllDigits(z) by {
      assert z[0] == '0';
    }
    DigitStringIntVal(z);
    assert z[..0] == [];
    assert DigitsValue(z) == DigitsValue([]) * 10 + DigitValue('0') == 0;
  }

  /** `intval` of a run of digits is its digit value. */
  lemma DigitStringIntVal(s: string)
    requires AllDigits(s)
    ensures SkipSpace(s) == s && LeadingDigits(s) == s
    ensures IntVal(s) == DigitsValue(s)
  {
    DigitsAreLeadingDigits(s);
    if s != [] {
      assert !IsSpace(s[0]);
    }
  }

  /** A non-empty run of digits is a numeric string. */
  lemma DigitStringIsNumeric(s: string)
    requires AllDigits(s) && s != []
    ensures IsNumeric(s)
  {
    DigitsAreLeadingDigits(s);
    assert IsNumericRest(true, []);
    assert s[|s|..] == [];
    assert IsNumericBody(s);
    assert !IsSpace(s[0]) && !IsSpace(s[|s| - 1]);
    assert StripSign(TrimTrailingSpace(SkipSpace(s))) == s;
  }

  lemma {:induction false} DigitsAreLeadingDigits(s: string)
    requires AllDigits(s)
    ensures LeadingDigits(s) == s
  {
    if s != [] {
      DigitsAreLeadingDigits(s[1..]);
    }
  }

  /** `substr($s, $start, $length)` for non-negative start and length. */
  function Substr(s: string, start: nat, length: nat): (r: string)
    ensures |r| <= length
  {
    if start >= |s| then "" else s[start..if start + length < |s| then start + length else |s|]
  }

  predicate OccursAt(s: string, pattern: string, i: nat) {
    i + |pattern| <= |s| && s[i..i + |pattern|] == pattern
  }

  /** `strpos`: the first position where `pattern` occurs in `s`, or None where PHP gives false. */
  function IndexOf(s: string, pattern: string): (r: Option<nat>)
    ensures r.Some? ==> OccursAt(s, pattern, r.value)
    ensures r.Some? ==> forall j :: 0 <= j < r.value ==> !OccursAt(s, pattern, j)
    ensures r.None? ==> forall j :: 0 <= j ==> !OccursAt(s, pattern, j)
    decreases |s|
  {
    if pattern <= s then Some(0)
    else if s == [] then None
    else
      match IndexOf(s[1..], pattern)
      case None =>
        assert forall j :: 1 <= j ==> (OccursAt(s, pattern, j) <==> OccursAt(s[1..], pattern, j - 1));
        None
      case Some(i) =>
        assert forall j :: 1 <= j ==> (OccursAt(s, pattern, j) <==> OccursAt(s[1..], pattern, j - 1));
        Some(i + 1)
  }

  /** `implode($sep, $parts)`. */
  function Join(parts: seq<string>, sep: string): string {
    if |parts| == 0 then ""
    else if |parts| == 1 then parts[0]
    else Join(parts[..|parts| - 1], sep) + sep + parts[|parts| - 1]
  }

  /** `implode('', $parts)`. */
  function Concat(parts: seq<string>): string {
    if parts == [] then "" else Concat(parts[..|parts| - 1]) + parts[|parts| - 1]
  }

  lemma ConcatAppend(parts: seq<string>, last: string)
    ensures Concat(parts + [last]) == Concat(parts) + last
  {
    assert (parts + [last])[..|parts|] == parts;
  }

  lemma JoinAppend(parts: seq<string>, last: string, sep: string)
    ensures Join(parts + [last], sep) == if parts == [] then last else Join(parts, sep) + sep + last
  {
    assert (parts + [last])[..|parts|] == parts;
  }

  /** `rtrim($s, $chars)`: drop every trailing character that belongs to `chars`. */
  function RTrim(s: string, chars: set<char>): (r: string)
    ensures r <= s && (r != [] ==> r[|r| - 1] !in chars)
    ensures forall k :: |r| <= k < |s| ==> s[k] in chars
  {
    if s != [] && s[|s| - 1] in chars then RTrim(s[..|s| - 1], chars) else s
  }
}
