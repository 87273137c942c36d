/**
  Article ids in request URLs: the URL the service builds for a delete
  request, and the delete handler's recovery of the id from the last path
  segment (`url.split('/')` followed by `parseInt(segment, 10)`).

  `parseInt` is modelled as a decimal-prefix parse: an optional `+` or `-`
  sign, then the longest run of decimal digits; no digit there gives NaN
  (here `None`). Everything after the digits is ignored. Leading whitespace
  is not skipped (see README).
 */
module UrlIds {
  import opened Articles

  /** The fixed endpoint of the article resource. */
  const ApiUrl: string := "http://127.0.0.1:5000/api/articles"

  // ---------------------------------------------------------------------
  // Splitting on a separator

  /** The parts put back together with `sep` between them (`Array.prototype.join`). */
  function Join(parts: seq<string>, sep: char): string
    requires |parts| > 0
  {
    if |parts| == 1 then parts[0]
    else Join(parts[..|parts| - 1], sep) + [sep] + parts[|parts| - 1]
  }

  /**
    `String.prototype.split` with a one-character separator: the maximal
    separator-free pieces of `s`, in order; joining them gives `s` back.
   */
  function Split(s: string, sep: char): (parts: seq<string>)
    ensures |parts| > 0
    ensures forall k :: 0 <= k < |parts| ==> sep !in parts[k]
    ensures Join(parts, sep) == s
    decreases |s|
  {
    if s == [] then [[]]
    else
      var init := Split(s[..|s| - 1], sep);
      var c := s[|s| - 1];
      assert s == s[..|s| - 1] + [c];
      if c == sep then
        JoinAddPart(init, sep, []);
        init + [[]]
      else
        JoinExtendLast(init, sep, c);
        init[..|init| - 1] + [init[|init| - 1] + [c]]
  }

  lemma JoinAddPart(parts: seq<string>, sep: char, x: string)
    requires |parts| > 0
    ensures Join(parts + [x], sep) == Join(parts, sep) + [sep] + x
  {
    assert (parts + [x])[..|parts|] == parts;
  }

  lemma JoinExtendLast(parts: seq<string>, sep: char, c: char)
    requires |parts| > 0
    requires c != sep
    requires forall k :: 0 <= k < |parts| ==> sep !in parts[k]
    ensures var r := parts[..|parts| - 1] + [parts[|parts| - 1] + [c]];
            && Join(r, sep) == Join(parts, sep) + [c]
            && forall k :: 0 <= k < |r| ==> sep !in r[k]
  {
    var n := |parts| - 1;
    var r := parts[..n] + [parts[n] + [c]];
    assert r[..n] == parts[..n];
    forall k | 0 <= k < |r|
      ensures sep !in r[k]
    {
      if k < n {
        assert r[k] == parts[k];
      } else {
        assert r[k] == parts[n] + [c];
      }
    }
  }

  /**
    The last element of `split(sep)`: the longest suffix of `s` without a
    separator. It is all of `s`, or a separator stands right before it.
   */
  function LastSegment(s: string, sep: char): (r: string)
    ensures |r| <= |s| && r == s[|s| - |r|..]
    ensures sep !in r
    ensures |r| < |s| ==> s[|s| - |r| - 1] == sep
  {
    var parts := Split(s, sep);
    var r := parts[|parts| - 1];
    assert parts[|parts| - 1] in parts;
    r
  }

  /** The separator-free suffix that follows the last separator is unique. */
  lemma LastSegmentAfter(prefix: string, sep: char, t: string)
    requires sep !in t
    ensures LastSegment(prefix + [sep] + t, sep) == t
  {
    var s := prefix + [sep] + t;
    var r := LastSegment(s, sep);
    assert s[|prefix|] == sep;
    assert s[|prefix| + 1..] == t;
  }

  // ---------------------------------------------------------------------
  // Decimal digits

  predicate IsDigit(c: char)
  {
    '0' <= c <= '9'
  }

  ghost predicate AllDigits(s: string)
  {
    forall k :: 0 <= k < |s| ==> IsDigit(s[k])
  }

  function DigitValue(c: char): nat
    requires IsDigit(c)
  {
    c as int - '0' as int
  }

  function DigitChar(d: nat): (c: char)
    requires d < 10
    ensures IsDigit(c) && DigitValue(c) == d
  {
    ('0' as int + d) as char
  }

  /** The decimal numeral of `n` without leading zeros (`${n}` for n >= 0). */
  function NatToDecimal(n: nat): (s: string)
    ensures |s| > 0 && AllDigits(s)
    decreases n
  {
    if n < 10 then [DigitChar(n)]
    else NatToDecimal(n / 10) + [DigitChar(n % 10)]
  }

  /** The decimal numeral of an integer, with `-` before a negative one (`${n}`). */
  function IntToDecimal(n: int): (s: string)
    ensures n >= 0 ==> s != [] && AllDigits(s)
    ensures n < 0 ==> |s| > 1 && s[0] == '-' && AllDigits(s[1..])
    ensures '/' !in s
  {
    if n < 0 then ['-'] + NatToDecimal(-n) else NatToDecimal(n)
  }

  /** The value of a run of decimal digits, most significant first. */
  function DecimalValue(ds: string): nat
    requires AllDigits(ds)
  {
    if ds == [] then 0
    else DecimalValue(ds[..|ds| - 1]) * 10 + DigitValue(ds[|ds| - 1])
  }

  /** The longest prefix of `s` made of decimal digits. */
  function LeadingDigits(s: string): (d: string)
    ensures d <= s && AllDigits(d)
    ensures |d| < |s| ==> !IsDigit(s[|d|])
  {
    if s != [] && IsDigit(s[0]) then [s[0]] + LeadingDigits(s[1..]) else []
  }

  /** 1 when `s` starts with a sign character, 0 otherwise. */
  function SignLength(s: string): nat
  {
    if |s| > 0 && (s[0] == '-' || s[0] == '+') then 1 else 0
  }

  /** The value of the leading digits of `s`, or `None` when it starts with none. */
  function ParseDigits(s: string): (r: Option<int>)
    ensures r.Some? <==> s != [] && IsDigit(s[0])
    ensures r.Some? ==> r.value >= 0
  {
    var d := LeadingDigits(s);
    if d == [] then None else Some(DecimalValue(d))
  }

  /**
    `parseInt(s, 10)` as a decimal-prefix parse. It is NaN (`None`) exactly
    when no digit follows the optional sign, and negative only after `-`.
   */
  function ParseInt(s: string): (r: Option<int>)
    ensures r.Some? <==> SignLength(s) < |s| && IsDigit(s[SignLength(s)])
    ensures r.Some? && r.value < 0 ==> s[0] == '-'
  {
    if |s| > 0 && s[0] == '-' then
      match ParseDigits(s[1..])
      case None => None
      case Some(v) => Some(-v)
    else if |s| > 0 && s[0] == '+' then ParseDigits(s[1..])
    else ParseDigits(s)
  }

  /**
    Non-canonical numerals read as `parseInt(s, 10)` does: a `+` sign and
    leading zeros are accepted, parsing stops at the first non-digit, and a
    sign with no digit after it is NaN.
   */
  lemma ParseIntExamples()
    ensures ParseInt("+5") == Some(5)
    ensures ParseInt("007") == Some(7)
    ensures ParseInt("-007") == Some(-7)
    ensures ParseInt("0x10") == Some(0)
    ensures ParseInt("12abc") == Some(12)
    ensures ParseInt("+-5") == None
    ensures ParseInt("-") == None
    ensures ParseInt("") == None
    ensures ParseInt("abc") == None
  {
    assert "+5"[1..] == "5";
    LeadingDigitsOf("007", []);
    assert "007" + [] == "007";
    assert "007"[..2] == "00" && "00"[..1] == "0" && "0"[..0] == [];
    assert "-007"[1..] == "007";
    assert "0x10"[1..] == "x10";
    assert "12abc"[1..] == "2abc" && "2abc"[1..] == "abc";
    assert "+-5"[1..] == "-5";
  }

  lemma {:induction false} DecimalValueOfNumeral(n: nat)
    ensures DecimalValue(NatToDecimal(n)) == n
    decreases n
  {
    if n >= 10 {
      DecimalValueOfNumeral(n / 10);
      var s := NatToDecimal(n);
      assert s[..|s| - 1] == NatToDecimal(n / 10);
    }
  }

  lemma {:induction false} LeadingDigitsOf(d: string, rest: string)
    requires AllDigits(d)
    requires rest == [] || !IsDigit(rest[0])
    ensures LeadingDigits(d + rest) == d
    decreases |d|
  {
    if d != [] {
      assert (d + rest)[1..] == d[1..] + rest;
      LeadingDigitsOf(d[1..], rest);
      assert d == [d[0]] + d[1..];
    } else {
      assert d + rest == rest;
    }
  }

  /**
    Parsing stops at the end of a numeral: the numeral of `n`, followed by
    anything that does not start with a digit, parses back to `n`.
   */
  lemma ParseIntOfNumeral(n: int, rest: string)
    requires rest == [] || !IsDigit(rest[0])
    ensures ParseInt(IntToDecimal(n) + rest) == Some(n)
  {
    if n < 0 {
      assert IntToDecimal(n) + rest == ['-'] + (NatToDecimal(-n) + rest);
      ParseNumeralAfterMinus(-n, rest);
    } else {
      ParseUnsignedNumeral(n, rest);
    }
  }

  lemma ParseUnsignedNumeral(m: nat, rest: string)
    requires rest == [] || !IsDigit(rest[0])
    ensures ParseDigits(NatToDecimal(m) + rest) == Some(m)
    ensures ParseInt(NatToDecimal(m) + rest) == Some(m)
  {
    LeadingDigitsOf(NatToDecimal(m), rest);
    DecimalValueOfNumeral(m);
  }

  lemma ParseNumeralAfterMinus(m: nat, rest: string)
    requires rest == [] || !IsDigit(rest[0])
    ensures ParseInt(['-'] + (NatToDecimal(m) + rest)) == Some(-(m as int))
  {
    var u := NatToDecimal(m) + rest;
    ParseUnsignedNumeral(m, rest);
    assert (['-'] + u)[1..] == u;
  }

  /** `parseInt(`${n}`, 10) === n`. */
  lemma ParseIntRoundTrip(n: int)
    ensures ParseInt(IntToDecimal(n)) == Some(n)
  {
    ParseIntOfNumeral(n, []);
    assert IntToDecimal(n) + [] == IntToDecimal(n);
  }

  // ---------------------------------------------------------------------
  // The id in a delete URL

  /** The URL `deleteArticle(id)` sends its request to: `${API_URL}/${id}`. */
  function DeleteUrl(id: int): (url: string)
    ensures |ApiUrl| < |url| && url[..|ApiUrl|] == ApiUrl && url[|ApiUrl|] == '/'
    ensures LastSegment(url, '/') == IntToDecimal(id)
  {
    var url := ApiUrl + ['/'] + IntToDecimal(id);
    LastSegmentAfter(ApiUrl, '/', IntToDecimal(id));
    url
  }

  /**
    What the delete handler reads from its request URL: nothing when the URL
    is missing or empty (both falsy), otherwise `parseInt` of the last
    `/`-separated segment, which is NaN (`None`) unless a digit leads it.
   */
  function DeleteTargetId(url: Option<string>): (r: Option<int>)
    ensures url.None? || url == Some([]) ==> r.None?
  {
    if url.Some? && url.value != [] then ParseInt(LastSegment(url.value, '/')) else None
  }

  /** The handler recovers the very id `deleteArticle` put in the URL. */
  lemma DeleteUrlRoundTrip(id: int)
    ensures DeleteTargetId(Some(DeleteUrl(id))) == Some(id)
  {
    ParseIntRoundTrip(id);
  }

  /** A delete sent to the collection URL itself carries no id. */
  lemma DeleteOfCollectionUrl()
    ensures DeleteTargetId(Some(ApiUrl)) == None
  {
    LastSegmentAfter("http://127.0.0.1:5000/api", '/', "articles");
    assert ApiUrl == "http://127.0.0.1:5000/api" + ['/'] + "articles";
  }

  /** A trailing slash leaves an empty last segment, which is NaN. */
  lemma DeleteWithTrailingSlash(id: int)
    ensures DeleteTargetId(Some(DeleteUrl(id) + "/")) == None
  {
    LastSegmentAfter(DeleteUrl(id), '/', []);
    assert DeleteUrl(id) + "/" == DeleteUrl(id) + ['/'] + [];
  }
}
