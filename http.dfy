/** Domain rules of lib/http.js: response classification, header lookup, RFC 6265 domain matching
    and first-party checks over the Public Suffix List. */
module Http {
  import opened Wrappers
  import opened Strings

  // ---------------------------------------------------------------------------
  // isSuccessfulResponse

  /** `Math.round(code / 100)`: the nearest integer to code/100, halves rounded up. */
  function StatusCategory(code: int): (category: int)
    ensures 100 * category - 50 <= code < 100 * category + 50
  {
    (code + 50) / 100
  }

  /** A 2xx or 3xx status, after rounding code/100 to the nearest integer. */
  function IsSuccessfulResponse(code: int): (ok: bool)
    ensures ok <==> 150 <= code < 350
  {
    var category := StatusCategory(code);
    category == 2 || category == 3
  }

  lemma SuccessfulResponseExamples()
    ensures IsSuccessfulResponse(200) && IsSuccessfulResponse(302)
    ensures !IsSuccessfulResponse(100) && !IsSuccessfulResponse(404)
  {
  }

  // ---------------------------------------------------------------------------
  // readHeaderValue

  /** One entry of `Object.entries(headers)`, in the object's key order. */
  datatype Header = Header(name: string, value: string)

  /** Index of the first header whose lower-cased name is `lowerName`. */
  function FirstHeaderIndex(headers: seq<Header>, lowerName: string): (r: Option<nat>)
    ensures r.Some? ==> r.value < |headers| && Lower(headers[r.value].name) == lowerName
    ensures r.Some? ==> forall j :: 0 <= j < r.value ==> Lower(headers[j].name) != lowerName
    ensures r.None? ==> forall j :: 0 <= j < |headers| ==> Lower(headers[j].name) != lowerName
  {
    if |headers| == 0 then None
    else if Lower(headers[0].name) == lowerName then Some(0)
    else match FirstHeaderIndex(headers[1..], lowerName)
      case None => None
      case Some(i) => Some(i + 1)
  }

  /** The value of the first entry whose name equals `name` ignoring case; None stands for `null`. */
  function ReadHeaderValue(headers: seq<Header>, name: string): (r: Option<string>)
    ensures r.None? <==> forall j :: 0 <= j < |headers| ==> Lower(headers[j].name) != Lower(name)
    ensures r.Some? ==> exists i :: 0 <= i < |headers| && Lower(headers[i].name) == Lower(name)
                               && r.value == headers[i].value
                               && forall j :: 0 <= j < i ==> Lower(headers[j].name) != Lower(name)
  {
    match FirstHeaderIndex(headers, Lower(name))
    case None => None
    case Some(i) => Some(headers[i].value)
  }

  // ---------------------------------------------------------------------------
  // Public Suffix List (the `psl` package), as an oracle

  /** What `psl.parse` returns: an error object, or the parsed parts (`null` is None). */
  datatype PslResult =
    | PslError
    | PslParsed(listed: bool, sld: Option<string>, domain: Option<string>)

  /** The two `psl` entry points the code calls. */
  datatype Psl = Psl(parse: string -> PslResult, get: string -> Option<string>)

  /** `psl.get(d)` is the eTLD+1 that `psl.parse(d)` reports, as the `psl` package defines it. */
  ghost predicate ConsistentPsl(psl: Psl)
  {
    forall d :: psl.get(d) == (match psl.parse(d) case PslError => None case PslParsed(_, _, e) => e)
  }

  /** `!error && listed && sld === null`. */
  predicate IsPublicSuffix(psl: Psl, value: string)
  {
    var p := psl.parse(value);
    p.PslParsed? && p.listed && p.sld.None?
  }

  /** As the `psl` package parses, a name has an eTLD+1 exactly when it has a second-level label. */
  ghost predicate RegistrableIffSld(psl: Psl)
  {
    forall d :: psl.parse(d).PslParsed? ==> (psl.parse(d).domain.None? <==> psl.parse(d).sld.None?)
  }

  /** Index of the last `c` in `s`. */
  function LastIndexOf(s: string, c: char): (r: Option<nat>)
    ensures r.None? ==> c !in s
    ensures r.Some? ==> r.value < |s| && s[r.value] == c && c !in s[r.value + 1..]
  {
    if |s| == 0 then None
    else if s[|s| - 1] == c then Some(|s| - 1)
    else
      var r := LastIndexOf(s[..|s| - 1], c);
      assert r.Some? ==> s[r.value + 1..] == s[..|s| - 1][r.value + 1..] + [s[|s| - 1]];
      r
  }

  /** `s.split(".").slice(-1)[0]`: the text after the last dot, or all of `s`. */
  function LastLabel(s: string): (last: string)
    ensures '.' !in last && EndsWith(s, last)
    ensures |last| < |s| ==> s[|s| - |last| - 1] == '.'
  {
    var parts := Split(s, '.');
    LastLabelOfSplit(s);
    parts[|parts| - 1]
  }

  lemma LastLabelOfSplit(s: string)
    ensures var p := Split(s, '.');
      LastIndexOf(s, '.').None? ==> p[|p| - 1] == s
    ensures var p := Split(s, '.');
      LastIndexOf(s, '.').Some? ==> p[|p| - 1] == s[LastIndexOf(s, '.').value + 1..]
  {
    match LastIndexOf(s, '.')
    case None =>
      SplitNoSeparator(s, '.');
    case Some(k) =>
      assert s == s[..k] + ['.'] + s[k + 1..];
      SplitAppend(s[..k], s[k + 1..], '.');
      SplitNoSeparator(s[k + 1..], '.');
  }

  lemma LastLabelWithoutDot(s: string)
    requires '.' !in s
    ensures LastLabel(s) == s
  {
    SplitNoSeparator(s, '.');
  }

  lemma LastLabelAfterDot(x: string, y: string)
    requires '.' !in y
    ensures LastLabel(x + "." + y) == y
  {
    assert x + "." + y == x + ['.'] + y;
    SplitAppend(x, y, '.');
    SplitNoSeparator(y, '.');
  }

  /** Same eTLD+1 when the domain has a listed public suffix, otherwise the same last label. */
  function IsFirstParty(psl: Psl, domain: string, firstPartyDomain: string): bool
  {
    var p := psl.parse(domain);
    if p.PslParsed? && p.listed then p.domain == psl.get(firstPartyDomain)
    else LastLabel(domain) == LastLabel(firstPartyDomain)
  }

  /** Every domain is first party to itself, given that `psl.get` agrees with `psl.parse`. */
  lemma FirstPartyReflexive(psl: Psl, domain: string)
    requires ConsistentPsl(psl)
    ensures IsFirstParty(psl, domain, domain)
  {
    assert psl.get(domain) == (match psl.parse(domain) case PslError => None case PslParsed(_, _, e) => e);
  }

  /** A public suffix has no eTLD+1, so it is first party exactly to the names that have none. */
  lemma PublicSuffixFirstParty(psl: Psl, suffix: string, other: string)
    requires RegistrableIffSld(psl) && IsPublicSuffix(psl, suffix)
    ensures IsFirstParty(psl, suffix, other) <==> psl.get(other).None?
  {
    assert psl.parse(suffix).domain.None?;
  }

  lemma FirstPartyLocalhostExample(psl: Psl)
    requires !psl.parse("localhost").PslParsed? || !psl.parse("localhost").listed
    ensures IsFirstParty(psl, "localhost", "www.localhost")
  {
    assert "www" + "." + "localhost" == "www.localhost";
    FirstPartyUnlistedSubdomain(psl, "www", "localhost");
  }

  /** Without a listed suffix, a single-label name is first party to every name under it. */
  lemma FirstPartyUnlistedSubdomain(psl: Psl, sub: string, domain: string)
    requires !psl.parse(domain).PslParsed? || !psl.parse(domain).listed
    requires '.' !in domain
    ensures IsFirstParty(psl, domain, sub + "." + domain)
  {
    LastLabelWithoutDot(domain);
    LastLabelAfterDot(sub, domain);
  }

  // ---------------------------------------------------------------------------
  // matchDomain (section 5.1.3 of RFC 6265)

  /** `/^\[|\.\d+$/`: an IPv6 literal, or a string ending in a dot and one or more digits. */
  predicate IsIpLike(domain: string)
  {
    (|domain| > 0 && domain[0] == '[')
    || exists k :: 0 <= k < |domain| - 1 && domain[k] == '.' && AllDigits(domain[k + 1..])
  }

  function Reverse<T>(s: seq<T>): (r: seq<T>)
    ensures |r| == |s|
    ensures forall i :: 0 <= i < |s| ==> r[i] == s[|s| - 1 - i]
  {
    seq(|s|, i requires 0 <= i < |s| => s[|s| - 1 - i])
  }

  /** `valueParts.every((part, index) => part === domainParts[index])`. */
  predicate LabelsAgree(valueParts: seq<string>, domainParts: seq<string>)
  {
    forall i :: 0 <= i < |valueParts| ==> i < |domainParts| && valueParts[i] == domainParts[i]
  }

  /** matchDomain(value, domain): `value` is the cookie's Domain attribute, `domain` the request host. */
  predicate MatchDomain(value: string, domain: string)
  {
    var v := Lower(value);
    if v == domain then true
    else if EndsWith(v, ".") || IsIpLike(domain) then false
    else LabelsAgree(Reverse(Split(v, '.')), Reverse(Split(domain, '.')))
  }

  /** A host whose last character is not a digit and that does not start with "[" is not IP-like. */
  lemma NotIpLike(domain: string)
    requires |domain| > 0 && domain[0] != '[' && !IsDigit(domain[|domain| - 1])
    ensures !IsIpLike(domain)
  {
    forall k | 0 <= k < |domain| - 1
      ensures !(domain[k] == '.' && AllDigits(domain[k + 1..]))
    {
      assert domain[k + 1..][|domain| - k - 2] == domain[|domain| - 1];
    }
  }

  /** The RFC's "the domain string is a suffix of the string, and the last character of the string
      that is not included in the domain string is a dot". */
  predicate IsDotSuffix(v: string, d: string)
  {
    |v| < |d| && d[|d| - |v|..] == v && d[|d| - |v| - 1] == '.'
  }

  predicate IsLabelSuffix(a: seq<string>, b: seq<string>)
  {
    |a| <= |b| && b[|b| - |a|..] == a
  }

  lemma LabelsAgreeLength(valueParts: seq<string>, domainParts: seq<string>)
    ensures LabelsAgree(valueParts, domainParts) ==> |valueParts| <= |domainParts|
  {
    if |valueParts| > |domainParts| {
      var beyond := valueParts[|domainParts|];
    }
  }

  lemma LabelsAgreeReversed(a: seq<string>, b: seq<string>)
    ensures LabelsAgree(Reverse(a), Reverse(b)) <==> IsLabelSuffix(a, b)
  {
    var ra, rb := Reverse(a), Reverse(b);
    LabelsAgreeLength(ra, rb);
    if LabelsAgree(ra, rb) {
      forall j | 0 <= j < |a|
        ensures b[|b| - |a|..][j] == a[j]
      {
        var i := |a| - 1 - j;
        assert ra[i] == a[j];
        assert rb[i] == b[|b| - 1 - i];
      }
    }
    if IsLabelSuffix(a, b) {
      forall i | 0 <= i < |ra|
        ensures i < |rb| && ra[i] == rb[i]
      {
        var j := |a| - 1 - i;
        assert b[|b| - |a|..][j] == a[j];
      }
    }
  }

  /** Labels of one name are a trailing run of the other's exactly when it is equal or a dot-suffix. */
  lemma LabelSuffixIffDotSuffix(v: string, d: string)
    ensures IsLabelSuffix(Split(v, '.'), Split(d, '.')) <==> v == d || IsDotSuffix(v, d)
  {
    if IsDotSuffix(v, d) {
      DotSuffixLabels(v, d);
    }
    if IsLabelSuffix(Split(v, '.'), Split(d, '.')) {
      LabelSuffixDots(v, d);
    }
  }

  lemma DotSuffixLabels(v: string, d: string)
    requires IsDotSuffix(v, d)
    ensures IsLabelSuffix(Split(v, '.'), Split(d, '.'))
  {
    var a, b := Split(v, '.'), Split(d, '.');
    var x := d[..|d| - |v| - 1];
    assert d == x + ['.'] + v;
    SplitAppend(x, v, '.');
    assert b == Split(x, '.') + a;
    assert b[|b| - |a|..] == a;
  }

  lemma LabelSuffixDots(v: string, d: string)
    requires IsLabelSuffix(Split(v, '.'), Split(d, '.'))
    ensures v == d || IsDotSuffix(v, d)
  {
    var a, b := Split(v, '.'), Split(d, '.');
    var k := |b| - |a|;
    JoinSplit(v, '.');
    JoinSplit(d, '.');
    if k == 0 {
      assert b == a;
    } else {
      assert b == b[..k] + b[k..];
      JoinAppend(b[..k], b[k..], ".");
      var x := Join(b[..k], ".");
      assert d == x + "." + v;
      assert d[|d| - |v|..] == v;
      assert d[|d| - |v| - 1] == '.';
    }
  }

  /** matchDomain is the domain-match relation of section 5.1.3 of RFC 6265 (after lower-casing the
      Domain attribute): identical strings, or a dot-suffix of a host name that is not an IP literal. */
  lemma MatchDomainMeaning(value: string, domain: string)
    ensures var v := Lower(value);
      MatchDomain(value, domain) <==>
        v == domain || (!EndsWith(v, ".") && !IsIpLike(domain) && IsDotSuffix(v, domain))
  {
    var v := Lower(value);
    LabelsAgreeReversed(Split(v, '.'), Split(domain, '.'));
    LabelSuffixIffDotSuffix(v, domain);
  }

  lemma MatchDomainIdentical(value: string)
    ensures MatchDomain(value, Lower(value))
  {
  }

  /** A lower-case name matches every host that is a label put in front of it. */
  lemma MatchDomainOfParent(sub: string, v: string)
    requires HasNoUpper(v) && |v| > 0 && v[|v| - 1] != '.' && !IsDigit(v[|v| - 1])
    requires |sub| > 0 && sub[0] != '['
    ensures MatchDomain(v, sub + "." + v)
  {
    var d := sub + "." + v;
    LowerOfLowercase(v);
    assert d[0] == sub[0] && d[|d| - 1] == v[|v| - 1];
    NotIpLike(d);
    MatchDomainMeaning(v, d);
    assert d[|d| - |v|..] == v;
    assert d[|d| - |v| - 1] == '.';
  }

  /** A lower-case name that ends the host inside a label does not match it. */
  lemma MatchDomainInsideLabel(v: string, d: string)
    requires HasNoUpper(v) && |v| < |d| && d[|d| - |v| - 1] != '.'
    ensures !MatchDomain(v, d)
  {
    LowerOfLowercase(v);
    MatchDomainMeaning(v, d);
  }

  /** Labels are compared whole: a shorter first label does not match. */
  lemma MatchDomainWholeLabels()
    ensures !MatchDomain("w.example.com", "www.example.com")
  {
    MatchDomainInsideLabel("w.example.com", "www.example.com");
  }

  lemma MatchDomainParentDomain()
    ensures MatchDomain("co.uk", "bbc.co.uk")
  {
    assert "bbc" + "." + "co.uk" == "bbc.co.uk";
    MatchDomainOfParent("bbc", "co.uk");
  }

  /** A Domain attribute naming the parent of the host matches it. */
  lemma MatchDomainSubdomain()
    ensures MatchDomain("example.com", "www.example.com")
  {
    assert "www" + "." + "example.com" == "www.example.com";
    MatchDomainOfParent("www", "example.com");
  }

  lemma MatchDomainTrailingDot()
    ensures !MatchDomain("example.com.", "example.com")
  {
    var v := "example.com.";
    LowerOfLowercase(v);
    assert |v| == 12 && v[11] == '.';
    assert v[|v| - 1..] == ".";
  }

  lemma MatchDomainIpLiterals()
    ensures !MatchDomain("localhost", "127.0.0.1")
    ensures !MatchDomain("example.com", "[::1]")
  {
    LowerOfLowercase("localhost");
    LowerOfLowercase("example.com");
    assert "127.0.0.1"[7] == '.' && AllDigits("127.0.0.1"[8..]);
  }

  /** The empty value matches only the empty host or a host ending in a dot that is not IP-like. */
  lemma MatchDomainEmptyValue(domain: string)
    ensures MatchDomain("", domain) <==>
      domain == "" || (domain[|domain| - 1] == '.' && !IsIpLike(domain))
  {
    MatchDomainMeaning("", domain);
  }
}
