/** Set-Cookie attribute resolution of lib/cookie.js (sections 5.2 and 5.3 of RFC 6265), the
    helpers beside it, and the flattening of a DevTools initiator into stack frames. */
module CookieParsing {
  import opened Wrappers
  import opened Strings
  import opened Http

  /** The earliest and latest instants a JavaScript Date can hold, in milliseconds. */
  const MinDateTime: int := -8_640_000_000_000_000
  const MaxDateTime: int := 8_640_000_000_000_000

  /** The SameSite values, in the order they are searched. */
  const SameSiteFlags: seq<string> := ["Strict", "Lax", "None"]

  /** Who set the cookie: a "network" response or a "script" write to document.cookie. */
  datatype Initiator = Initiator(kind: string, url: string, stack: seq<string>)

  /** A cookie record; `initiator` None stands for `null`. */
  datatype Cookie = Cookie(
    name: string,
    value: string,
    creationTime: int,
    expiryTime: int,
    persistent: bool,
    hostOnly: bool,
    domain: string,
    path: string,
    secureOnly: bool,
    httpOnly: bool,
    sameSite: string,
    initiator: Option<Initiator>)

  /** `new Cookie({creationTime})`: every other field at the constructor's default. */
  function DefaultCookie(creationTime: int): Cookie
  {
    Cookie("", "", creationTime, MaxDateTime, false, true, "", "/", false, false, "None", None)
  }

  /** One cookie as the DevTools cookie parser hands it over: the attribute values it found
      (None when an attribute is absent) and the two flags. */
  datatype ParsedCookie = ParsedCookie(
    name: string,
    value: string,
    maxAge: Option<string>,
    expires: Option<string>,
    domain: Option<string>,
    path: Option<string>,
    sameSite: Option<string>,
    secure: bool,
    httpOnly: bool)

  /** The request context: the initiator, the creation time, and the host name and path that
      `new URL(initiator.url)` yields. */
  datatype ParseContext = ParseContext(initiator: Initiator, creationTime: int, host: string, path: string)

  /** The foreign code the parser consults: the Public Suffix List and `Date.parse` (None is NaN). */
  datatype Oracles = Oracles(psl: Psl, dateParse: string -> Option<int>)

  // ---------------------------------------------------------------------------
  // Max-Age (section 5.2.2 of RFC 6265)

  /** `/^-?\d+$/`. */
  predicate IsSignedDecimal(s: string)
  {
    if |s| > 0 && s[0] == '-' then |s| > 1 && AllDigits(s[1..]) else |s| > 0 && AllDigits(s)
  }

  /** `parseInt(s, 10)` on a string of that shape. */
  function ParseSignedDecimal(s: string): int
    requires IsSignedDecimal(s)
  {
    if s[0] == '-' then 0 - DecimalValue(s[1..]) as int else DecimalValue(s)
  }

  /** The Max-Age in milliseconds, or None (NaN) when it is absent, empty or not a signed integer. */
  function MaxAgeMs(raw: Option<string>): Option<int>
  {
    if raw.Some? && raw.value != "" && IsSignedDecimal(raw.value)
    then Some(ParseSignedDecimal(raw.value) * 1000)
    else None
  }

  /** Every integer printed in decimal is read back as that many seconds. */
  lemma MaxAgeRoundTrip(n: int)
    ensures MaxAgeMs(Some(IntToString(n))) == Some(1000 * n)
  {
    var s := IntToString(n);
    if n < 0 {
      assert s[1..] == NatToString(-n);
      DecimalValueOfNatToString(-n);
    } else {
      DecimalValueOfNatToString(n);
    }
  }

  /** A Max-Age that has anything besides an optional minus sign and digits is ignored. */
  lemma MaxAgeRejectsNonDigits(raw: string, k: nat)
    requires k < |raw| && !IsDigit(raw[k]) && !(k == 0 && raw[k] == '-')
    ensures MaxAgeMs(Some(raw)).None?
  {
    if raw[0] == '-' {
      assert raw[1..][k - 1] == raw[k];
    }
  }

  // ---------------------------------------------------------------------------
  // Expires (section 5.2.1 of RFC 6265, with the JavaScript date parser)

  /** `/^[^-]+(\s|-)/`: one or more characters other than "-", then white space or "-". */
  predicate ExpiresShape(s: string)
  {
    exists k :: 1 <= k < |s| && (IsJsSpace(s[k]) || s[k] == '-') && '-' !in s[..k]
  }

  function FirstIndexOf(s: string, c: char): (r: Option<nat>)
    ensures r.None? ==> c !in s
    ensures r.Some? ==> r.value < |s| && s[r.value] == c && c !in s[..r.value]
  {
    if |s| == 0 then None
    else if s[0] == c then Some(0)
    else
      var r := FirstIndexOf(s[1..], c);
      if r.None? then None
      else
        assert s[..r.value + 1] == [s[0]] + s[1..][..r.value];
        Some(r.value + 1)
  }

  /** The Expires shape holds exactly when the string does not start with "-" and either contains
      a "-" or has white space after its first character. */
  lemma ExpiresShapeMeaning(s: string)
    ensures ExpiresShape(s) <==>
      |s| > 0 && s[0] != '-' && ('-' in s || exists k :: 1 <= k < |s| && IsJsSpace(s[k]))
  {
    if ExpiresShape(s) {
      var k :| 1 <= k < |s| && (IsJsSpace(s[k]) || s[k] == '-') && '-' !in s[..k];
      assert s[0] == s[..k][0];
    }
    if |s| > 0 && s[0] != '-' {
      match FirstIndexOf(s, '-')
      case Some(k) =>
        assert k != 0;
        assert 1 <= k < |s| && s[k] == '-' && '-' !in s[..k];
      case None =>
        if k :| 1 <= k < |s| && IsJsSpace(s[k]) {
          assert '-' !in s[..k];
        }
    }
  }

  /** The Expires instant, or None when it is absent, badly shaped or unparsable (`Date.parse("")`
      is NaN, so a badly shaped value never reaches the date parser). */
  function ExpiresMs(raw: Option<string>, dateParse: string -> Option<int>): (ms: Option<int>)
    ensures ms.Some? ==> raw.Some? && ExpiresShape(raw.value) && ms == dateParse(raw.value)
    ensures raw.Some? && ExpiresShape(raw.value) ==> ms == dateParse(raw.value)
  {
    if raw.Some? && raw.value != "" && ExpiresShape(raw.value) then dateParse(raw.value) else None
  }

  // ---------------------------------------------------------------------------
  // Expiry time (section 5.3 step 3 of RFC 6265)

  function Clamp(t: int): (r: int)
    ensures MinDateTime <= r <= MaxDateTime
    ensures MinDateTime <= t <= MaxDateTime ==> r == t
    ensures t > MaxDateTime ==> r == MaxDateTime
    ensures t < MinDateTime ==> r == MinDateTime
  {
    if t > MaxDateTime then MaxDateTime else if t < MinDateTime then MinDateTime else t
  }

  /** Max-Age takes precedence over Expires, and a cookie with neither never expires; the result is
      clamped to the instants a Date can hold. (An unbounded +Infinity clamps to MaxDateTime.) */
  function ResolveExpiry(maxAge: Option<int>, expires: Option<int>, creationTime: int): (t: int)
    ensures MinDateTime <= t <= MaxDateTime
    ensures maxAge.Some? && maxAge.value <= 0 ==> t == MinDateTime
    ensures maxAge.Some? && maxAge.value > 0 ==> t == Clamp(creationTime + maxAge.value)
    ensures maxAge.None? && expires.Some? ==> t == Clamp(expires.value)
    ensures maxAge.None? && expires.None? ==> t == MaxDateTime
  {
    var unclamped :=
      if maxAge.None? then (if expires.None? then MaxDateTime else expires.value)
      else if maxAge.value <= 0 then MinDateTime
      else creationTime + maxAge.value;
    var upper := if unclamped < MaxDateTime then unclamped else MaxDateTime;
    if upper > MinDateTime then upper else MinDateTime
  }

  // ---------------------------------------------------------------------------
  // Domain (section 5.2.3 and section 5.3 steps 4 to 6 of RFC 6265)

  /** `(raw || "").replace(/^\./, "").toLowerCase()`. */
  function DomainAttribute(raw: Option<string>): (d: string)
  {
    var s := if raw.Some? then raw.value else "";
    Lower(if |s| > 0 && s[0] == '.' then s[1..] else s)
  }

  /** The domain and host-only flag a cookie gets, or None when the cookie is dropped. */
  function ResolveDomain(psl: Psl, raw: Option<string>, host: string): (r: Option<(string, bool)>)
    ensures r.Some? && r.value.1 ==> r.value.0 == host
    ensures r.Some? && !r.value.1 ==> r.value.0 == DomainAttribute(raw) && MatchDomain(r.value.0, host)
    ensures r.Some? ==> (r.value.1 <==> DomainAttribute(raw) == "" || IsPublicSuffix(psl, DomainAttribute(raw)))
  {
    var attr := DomainAttribute(raw);
    if IsPublicSuffix(psl, attr) && attr != host then None
    else
      var domain := if IsPublicSuffix(psl, attr) then "" else attr;
      if domain == "" then Some((host, true))
      else if MatchDomain(domain, host) then Some((domain, false))
      else None
  }

  // ---------------------------------------------------------------------------
  // SameSite

  /** `flags.find(flag => raw && raw.toLowerCase() === flag.toLowerCase())`. */
  function FindFlag(flags: seq<string>, raw: Option<string>): (r: Option<string>)
    ensures r.Some? ==> r.value in flags && raw.Some? && Lower(raw.value) == Lower(r.value)
    ensures r.None? ==> forall i :: 0 <= i < |flags| ==> raw.None? || raw.value == "" || Lower(raw.value) != Lower(flags[i])
  {
    if |flags| == 0 then None
    else if raw.Some? && raw.value != "" && Lower(raw.value) == Lower(flags[0]) then Some(flags[0])
    else FindFlag(flags[1..], raw)
  }

  function ResolveSameSite(raw: Option<string>): (s: string)
    ensures s in SameSiteFlags
  {
    match FindFlag(SameSiteFlags, raw)
    case Some(flag) => flag
    case None => "None"
  }

  /** SameSite is matched ignoring case, and anything unrecognised or absent is "None". */
  lemma SameSiteMeaning(raw: Option<string>)
    ensures ResolveSameSite(raw) == "Strict" <==> raw.Some? && Lower(raw.value) == "strict"
    ensures ResolveSameSite(raw) == "Lax" <==> raw.Some? && Lower(raw.value) == "lax"
    ensures ResolveSameSite(raw) == "None" <==>
      !(raw.Some? && (Lower(raw.value) == "strict" || Lower(raw.value) == "lax"))
  {
    assert Lower("Strict") == "strict";
    assert Lower("Lax") == "lax";
    assert Lower("None") == "none";
    var rest := SameSiteFlags[1..];
    assert rest == ["Lax", "None"];
    assert rest[1..] == ["None"];
    var matched := raw.Some? && raw.value != "";
    if matched && Lower(raw.value) == "strict" {
      assert FindFlag(SameSiteFlags, raw) == Some("Strict");
    } else if matched && Lower(raw.value) == "lax" {
      assert FindFlag(rest, raw) == Some("Lax");
    } else {
      assert FindFlag(SameSiteFlags, raw) == FindFlag(rest, raw) == FindFlag(rest[1..], raw);
    }
  }

  // ---------------------------------------------------------------------------
  // One cookie

  /** What every cookie the parser emits satisfies, in terms of its context. */
  ghost predicate WellFormed(c: Cookie, ctx: ParseContext)
  {
    && MinDateTime <= c.expiryTime <= MaxDateTime
    && (c.hostOnly ==> c.domain == ctx.host)
    && (!c.hostOnly ==> MatchDomain(c.domain, ctx.host))
    && c.sameSite in SameSiteFlags
    && (c.httpOnly ==> ctx.initiator.kind == "network")
    && (c.path == "" ==> ctx.path == "")
    && c.creationTime == ctx.creationTime
    && c.initiator == Some(ctx.initiator)
  }

  function PathOf(raw: Option<string>, initiatorPath: string): string
  {
    if raw.Some? && raw.value != "" then raw.value else initiatorPath
  }

  /** The record one parsed cookie becomes, or None when it is dropped (a public-suffix domain that
      is not the host, a domain that does not match, or HttpOnly from a script). */
  function Resolve(p: ParsedCookie, ctx: ParseContext, env: Oracles): (r: Option<Cookie>)
    ensures r.Some? ==> WellFormed(r.value, ctx)
    ensures r.Some? ==>
      r.value.name == p.name && r.value.value == p.value && r.value.secureOnly == p.secure && r.value.httpOnly == p.httpOnly
    ensures r.Some? ==> (r.value.persistent <==> MaxAgeMs(p.maxAge).Some? || ExpiresMs(p.expires, env.dateParse).Some?)
    ensures r.Some? ==> r.value.path == (if p.path.Some? && p.path.value != "" then p.path.value else ctx.path)
    ensures r.Some? ==> r.value.sameSite == ResolveSameSite(p.sameSite)
  {
    var maxAge := MaxAgeMs(p.maxAge);
    var expires := ExpiresMs(p.expires, env.dateParse);
    match ResolveDomain(env.psl, p.domain, ctx.host)
    case None => None
    case Some((domain, hostOnly)) =>
      if p.httpOnly && ctx.initiator.kind != "network" then None
      else Some(Cookie(
        p.name, p.value, ctx.creationTime, ResolveExpiry(maxAge, expires, ctx.creationTime),
        maxAge.Some? || expires.Some?, hostOnly, domain, PathOf(p.path, ctx.path),
        p.secure, p.httpOnly, ResolveSameSite(p.sameSite), Some(ctx.initiator)))
  }

  /** Exactly three rules drop a cookie. */
  lemma DroppedIff(p: ParsedCookie, ctx: ParseContext, env: Oracles)
    ensures var attr := DomainAttribute(p.domain);
      Resolve(p, ctx, env).None? <==>
        || (IsPublicSuffix(env.psl, attr) && attr != ctx.host)
        || (!IsPublicSuffix(env.psl, attr) && attr != "" && !MatchDomain(attr, ctx.host))
        || (p.httpOnly && ctx.initiator.kind != "network")
  {
  }

  /** A Domain attribute that is a public suffix and is the host itself makes a host-only cookie. */
  lemma PublicSuffixOfHostIsHostOnly(p: ParsedCookie, ctx: ParseContext, env: Oracles)
    requires IsPublicSuffix(env.psl, DomainAttribute(p.domain)) && DomainAttribute(p.domain) == ctx.host
    requires !p.httpOnly || ctx.initiator.kind == "network"
    ensures Resolve(p, ctx, env).Some?
    ensures Resolve(p, ctx, env).value.hostOnly && Resolve(p, ctx, env).value.domain == ctx.host
  {
  }

  /** The expiry time and persistence follow Max-Age, then Expires. */
  lemma ExpiryPrecedence(p: ParsedCookie, ctx: ParseContext, env: Oracles)
    requires Resolve(p, ctx, env).Some?
    ensures var c := Resolve(p, ctx, env).value; var maxAge := MaxAgeMs(p.maxAge);
      var expires := ExpiresMs(p.expires, env.dateParse);
      && (maxAge.Some? && maxAge.value <= 0 ==> c.expiryTime == MinDateTime)
      && (maxAge.Some? && maxAge.value > 0 ==> c.expiryTime == Clamp(ctx.creationTime + maxAge.value))
      && (maxAge.None? && expires.Some? ==> c.expiryTime == Clamp(expires.value))
      && (maxAge.None? && expires.None? ==> c.expiryTime == MaxDateTime && !c.persistent)
  {
  }

  /** An invalid or absent Max-Age or Expires never decides whether the cookie is kept, and changes
      nothing but its expiry time and persistence. */
  lemma AttributesDoNotDrop(p: ParsedCookie, maxAge: Option<string>, expires: Option<string>,
                            ctx: ParseContext, env: Oracles)
    ensures var q := p.(maxAge := maxAge, expires := expires);
      && Resolve(q, ctx, env).Some? == Resolve(p, ctx, env).Some?
      && (Resolve(p, ctx, env).Some? ==>
            Resolve(q, ctx, env).value.(expiryTime := 0, persistent := false)
              == Resolve(p, ctx, env).value.(expiryTime := 0, persistent := false))
  {
  }

  // ---------------------------------------------------------------------------
  // The whole header

  /** The records the parsed cookies become, in order, leaving out the dropped ones. */
  function Emitted(ps: seq<ParsedCookie>, ctx: ParseContext, env: Oracles): (cs: seq<Cookie>)
    ensures |cs| <= |ps|
  {
    if |ps| == 0 then []
    else
      Emitted(ps[..|ps| - 1], ctx, env)
        + match Resolve(ps[|ps| - 1], ctx, env) case Some(c) => [c] case None => []
  }

  /** Which cookies are kept does not depend on the others: the result for a batch is the results
      for its parts, one after the other. */
  lemma {:induction false} EmittedAppend(a: seq<ParsedCookie>, b: seq<ParsedCookie>, ctx: ParseContext, env: Oracles)
    ensures Emitted(a + b, ctx, env) == Emitted(a, ctx, env) + Emitted(b, ctx, env)
  {
    if |b| == 0 {
      assert a + b == a;
    } else {
      var b' := b[..|b| - 1];
      assert (a + b)[..|a + b| - 1] == a + b';
      assert (a + b)[|a + b| - 1] == b[|b| - 1];
      EmittedAppend(a, b', ctx, env);
    }
  }

  /** Positions of the parsed cookies that are kept. */
  function KeptIndices(ps: seq<ParsedCookie>, ctx: ParseContext, env: Oracles): seq<nat>
  {
    if |ps| == 0 then []
    else
      KeptIndices(ps[..|ps| - 1], ctx, env)
        + if Resolve(ps[|ps| - 1], ctx, env).Some? then [|ps| - 1] else []
  }

  lemma {:induction false} KeptIndicesLength(ps: seq<ParsedCookie>, ctx: ParseContext, env: Oracles)
    ensures |KeptIndices(ps, ctx, env)| == |Emitted(ps, ctx, env)|
  {
    if |ps| > 0 {
      KeptIndicesLength(ps[..|ps| - 1], ctx, env);
    }
  }

  lemma {:induction false} KeptIndicesBounded(ps: seq<ParsedCookie>, ctx: ParseContext, env: Oracles)
    ensures forall j :: 0 <= j < |KeptIndices(ps, ctx, env)| ==> KeptIndices(ps, ctx, env)[j] < |ps|
  {
    if |ps| > 0 {
      KeptIndicesBounded(ps[..|ps| - 1], ctx, env);
    }
  }

  predicate StrictlyIncreasing(k: seq<nat>)
  {
    forall j1, j2 :: 0 <= j1 < j2 < |k| ==> k[j1] < k[j2]
  }

  /** Kept positions increase, so the output keeps the input's order. */
  lemma {:induction false} KeptIndicesIncreasing(ps: seq<ParsedCookie>, ctx: ParseContext, env: Oracles)
    ensures StrictlyIncreasing(KeptIndices(ps, ctx, env))
  {
    if |ps| > 0 {
      var init := ps[..|ps| - 1];
      KeptIndicesIncreasing(init, ctx, env);
      KeptIndicesBounded(init, ctx, env);
      var k0 := KeptIndices(init, ctx, env);
      var k := KeptIndices(ps, ctx, env);
      var tail: seq<nat> := if Resolve(ps[|ps| - 1], ctx, env).Some? then [|ps| - 1] else [];
      assert k == k0 + tail;
      forall j1, j2 | 0 <= j1 < j2 < |k|
        ensures k[j1] < k[j2]
      {
        assert k[j1] == k0[j1];
        if j2 < |k0| {
          assert k[j2] == k0[j2];
          assert k0[j1] < k0[j2];
        } else {
          assert k0[j1] < |init|;
          assert k[j2] == tail[0] == |init|;
        }
      }
    }
  }

  /** The j-th record is what the j-th kept parsed cookie resolves to. */
  lemma {:induction false} KeptIndicesSound(ps: seq<ParsedCookie>, ctx: ParseContext, env: Oracles)
    ensures var k := KeptIndices(ps, ctx, env); var cs := Emitted(ps, ctx, env);
      |k| == |cs| && forall j :: 0 <= j < |k| ==> k[j] < |ps| && Resolve(ps[k[j]], ctx, env) == Some(cs[j])
  {
    KeptIndicesLength(ps, ctx, env);
    KeptIndicesBounded(ps, ctx, env);
    if |ps| > 0 {
      var init := ps[..|ps| - 1];
      KeptIndicesSound(init, ctx, env);
      var k := KeptIndices(ps, ctx, env);
      forall j | 0 <= j < |k| ensures Resolve(ps[k[j]], ctx, env) == Some(Emitted(ps, ctx, env)[j]) {
        if j < |KeptIndices(init, ctx, env)| {
          SoundEarlier(ps, j, ctx, env);
        } else {
          SoundLast(ps, j, ctx, env);
        }
      }
    }
  }

  lemma SoundEarlier(ps: seq<ParsedCookie>, j: nat, ctx: ParseContext, env: Oracles)
    requires |ps| > 0
    requires var init := ps[..|ps| - 1]; var k0 := KeptIndices(init, ctx, env);
      j < |k0| && |k0| == |Emitted(init, ctx, env)| && k0[j] < |init|
      && Resolve(init[k0[j]], ctx, env) == Some(Emitted(init, ctx, env)[j])
    ensures var k := KeptIndices(ps, ctx, env);
      j < |k| && j < |Emitted(ps, ctx, env)| && k[j] < |ps| && Resolve(ps[k[j]], ctx, env) == Some(Emitted(ps, ctx, env)[j])
  {
    var init := ps[..|ps| - 1];
    var k0 := KeptIndices(init, ctx, env);
    assert KeptIndices(ps, ctx, env)[j] == k0[j];
    assert Emitted(ps, ctx, env)[j] == Emitted(init, ctx, env)[j];
    assert ps[k0[j]] == init[k0[j]];
  }

  lemma SoundLast(ps: seq<ParsedCookie>, j: nat, ctx: ParseContext, env: Oracles)
    requires |ps| > 0
    requires var init := ps[..|ps| - 1]; var k := KeptIndices(ps, ctx, env);
      |KeptIndices(init, ctx, env)| == |Emitted(init, ctx, env)| && |k| == |Emitted(ps, ctx, env)|
      && |KeptIndices(init, ctx, env)| <= j < |k|
    ensures var k := KeptIndices(ps, ctx, env);
      k[j] < |ps| && Resolve(ps[k[j]], ctx, env) == Some(Emitted(ps, ctx, env)[j])
  {
  }

  /** Every parsed cookie that is not dropped appears in the output. */
  lemma {:induction false} KeptIndicesComplete(ps: seq<ParsedCookie>, ctx: ParseContext, env: Oracles)
    ensures forall i :: 0 <= i < |ps| && Resolve(ps[i], ctx, env).Some? ==> i in KeptIndices(ps, ctx, env)
  {
    if |ps| > 0 {
      var init := ps[..|ps| - 1];
      KeptIndicesComplete(init, ctx, env);
      forall i | 0 <= i < |ps| && Resolve(ps[i], ctx, env).Some? ensures i in KeptIndices(ps, ctx, env) {
        KeptIndexAt(ps, i, ctx, env);
      }
    }
  }

  lemma KeptIndexAt(ps: seq<ParsedCookie>, i: nat, ctx: ParseContext, env: Oracles)
    requires i < |ps| && Resolve(ps[i], ctx, env).Some?
    requires var init := ps[..|ps| - 1];
      i < |init| ==> i in KeptIndices(init, ctx, env)
    ensures i in KeptIndices(ps, ctx, env)
  {
    if i < |ps| - 1 {
      KeptEarlier(ps, i, ctx, env);
    } else {
      KeptLast(ps, ctx, env);
    }
  }

  lemma KeptEarlier(ps: seq<ParsedCookie>, i: nat, ctx: ParseContext, env: Oracles)
    requires i < |ps| - 1 && i in KeptIndices(ps[..|ps| - 1], ctx, env)
    ensures i in KeptIndices(ps, ctx, env)
  {
  }

  lemma KeptLast(ps: seq<ParsedCookie>, ctx: ParseContext, env: Oracles)
    requires |ps| > 0 && Resolve(ps[|ps| - 1], ctx, env).Some?
    ensures |ps| - 1 in KeptIndices(ps, ctx, env)
  {
  }

  /** Every record the parser emits satisfies the record invariants. */
  lemma {:induction false} EmittedWellFormed(ps: seq<ParsedCookie>, ctx: ParseContext, env: Oracles)
    ensures forall j :: 0 <= j < |Emitted(ps, ctx, env)| ==> WellFormed(Emitted(ps, ctx, env)[j], ctx)
  {
    if |ps| > 0 {
      EmittedWellFormed(ps[..|ps| - 1], ctx, env);
    }
  }

  lemma EmittedStep(ps: seq<ParsedCookie>, i: nat, ctx: ParseContext, env: Oracles)
    requires i < |ps|
    ensures Emitted(ps[..i + 1], ctx, env)
      == Emitted(ps[..i], ctx, env) + match Resolve(ps[i], ctx, env) case Some(c) => [c] case None => []
  {
    assert ps[..i + 1][..i] == ps[..i];
  }

  /** A single parsed cookie is emitted exactly when it resolves. */
  lemma EmittedSingle(p: ParsedCookie, ctx: ParseContext, env: Oracles)
    ensures Emitted([p], ctx, env) == match Resolve(p, ctx, env) case Some(c) => [c] case None => []
  {
    assert [p][..0] == [];
  }

  /** The parsed form of "a=1" followed by the given attributes. */
  function ParsedA1(maxAge: Option<string>, expires: Option<string>, domain: Option<string>): ParsedCookie
  {
    ParsedCookie("a", "1", maxAge, expires, domain, None, None, false, false)
  }

  /** "a=1; Max-Age=<n>" with n > 0, set from http://example.com/page, lasts n seconds and takes the
      page's path; with n = 2592000 that is thirty days. (The empty Domain attribute is looked up in
      the suffix list, which rejects it.) */
  lemma MaxAgeExample(n: nat, initiator: Initiator, creationTime: int, env: Oracles)
    requires n > 0 && !IsPublicSuffix(env.psl, "")
    requires MinDateTime <= creationTime && creationTime + 1000 * n <= MaxDateTime
    ensures Emitted([ParsedA1(Some(IntToString(n)), None, None)],
                    ParseContext(initiator, creationTime, "example.com", "/page"), env)
      == [Cookie("a", "1", creationTime, creationTime + 1000 * n, true, true, "example.com", "/page",
                 false, false, "None", Some(initiator))]
  {
    var ctx := ParseContext(initiator, creationTime, "example.com", "/page");
    var p := ParsedA1(Some(IntToString(n)), None, None);
    MaxAgeRoundTrip(n);
    AbsentDomainResolves(env.psl, ctx.host);
    EmittedSingle(p, ctx, env);
  }

  /** Without a Domain attribute the cookie is host-only, unless the suffix list accepts "". */
  lemma AbsentDomainResolves(psl: Psl, host: string)
    requires !IsPublicSuffix(psl, "")
    ensures ResolveDomain(psl, None, host) == Some((host, true))
  {
    assert DomainAttribute(None) == "";
  }

  lemma LeadingDotDropped()
    ensures DomainAttribute(Some(".example.com")) == "example.com"
  {
    assert ".example.com"[1..] == "example.com";
    LowerOfLowercase("example.com");
  }

  /** "a=1; Domain=.example.com" set from http://www.example.com is a domain cookie for example.com. */
  lemma DomainAttributeExample(initiator: Initiator, creationTime: int, env: Oracles)
    requires !IsPublicSuffix(env.psl, "example.com")
    ensures Emitted([ParsedA1(None, None, Some(".example.com"))],
                    ParseContext(initiator, creationTime, "www.example.com", "/"), env)
      == [Cookie("a", "1", creationTime, MaxDateTime, false, false, "example.com", "/",
                 false, false, "None", Some(initiator))]
  {
    var ctx := ParseContext(initiator, creationTime, "www.example.com", "/");
    var p := ParsedA1(None, None, Some(".example.com"));
    ParentDomainResolves(env.psl);
    assert Resolve(p, ctx, env) == Some(Cookie("a", "1", creationTime, MaxDateTime, false, false, "example.com", "/",
                                               false, false, "None", Some(initiator)));
    EmittedSingle(p, ctx, env);
  }

  lemma ParentDomainResolves(psl: Psl)
    requires !IsPublicSuffix(psl, "example.com")
    ensures ResolveDomain(psl, Some(".example.com"), "www.example.com") == Some(("example.com", false))
  {
    LeadingDotDropped();
    MatchDomainSubdomain();
  }

  /** "a=1; Domain=com" is host-only when set from the host com itself, and dropped when set from
      example.com. */
  lemma PublicSuffixDomainExamples(initiator: Initiator, creationTime: int, env: Oracles)
    requires IsPublicSuffix(env.psl, "com")
    ensures Emitted([ParsedA1(None, None, Some("com"))], ParseContext(initiator, creationTime, "com", "/"), env)
      == [Cookie("a", "1", creationTime, MaxDateTime, false, true, "com", "/", false, false, "None", Some(initiator))]
    ensures Emitted([ParsedA1(None, None, Some("com"))], ParseContext(initiator, creationTime, "example.com", "/"), env)
      == []
  {
    LowerOfLowercase("com");
    assert DomainAttribute(Some("com")) == "com";
    EmittedSingle(ParsedA1(None, None, Some("com")), ParseContext(initiator, creationTime, "com", "/"), env);
    EmittedSingle(ParsedA1(None, None, Some("com")), ParseContext(initiator, creationTime, "example.com", "/"), env);
  }

  /** "a=1; expires=Invalid Date" keeps the cookie as a session cookie that never expires. */
  lemma InvalidExpiresExample(initiator: Initiator, creationTime: int, env: Oracles)
    requires !IsPublicSuffix(env.psl, "") && env.dateParse("Invalid Date").None?
    ensures Emitted([ParsedA1(None, Some("Invalid Date"), None)],
                    ParseContext(initiator, creationTime, "example.com", "/"), env)
      == [Cookie("a", "1", creationTime, MaxDateTime, false, true, "example.com", "/",
                 false, false, "None", Some(initiator))]
  {
    AbsentDomainResolves(env.psl, "example.com");
    EmittedSingle(ParsedA1(None, Some("Invalid Date"), None), ParseContext(initiator, creationTime, "example.com", "/"), env);
  }

  /** "a=1; expires=<date>" with a date the parser reads as instant t gives a persistent cookie that
      expires at t (the date string names whole seconds, so t does too). */
  lemma ValidExpiresExample(t: int, initiator: Initiator, creationTime: int, env: Oracles)
    requires !IsPublicSuffix(env.psl, "") && MinDateTime <= t <= MaxDateTime
    requires env.dateParse("Fri, 13 Nov 2026 10:00:00 GMT") == Some(t)
    ensures Emitted([ParsedA1(None, Some("Fri, 13 Nov 2026 10:00:00 GMT"), None)],
                    ParseContext(initiator, creationTime, "example.com", "/"), env)
      == [Cookie("a", "1", creationTime, t, true, true, "example.com", "/",
                 false, false, "None", Some(initiator))]
  {
    var v := "Fri, 13 Nov 2026 10:00:00 GMT";
    assert v[4] == ' ' && v[..4] == "Fri,";
    assert ExpiresShape(v);
    assert ExpiresMs(Some(v), env.dateParse) == Some(t);
    var ctx := ParseContext(initiator, creationTime, "example.com", "/");
    var p := ParsedA1(None, Some(v), None);
    AbsentDomainResolves(env.psl, "example.com");
    assert Resolve(p, ctx, env) == Some(Cookie("a", "1", creationTime, t, true, true, "example.com", "/",
                                               false, false, "None", Some(initiator)));
    EmittedSingle(p, ctx, env);
  }

  /** The record for a header that is blank: a host-only session cookie for the request's host. */
  function EmptyCookie(ctx: ParseContext): Cookie
  {
    DefaultCookie(ctx.creationTime).(
      expiryTime := MaxDateTime, domain := ctx.host, path := ctx.path, initiator := Some(ctx.initiator))
  }

  /** parseCookie: `parsed` is what the DevTools cookie parser makes of `setCookie`. */
  method ParseCookie(setCookie: string, parsed: seq<ParsedCookie>, ctx: ParseContext, env: Oracles)
    returns (cookies: seq<Cookie>)
    ensures IsBlank(setCookie) ==> cookies == [EmptyCookie(ctx)]
    ensures IsBlank(setCookie) ==>
      && cookies[0].domain == ctx.host && cookies[0].path == ctx.path
      && cookies[0].expiryTime == MaxDateTime && !cookies[0].persistent && cookies[0].hostOnly
      && cookies[0].name == "" && cookies[0].value == "" && cookies[0].sameSite == "None"
    ensures !IsBlank(setCookie) ==> cookies == Emitted(parsed, ctx, env)
  {
    TrimEmptyIffBlank(setCookie);
    if Trim(setCookie) == "" {
      return [EmptyCookie(ctx)];
    }
    cookies := [];
    var i := 0;
    while i < |parsed|
      invariant 0 <= i <= |parsed|
      invariant cookies == Emitted(parsed[..i], ctx, env)
    {
      var p := parsed[i];
      EmittedStep(parsed, i, ctx, env);
      i := i + 1;
      var maxAge := MaxAgeMs(p.maxAge);
      var expires := ExpiresMs(p.expires, env.dateParse);
      var expiryTime := ResolveExpiry(maxAge, expires, ctx.creationTime);
      var persistent := maxAge.Some? || expires.Some?;
      var domain := DomainAttribute(p.domain);
      var hostOnly := true;
      if IsPublicSuffix(env.psl, domain) {
        if domain != ctx.host {
          assert Resolve(p, ctx, env).None?;
          continue;
        }
        domain := "";
      }
      if domain != "" {
        if !MatchDomain(domain, ctx.host) {
          assert Resolve(p, ctx, env).None?;
          continue;
        }
        hostOnly := false;
      } else {
        domain := ctx.host;
      }
      var path := PathOf(p.path, ctx.path);
      var secureOnly := p.secure;
      var httpOnly := p.httpOnly;
      if httpOnly && ctx.initiator.kind != "network" {
        assert Resolve(p, ctx, env).None?;
        continue;
      }
      var sameSite := ResolveSameSite(p.sameSite);
      var cookie := Cookie(
        p.name, p.value, ctx.creationTime, expiryTime, persistent, hostOnly, domain, path,
        secureOnly, httpOnly, sameSite, Some(ctx.initiator));
      assert Resolve(p, ctx, env) == Some(cookie);
      cookies := cookies + [cookie];
    }
    assert parsed[..i] == parsed;
  }

  // ---------------------------------------------------------------------------
  // allowedCookieOrigin and trunc

  const AllowedCookieProtocols: seq<string> := ["https:", "http:"]

  /** Cookies can only be set from an http: or https: URL. */
  predicate AllowedCookieOrigin(url: string)
  {
    exists i :: 0 <= i < |AllowedCookieProtocols| && StartsWith(url, AllowedCookieProtocols[i])
  }

  lemma AllowedCookieOriginMeaning(url: string)
    ensures AllowedCookieOrigin(url) <==> StartsWith(url, "http:") || StartsWith(url, "https:")
  {
    if StartsWith(url, "https:") {
      assert StartsWith(url, AllowedCookieProtocols[0]);
    }
    if StartsWith(url, "http:") {
      assert StartsWith(url, AllowedCookieProtocols[1]);
    }
  }

  /** The limit `trunc` works with; None stands for NaN. */
  function TruncLimit(limit: Option<int>): (l: int)
    ensures l > 0
    ensures limit.Some? && limit.value > 0 ==> l == limit.value
  {
    if limit.None? || limit.value <= 0 then 60 else limit.value
  }

  /** `trunc(value, limit)` on values that fit; None stands for the ReferenceError the other branch
      raises (it reads an undefined variable). */
  function Trunc(value: string, limit: Option<int>): (r: Option<string>)
    ensures r.Some? <==> |value| <= TruncLimit(limit)
    ensures r.Some? ==> r.value == value
  {
    if |value| > TruncLimit(limit) then None else Some(value)
  }

  /** The ellipsis `trunc` puts between the two ends it keeps. */
  const Ellipsis: char := '\U{2026}'

  /** `trunc` as its comment describes it: a value longer than the limit keeps its first
      floor(limit / 2) characters and its last ceil(limit / 2) - 1 (a limit of 60 keeps 30 and 29,
      one of 25 keeps 12 and 12) with the ellipsis between, so that it is exactly `limit` long. */
  function TruncIntended(value: string, limit: Option<int>): (r: string)
    ensures |value| <= TruncLimit(limit) ==> r == value
    ensures |value| > TruncLimit(limit) ==>
      var l := TruncLimit(limit);
      && |r| == l && r[l / 2] == Ellipsis
      && r[..l / 2] == value[..l / 2]
      && r[l / 2 + 1..] == value[|value| - (l - l / 2 - 1)..]
  {
    var l := TruncLimit(limit);
    if |value| > l then value[..l / 2] + [Ellipsis] + value[|value| - ((l + 1) / 2 - 1)..] else value
  }

  /** A value over the limit makes `trunc` fail, where the intended version shortens it. */
  lemma TruncLongValue(value: string, limit: Option<int>)
    requires |value| > TruncLimit(limit)
    ensures Trunc(value, limit).None?
    ensures |TruncIntended(value, limit)| == TruncLimit(limit) < |value|
  {
  }

  /** Whether parseCookie logs a warning about one parsed cookie: a Max-Age or an Expires that is
      present but invalid, or any of the three rules that drop the cookie. Every warning formats the
      initiator's URL with `trunc(url, 60)`. */
  predicate Warns(p: ParsedCookie, ctx: ParseContext, env: Oracles)
  {
    || (p.maxAge.Some? && p.maxAge.value != "" && MaxAgeMs(p.maxAge).None?)
    || (p.expires.Some? && p.expires.value != "" && ExpiresMs(p.expires, env.dateParse).None?)
    || Resolve(p, ctx, env).None?
  }

  /** As written, parseCookie throws out of the whole header as soon as `trunc` fails in a warning. */
  predicate HeaderAborts(ps: seq<ParsedCookie>, ctx: ParseContext, env: Oracles)
  {
    Trunc(ctx.initiator.url, Some(60)).None? && exists i :: 0 <= i < |ps| && Warns(ps[i], ctx, env)
  }

  /** "a=1; Max-Age=x, b=2" set from a URL over 60 characters: as written, the warning about "x"
      throws and b is lost along with a, where the intended parser keeps both. */
  lemma LongUrlAbortsHeader(ctx: ParseContext, env: Oracles)
    requires |ctx.initiator.url| > 60 && !IsPublicSuffix(env.psl, "")
    ensures var ps := [ParsedA1(Some("x"), None, None), ParsedCookie("b", "2", None, None, None, None, None, false, false)];
      && HeaderAborts(ps, ctx, env)
      && |Emitted(ps, ctx, env)| == 2 && Emitted(ps, ctx, env)[1].name == "b"
  {
    var a := ParsedA1(Some("x"), None, None);
    var b := ParsedCookie("b", "2", None, None, None, None, None, false, false);
    MaxAgeRejectsNonDigits("x", 0);
    assert Warns([a, b][0], ctx, env);
    AbsentDomainResolves(env.psl, ctx.host);
    assert [a, b] == [a] + [b];
    EmittedAppend([a], [b], ctx, env);
    EmittedSingle(a, ctx, env);
    EmittedSingle(b, ctx, env);
  }

  // ---------------------------------------------------------------------------
  // #getStackFromInitiator over a DevTools `Network.Initiator`

  datatype CallFrame = CallFrame(url: string, lineNumber: int, columnNumber: int)

  /** A `Runtime.StackTrace`: its frames and the asynchronous parent trace, if any. */
  datatype StackTrace = StackTrace(callFrames: seq<CallFrame>, parent: Option<StackTrace>)

  /** A `Network.Initiator`: absent fields are None. */
  datatype NetworkInitiator = NetworkInitiator(url: Option<string>, lineNumber: Option<int>, stack: Option<StackTrace>)

  /** Every frame of a trace and of its parents, innermost trace first. */
  function AllFrames(trace: Option<StackTrace>): seq<CallFrame>
    decreases trace
  {
    match trace
    case None => []
    case Some(t) => t.callFrames + AllFrames(t.parent)
  }

  /** `${url}:${lineNumber}:${columnNumber}`. */
  function FrameText(f: CallFrame): string
  {
    f.url + ":" + IntToString(f.lineNumber) + ":" + IntToString(f.columnNumber)
  }

  /** `${initiator.lineNumber}`: "undefined" when the initiator has no line number. */
  function LineText(lineNumber: Option<int>): string
  {
    match lineNumber
    case None => "undefined"
    case Some(n) => IntToString(n)
  }

  /** The text of each frame, in order. */
  function FrameTexts(frames: seq<CallFrame>): (texts: seq<string>)
    ensures |texts| == |frames|
  {
    seq(|frames|, k requires 0 <= k < |frames| => FrameText(frames[k]))
  }

  method GetStackFromInitiator(initiator: NetworkInitiator) returns (stack: seq<string>)
    ensures var frames := AllFrames(initiator.stack);
      frames != [] ==> |stack| == |frames| && forall k :: 0 <= k < |stack| ==> stack[k] == FrameText(frames[k])
    ensures AllFrames(initiator.stack) == [] ==>
      stack == if initiator.url.Some? && initiator.url.value != ""
               then [initiator.url.value + ":" + LineText(initiator.lineNumber) + ":0"]
               else []
  {
    stack := [];
    ghost var done: seq<CallFrame> := [];
    var stackTrace := initiator.stack;
    while stackTrace.Some?
      invariant done + AllFrames(stackTrace) == AllFrames(initiator.stack)
      invariant stack == FrameTexts(done)
      decreases stackTrace
    {
      var frames := stackTrace.value.callFrames;
      ghost var before := done;
      var i := 0;
      while i < |frames|
        invariant 0 <= i <= |frames|
        invariant done == before + frames[..i]
        invariant stack == FrameTexts(done)
      {
        var f := frames[i];
        stack := stack + [FrameText(f)];
        FrameTextsSnoc(done, f);
        assert frames[..i + 1] == frames[..i] + [f];
        done := done + [f];
        i := i + 1;
      }
      AllFramesStep(before, stackTrace.value, done);
      stackTrace := stackTrace.value.parent;
    }
    assert done == AllFrames(initiator.stack);
    if |stack| == 0 && initiator.url.Some? && initiator.url.value != "" {
      stack := stack + [initiator.url.value + ":" + LineText(initiator.lineNumber) + ":0"];
    }
  }

  lemma FrameTextsSnoc(done: seq<CallFrame>, f: CallFrame)
    ensures FrameTexts(done + [f]) == FrameTexts(done) + [FrameText(f)]
  {
  }

  /** After a trace's own frames, the walk goes on with its parent. */
  lemma AllFramesStep(before: seq<CallFrame>, t: StackTrace, done: seq<CallFrame>)
    requires done == before + t.callFrames[..|t.callFrames|]
    ensures before + AllFrames(Some(t)) == done + AllFrames(t.parent)
  {
    assert t.callFrames[..|t.callFrames|] == t.callFrames;
  }
}
