/** The report layer of scan.js: canonical cookie names, the simplified report record, merging of
    duplicates and the report order. */
module Scan {
  import opened Wrappers
  import opened Strings
  import opened Http
  import opened CookieParsing

  // ---------------------------------------------------------------------------
  // Canonical cookie names

  /** What an anchored rule accepts after its literal prefix: `\d+` or `.+` (any character but a
      line terminator). Both are greedy and need at least one character. */
  datatype Tail = Digits | AnyChars

  /** `[/^prefix tail/, replacement]`. */
  datatype Rule = Rule(prefix: string, tail: Tail, replacement: string)

  predicate TailChar(t: Tail, c: char)
  {
    match t
    case Digits => IsDigit(c)
    case AnyChars => !IsLineTerminator(c)
  }

  /** The length of the longest run of tail characters at the start of `s`. */
  function TailLength(t: Tail, s: string): (n: nat)
    ensures n <= |s|
    ensures forall j :: 0 <= j < n ==> TailChar(t, s[j])
    ensures n < |s| ==> !TailChar(t, s[n])
  {
    if |s| == 0 || !TailChar(t, s[0]) then 0 else 1 + TailLength(t, s[1..])
  }

  /** The rule's regular expression matches at the start of `name`. */
  predicate Matches(r: Rule, name: string)
  {
    StartsWith(name, r.prefix) && TailLength(r.tail, name[|r.prefix|..]) > 0
  }

  /** `name.replace(pattern, replacement)`: the leftmost, longest match, which the anchor puts at the
      start, is replaced, and the rest of the name is kept. */
  function ApplyRule(r: Rule, name: string): (out: string)
    ensures !Matches(r, name) ==> out == name
    ensures Matches(r, name) ==> exists k ::
      && |r.prefix| < k <= |name|
      && (forall j :: |r.prefix| <= j < k ==> TailChar(r.tail, name[j]))
      && (k < |name| ==> !TailChar(r.tail, name[k]))
      && out == r.replacement + name[k..]
  {
    if Matches(r, name) then
      var k := |r.prefix| + TailLength(r.tail, name[|r.prefix|..]);
      assert forall j :: |r.prefix| <= j < k ==> name[j] == name[|r.prefix|..][j - |r.prefix|];
      r.replacement + name[k..]
    else name
  }

  /** The rules, applied in this order. */
  const CanonicalizableCookieNames: seq<Rule> := [
    Rule("_cs_", Digits, "_cs_x"),
    Rule("OpenIdConnect.nonce.", AnyChars, "OpenIdConnect.nonce.x"),
    Rule("SignInMessage.", AnyChars, "SignInMessage.x"),
    Rule("KRTBCOOKIE_", AnyChars, "KRTBCOOKIE_x"),
    Rule("uid-bp-", AnyChars, "uid-bp-x"),
    Rule("sync_", Digits, "sync_x"),
    Rule("adm_", AnyChars, "adm_x"),
    Rule("ra1_pd_", AnyChars, "ra1_pd_x")
  ]

  /** `rules.reduce((name, args) => name.replace(...args), name)`. */
  function ApplyRules(rules: seq<Rule>, name: string): string
  {
    if |rules| == 0 then name else ApplyRules(rules[1..], ApplyRule(rules[0], name))
  }

  function CanonicalCookieName(name: string): string
  {
    ApplyRules(CanonicalizableCookieNames, name)
  }

  /** A rule list in which each replacement is its prefix followed by "x", and no two prefixes
      share a first character. */
  predicate WellFormedRules(rules: seq<Rule>)
  {
    && (forall i :: 0 <= i < |rules| ==> |rules[i].prefix| > 0 && rules[i].replacement == rules[i].prefix + "x")
    && (forall i, j :: 0 <= i < j < |rules| ==> rules[i].prefix[0] != rules[j].prefix[0])
  }

  lemma CanonicalRulesWellFormed()
    ensures WellFormedRules(CanonicalizableCookieNames)
  {
    var rules := CanonicalizableCookieNames;
    var heads := "_OSKusar";
    forall i | 0 <= i < |rules|
      ensures |rules[i].prefix| > 0 && rules[i].prefix[0] == heads[i]
      ensures rules[i].replacement == rules[i].prefix + "x"
    {
    }
    forall i, j | 0 <= i < j < |heads| ensures heads[i] != heads[j] {
    }
  }

  /** The rule whose prefix starts with the name's first character, if any. */
  function Selected(rules: seq<Rule>, name: string): (r: Option<Rule>)
    requires forall i :: 0 <= i < |rules| ==> |rules[i].prefix| > 0
    ensures r.Some? ==> r.value in rules && |name| > 0 && r.value.prefix[0] == name[0]
    ensures r.None? ==> forall i :: 0 <= i < |rules| ==> |name| == 0 || rules[i].prefix[0] != name[0]
  {
    if |rules| == 0 then None
    else if |name| > 0 && rules[0].prefix[0] == name[0] then Some(rules[0])
    else Selected(rules[1..], name)
  }

  /** A rule keeps the first character of any name, so a later rule with another first character
      cannot fire on its output. */
  lemma ApplyRuleKeepsHead(r: Rule, name: string)
    requires |r.prefix| > 0 && StartsWith(r.replacement, r.prefix)
    ensures |ApplyRule(r, name)| > 0 <==> |name| > 0
    ensures |name| > 0 ==> ApplyRule(r, name)[0] == name[0]
  {
  }

  lemma ApplyRuleOtherHead(r: Rule, name: string)
    requires |r.prefix| > 0
    requires |name| == 0 || name[0] != r.prefix[0]
    ensures ApplyRule(r, name) == name
  {
  }

  /** The fold fires at most one rule: the selected one. */
  lemma {:induction false} ApplyRulesSelected(rules: seq<Rule>, name: string)
    requires WellFormedRules(rules)
    ensures ApplyRules(rules, name) == match Selected(rules, name) case None => name case Some(r) => ApplyRule(r, name)
  {
    if |rules| > 0 {
      var rest := rules[1..];
      assert WellFormedRules(rest) by {
        forall i, j | 0 <= i < j < |rest| ensures rest[i].prefix[0] != rest[j].prefix[0] {
          assert rest[i] == rules[i + 1] && rest[j] == rules[j + 1];
        }
      }
      var next := ApplyRule(rules[0], name);
      ApplyRulesSelected(rest, next);
      if |name| > 0 && rules[0].prefix[0] == name[0] {
        ApplyRuleKeepsHead(rules[0], name);
        forall i | 0 <= i < |rest| ensures rest[i].prefix[0] != next[0] {
          assert rest[i] == rules[i + 1];
        }
      } else {
        ApplyRuleOtherHead(rules[0], name);
      }
    }
  }

  /** A rule applied to its own output changes nothing: a digit rule no longer matches ("x" is not a
      digit), and an any-character rule rewrites "x" to "x". */
  lemma ApplyRuleIdempotent(r: Rule, name: string)
    requires r.replacement == r.prefix + "x"
    ensures ApplyRule(r, ApplyRule(r, name)) == ApplyRule(r, name)
  {
    if Matches(r, name) {
      var n := |r.prefix|;
      var k := n + TailLength(r.tail, name[n..]);
      assert k < |name| ==> name[k] == name[n..][k - n];
      ApplyRuleOnReplacement(r, name[k..]);
    }
  }

  /** The output of a rule starts with its replacement followed by a character the tail stops at. */
  lemma ApplyRuleOnReplacement(r: Rule, rest: string)
    requires r.replacement == r.prefix + "x"
    requires |rest| > 0 ==> !TailChar(r.tail, rest[0])
    ensures ApplyRule(r, r.replacement + rest) == r.replacement + rest
  {
    var out := r.replacement + rest;
    var n := |r.prefix|;
    assert out[..n] == r.prefix;
    assert out[n..] == "x" + rest;
    assert ("x" + rest)[1..] == rest;
    match r.tail
    case Digits =>
      assert !Matches(r, out);
    case AnyChars =>
      assert TailLength(r.tail, out[n..]) == 1;
      assert out[n + 1..] == rest;
  }

  /** Canonicalisation is idempotent. */
  lemma CanonicalCookieNameIdempotent(name: string)
    ensures CanonicalCookieName(CanonicalCookieName(name)) == CanonicalCookieName(name)
  {
    CanonicalRulesWellFormed();
    ApplyRulesIdempotent(CanonicalizableCookieNames, name);
  }

  /** Any well-formed rule list is idempotent. */
  lemma ApplyRulesIdempotent(rules: seq<Rule>, name: string)
    requires WellFormedRules(rules)
    ensures ApplyRules(rules, ApplyRules(rules, name)) == ApplyRules(rules, name)
  {
    ApplyRulesSelected(rules, name);
    var once := ApplyRules(rules, name);
    ApplyRulesSelected(rules, once);
    match Selected(rules, name)
    case None =>
    case Some(r) =>
      ApplyRuleKeepsHead(r, name);
      assert Selected(rules, once) == Selected(rules, name);
      ApplyRuleIdempotent(r, name);
  }

  /** A name that no rule matches is left unchanged. */
  lemma CanonicalCookieNameUnmatched(name: string)
    requires forall i :: 0 <= i < |CanonicalizableCookieNames| ==> !Matches(CanonicalizableCookieNames[i], name)
    ensures CanonicalCookieName(name) == name
  {
    CanonicalRulesWellFormed();
    ApplyRulesSelected(CanonicalizableCookieNames, name);
  }

  lemma TailLengthAll(t: Tail, s: string)
    requires forall j :: 0 <= j < |s| ==> TailChar(t, s[j])
    ensures TailLength(t, s) == |s|
  {
    if |s| > 0 {
      TailLengthAll(t, s[1..]);
    }
  }

  /** A name that is a rule's prefix followed only by tail characters becomes the replacement. */
  lemma RewritesWhole(i: nat, name: string)
    requires i < |CanonicalizableCookieNames|
    requires var r := CanonicalizableCookieNames[i];
      |r.prefix| < |name| && StartsWith(name, r.prefix) && forall j :: |r.prefix| <= j < |name| ==> TailChar(r.tail, name[j])
    ensures CanonicalCookieName(name) == CanonicalizableCookieNames[i].replacement
  {
    CanonicalRulesWellFormed();
    RuleRewritesWhole(CanonicalizableCookieNames, i, name);
  }

  lemma RuleRewritesWhole(rules: seq<Rule>, i: nat, name: string)
    requires WellFormedRules(rules) && i < |rules|
    requires var r := rules[i];
      |r.prefix| < |name| && StartsWith(name, r.prefix) && forall j :: |r.prefix| <= j < |name| ==> TailChar(r.tail, name[j])
    ensures ApplyRules(rules, name) == rules[i].replacement
  {
    var r := rules[i];
    ApplyRulesSelected(rules, name);
    assert name[0] == r.prefix[0];
    var sel := Selected(rules, name);
    assert sel.Some?;
    var j :| 0 <= j < |rules| && rules[j] == sel.value;
    assert j == i;
    TailLengthAll(r.tail, name[|r.prefix|..]);
    assert name[|name|..] == [];
  }

  lemma CanonicalNameDigitsExample()
    ensures CanonicalCookieName("_cs_1567795486325") == "_cs_x"
  {
    var name := "_cs_1567795486325";
    assert name[..4] == "_cs_";
    RewritesWhole(0, name);
  }

  lemma CanonicalNameAnyCharsExample()
    ensures CanonicalCookieName("KRTBCOOKIE_244") == "KRTBCOOKIE_x"
  {
    var name := "KRTBCOOKIE_244";
    assert name[..11] == "KRTBCOOKIE_";
    RewritesWhole(3, name);
  }

  lemma CanonicalNameSyncExample()
    ensures CanonicalCookieName("sync_16248314") == "sync_x"
  {
    var name := "sync_16248314";
    assert name[..5] == "sync_";
    RewritesWhole(5, name);
  }

  // ---------------------------------------------------------------------------
  // The report record (simpleCookies)

  /** One row of the scan report. `initiator` None stands for a null initiator. */
  datatype SimpleCookie = SimpleCookie(
    name: string,
    host: string,
    path: string,
    isSession: bool,
    isThirdParty: bool,
    lifeSpan: int,
    initiator: Option<string>)

  /** Milliseconds in a day. */
  const DayMs: int := 24 * 60 * 60 * 1000

  function Max(a: int, b: int): (m: int)
    ensures m >= a && m >= b && (m == a || m == b)
  {
    if a >= b then a else b
  }

  /** `Math.ceil(a / b)` for a positive divisor. */
  function CeilDiv(a: int, b: int): (q: int)
    requires b > 0
    ensures b * (q - 1) < a <= b * q
  {
    (a + b - 1) / b
  }

  /** Days of life: `persistent ? Math.max(Math.ceil(maxAge / DayMs), 0) : 0`. */
  function LifeSpan(persistent: bool, maxAge: int): (days: int)
    ensures days >= 0
    ensures !persistent || maxAge <= 0 ==> days == 0
    ensures persistent && maxAge > 0 ==> days >= 1 && DayMs * (days - 1) < maxAge <= DayMs * days
  {
    if persistent then Max(CeilDiv(maxAge, DayMs), 0) else 0
  }

  /** `[type === "network" ? url : null, ...stack]`; the null is dropped with the other falsy entries. */
  function InitiatorEntries(i: Initiator): seq<string>
  {
    (if i.kind == "network" then [i.url] else []) + i.stack
  }

  /** `filter(Boolean)` on strings: the empty ones go. */
  function Truthy(xs: seq<string>): (ys: seq<string>)
    ensures |ys| <= |xs|
    ensures forall j :: 0 <= j < |ys| ==> ys[j] != "" && ys[j] in xs
    ensures forall x :: x in xs && x != "" ==> x in ys
  {
    if |xs| == 0 then [] else (if xs[0] == "" then [] else [xs[0]]) + Truthy(xs[1..])
  }

  /** `initiator && [...].filter(Boolean).join("\n")`. */
  function InitiatorText(i: Option<Initiator>): (t: Option<string>)
    ensures t.None? <==> i.None?
  {
    match i
    case None => None
    case Some(x) => Some(Join(Truthy(InitiatorEntries(x)), "\n"))
  }

  /** The initiator text is empty exactly when the initiator has no non-empty url to report and no
      non-empty stack frame. */
  lemma InitiatorTextEmpty(i: Initiator)
    ensures InitiatorText(Some(i)).value == "" <==> Truthy(InitiatorEntries(i)) == []
  {
    var ys := Truthy(InitiatorEntries(i));
    if |ys| > 0 {
      assert ys == [ys[0]] + ys[1..];
      assert ys[0] != "";
    }
  }

  /** When no entry holds a line break, splitting the text at line breaks gives back the entries. */
  lemma InitiatorTextRoundTrip(i: Initiator)
    requires forall j :: 0 <= j < |InitiatorEntries(i)| ==> '\n' !in InitiatorEntries(i)[j]
    requires Truthy(InitiatorEntries(i)) != []
    ensures Split(InitiatorText(Some(i)).value, '\n') == Truthy(InitiatorEntries(i))
  {
    var ys := Truthy(InitiatorEntries(i));
    forall j | 0 <= j < |ys| ensures '\n' !in ys[j] {
      var x := ys[j];
      assert x in InitiatorEntries(i);
    }
    SplitJoin(ys, '\n');
  }

  /** The report row of one cookie record. */
  function Simplify(c: Cookie, psl: Psl, firstPartyDomain: string): (s: SimpleCookie)
    ensures s.name == CanonicalCookieName(c.name) && s.host == c.domain && s.path == c.path
    ensures s.isSession <==> !c.persistent || c.expiryTime <= c.creationTime
    ensures s.isThirdParty <==> !IsFirstParty(psl, c.domain, firstPartyDomain)
    ensures s.lifeSpan >= 0
    ensures !c.persistent ==> s.lifeSpan == 0
    ensures !s.isSession ==> s.lifeSpan >= 1
    ensures s.initiator.None? <==> c.initiator.None?
    ensures s.lifeSpan == LifeSpan(c.persistent, c.expiryTime - c.creationTime)
    ensures s.initiator == InitiatorText(c.initiator)
  {
    var maxAge := c.expiryTime - c.creationTime;
    SimpleCookie(
      CanonicalCookieName(c.name),
      c.domain,
      c.path,
      !c.persistent || maxAge <= 0,
      !IsFirstParty(psl, c.domain, firstPartyDomain),
      LifeSpan(c.persistent, maxAge),
      InitiatorText(c.initiator))
  }

  function SimpleCookies(cs: seq<Cookie>, psl: Psl, firstPartyDomain: string): (rows: seq<SimpleCookie>)
    ensures |rows| == |cs|
    ensures forall i :: 0 <= i < |cs| ==> rows[i] == Simplify(cs[i], psl, firstPartyDomain)
  {
    seq(|cs|, i requires 0 <= i < |cs| => Simplify(cs[i], psl, firstPartyDomain))
  }

  /** One row per record, in order: the rows of a concatenation are the rows of its parts. */
  lemma SimpleCookiesAppend(a: seq<Cookie>, b: seq<Cookie>, psl: Psl, firstPartyDomain: string)
    ensures SimpleCookies(a + b, psl, firstPartyDomain)
      == SimpleCookies(a, psl, firstPartyDomain) + SimpleCookies(b, psl, firstPartyDomain)
  {
    var l, r := SimpleCookies(a + b, psl, firstPartyDomain), SimpleCookies(a, psl, firstPartyDomain) + SimpleCookies(b, psl, firstPartyDomain);
    forall i | 0 <= i < |l| ensures l[i] == r[i] {
      if i < |a| {
        assert (a + b)[i] == a[i];
      } else {
        assert (a + b)[i] == b[i - |a|];
      }
    }
  }

  // ---------------------------------------------------------------------------
  // Merging duplicates (mergeCookies)

  /** The merge key `{name, host}`: the path is not part of it. */
  datatype Key = Key(name: string, host: string)

  function KeyOf(c: SimpleCookie): Key
  {
    Key(c.name, c.host)
  }

  /** The keys present in a sequence of rows. */
  function KeySet(cs: seq<SimpleCookie>): (keys: set<Key>)
  {
    if |cs| == 0 then {} else KeySet(cs[..|cs| - 1]) + {KeyOf(cs[|cs| - 1])}
  }

  lemma {:induction false} KeySetMeaning(cs: seq<SimpleCookie>, k: Key)
    ensures k in KeySet(cs) <==> exists i :: 0 <= i < |cs| && KeyOf(cs[i]) == k
  {
    if |cs| > 0 {
      var init := cs[..|cs| - 1];
      KeySetMeaning(init, k);
      if k in KeySet(init) {
        var i :| 0 <= i < |init| && KeyOf(init[i]) == k;
        assert cs[i] == init[i];
      }
      if i :| 0 <= i < |cs| && KeyOf(cs[i]) == k {
        if i < |init| {
          assert init[i] == cs[i];
        }
      }
    }
  }

  /** Where a key first occurs. */
  function FirstPosition(cs: seq<SimpleCookie>, k: Key): (p: nat)
    requires k in KeySet(cs)
    ensures p < |cs| && KeyOf(cs[p]) == k
    ensures forall j :: 0 <= j < p ==> KeyOf(cs[j]) != k
  {
    var init := cs[..|cs| - 1];
    if k in KeySet(init) then
      var p := FirstPosition(init, k);
      assert forall j :: 0 <= j <= p ==> cs[j] == init[j];
      p
    else
      assert forall j :: 0 <= j < |init| ==> KeyOf(init[j]) != k by {
        KeySetMeaning(init, k);
      }
      assert forall j :: 0 <= j < |init| ==> cs[j] == init[j];
      |cs| - 1
  }

  /** The records the Map ends up holding, in insertion order: the first record of each key. */
  function Dedup(cs: seq<SimpleCookie>): (d: seq<SimpleCookie>)
    ensures |d| <= |cs|
  {
    if |cs| == 0 then []
    else
      var init := cs[..|cs| - 1];
      Dedup(init) + if KeyOf(cs[|cs| - 1]) in KeySet(init) then [] else [cs[|cs| - 1]]
  }

  /** `path.substr(1).split(/(\/)/)`: the segments with the separators kept between them. */
  function PathPieces(path: string): seq<string>
  {
    Intersperse(Split(DropFirst(path), '/'), "/")
  }

  /** `existing.findIndex((part, index) => part !== pieces[index])`; None stands for -1. An index past
      the end of `pieces` reads `undefined`, which differs from every piece. */
  function MismatchIndex(existing: seq<string>, pieces: seq<string>): (r: Option<nat>)
    ensures r.Some? ==> r.value < |existing| && r.value <= |pieces|
    ensures r.Some? ==> r.value == |pieces| || existing[r.value] != pieces[r.value]
    ensures r.Some? ==> existing[..r.value] == pieces[..r.value]
    ensures r.None? ==> |existing| <= |pieces| && existing == pieces[..|existing|]
  {
    if |existing| == 0 then None
    else if |pieces| == 0 || existing[0] != pieces[0] then Some(0)
    else
      match MismatchIndex(existing[1..], pieces[1..])
      case None =>
        assert existing == [existing[0]] + existing[1..];
        None
      case Some(j) =>
        assert existing[..j + 1] == [existing[0]] + existing[1..][..j];
        assert pieces[..j + 1] == [pieces[0]] + pieces[1..][..j];
        Some(j + 1)
  }

  /** `"/" + pieces.splice(0, findIndex(...)).join("")`. When `findIndex` gives -1, `splice` removes
      nothing and the path collapses to "/". */
  function MergedPath(path: string, existingPath: string): (merged: string)
    ensures var pieces, existing := PathPieces(path), PathPieces(existingPath);
      match MismatchIndex(existing, pieces)
      case Some(n) => merged == "/" + Concat(pieces[..n]) && pieces[..n] == existing[..n]
                      && (n == |pieces| || pieces[n] != existing[n])
      case None => merged == "/"
  {
    var pieces := PathPieces(path);
    var index := MismatchIndex(PathPieces(existingPath), pieces);
    "/" + Concat(pieces[..if index.Some? then index.value else 0])
  }

  /** A later duplicate `dup` after it has been merged with the stored record `first`. */
  function Absorb(dup: SimpleCookie, first: SimpleCookie): SimpleCookie
  {
    dup.(lifeSpan := Max(dup.lifeSpan, first.lifeSpan),
         isSession := dup.isSession && first.isSession,
         path := MergedPath(dup.path, first.path))
  }

  /** The input array after the pass: every later duplicate has been merged with the first record of
      its key, and every first record is as it was. */
  function Absorbed(cs: seq<SimpleCookie>): (r: seq<SimpleCookie>)
    ensures |r| == |cs|
  {
    if |cs| == 0 then []
    else
      var init := cs[..|cs| - 1];
      var last := cs[|cs| - 1];
      Absorbed(init) + [if KeyOf(last) in KeySet(init) then Absorb(last, init[FirstPosition(init, KeyOf(last))]) else last]
  }

  /** mergeCookies on an array of rows it mutates in place. */
  method MergeCookies(cookies: array<SimpleCookie>) returns (merged: seq<SimpleCookie>)
    modifies cookies
    ensures merged == Dedup(old(cookies[..]))
    ensures cookies[..] == Absorbed(old(cookies[..]))
  {
    ghost var input := cookies[..];
    var stored: map<Key, nat> := map[];
    merged := [];
    var i := 0;
    while i < cookies.Length
      invariant 0 <= i <= cookies.Length
      invariant cookies[..] == Absorbed(input[..i]) + input[i..]
      invariant merged == Dedup(input[..i])
      invariant stored.Keys == KeySet(input[..i])
      invariant StoredFirsts(stored, merged, input[..i])
    {
      MergeStep(input, i, stored, merged);
      SpliceAt(Absorbed(input[..i]), input[i..]);
      var cookie := cookies[i];
      var key := Key(cookie.name, cookie.host);
      if key in stored {
        var existing := merged[stored[key]];
        cookie := cookie.(lifeSpan := Max(cookie.lifeSpan, existing.lifeSpan));
        cookie := cookie.(isSession := cookie.isSession && existing.isSession);
        cookie := cookie.(path := MergedPath(cookie.path, existing.path));
        cookies[i] := cookie;
      } else {
        stored := stored[key := |merged|];
        merged := merged + [cookie];
      }
      i := i + 1;
    }
    assert input[..i] == input;
  }

  /** Replacing the first element after a prefix, or keeping it, moves the boundary one place. */
  lemma SpliceAt<T>(a: seq<T>, b: seq<T>)
    requires |b| > 0
    ensures (a + b)[|a|] == b[0]
    ensures forall c :: (a + b)[|a| := c] == a + [c] + b[1..]
    ensures a + b == a + [b[0]] + b[1..]
  {
    forall c ensures (a + b)[|a| := c] == a + [c] + b[1..] {
      assert forall j :: 0 <= j < |a + b| ==> (a + b)[|a| := c][j] == (a + [c] + b[1..])[j];
    }
    assert b == [b[0]] + b[1..];
  }

  /** One turn of the merge loop, on values. */
  lemma MergeStep(cs: seq<SimpleCookie>, i: nat, stored: map<Key, nat>, merged: seq<SimpleCookie>)
    requires i < |cs| && merged == Dedup(cs[..i]) && stored.Keys == KeySet(cs[..i])
    requires StoredFirsts(stored, merged, cs[..i])
    ensures var key := KeyOf(cs[i]);
      key in stored ==>
        && stored[key] < |merged|
        && Dedup(cs[..i + 1]) == merged
        && stored.Keys == KeySet(cs[..i + 1])
        && StoredFirsts(stored, merged, cs[..i + 1])
        && Absorbed(cs[..i + 1]) == Absorbed(cs[..i]) + [Absorb(cs[i], merged[stored[key]])]
    ensures var key := KeyOf(cs[i]);
      key !in stored ==>
        && Dedup(cs[..i + 1]) == merged + [cs[i]]
        && stored[key := |merged|].Keys == KeySet(cs[..i + 1])
        && StoredFirsts(stored[key := |merged|], merged + [cs[i]], cs[..i + 1])
        && Absorbed(cs[..i + 1]) == Absorbed(cs[..i]) + [cs[i]]
  {
    if KeyOf(cs[i]) in stored {
      MergeStepSeen(cs, i, stored, merged);
    } else {
      MergeStepNew(cs, i, stored, merged);
    }
  }

  lemma MergeStepSeen(cs: seq<SimpleCookie>, i: nat, stored: map<Key, nat>, merged: seq<SimpleCookie>)
    requires i < |cs| && merged == Dedup(cs[..i]) && stored.Keys == KeySet(cs[..i])
    requires StoredFirsts(stored, merged, cs[..i]) && KeyOf(cs[i]) in stored
    ensures var key := KeyOf(cs[i]);
        && stored[key] < |merged|
        && Dedup(cs[..i + 1]) == merged
        && stored.Keys == KeySet(cs[..i + 1])
        && StoredFirsts(stored, merged, cs[..i + 1])
        && Absorbed(cs[..i + 1]) == Absorbed(cs[..i]) + [Absorb(cs[i], merged[stored[key]])]
  {
    PrefixStep(cs, i);
    StoredKeep(stored, merged, cs, i);
    var key := KeyOf(cs[i]);
    assert merged[stored[key]] == cs[..i][FirstPosition(cs[..i], key)];
  }

  lemma MergeStepNew(cs: seq<SimpleCookie>, i: nat, stored: map<Key, nat>, merged: seq<SimpleCookie>)
    requires i < |cs| && merged == Dedup(cs[..i]) && stored.Keys == KeySet(cs[..i])
    requires StoredFirsts(stored, merged, cs[..i]) && KeyOf(cs[i]) !in stored
    ensures var key := KeyOf(cs[i]);
        && Dedup(cs[..i + 1]) == merged + [cs[i]]
        && stored[key := |merged|].Keys == KeySet(cs[..i + 1])
        && StoredFirsts(stored[key := |merged|], merged + [cs[i]], cs[..i + 1])
        && Absorbed(cs[..i + 1]) == Absorbed(cs[..i]) + [cs[i]]
  {
    PrefixStep(cs, i);
    StoredAdd(stored, merged, cs, i);
  }

  /** `stored` maps each key seen so far to the place in `merged` of its first record. */
  ghost predicate StoredFirsts(stored: map<Key, nat>, merged: seq<SimpleCookie>, seen: seq<SimpleCookie>)
  {
    forall k :: k in stored ==>
      k in KeySet(seen) && stored[k] < |merged| && merged[stored[k]] == seen[FirstPosition(seen, k)]
  }

  lemma StoredKeep(stored: map<Key, nat>, merged: seq<SimpleCookie>, cs: seq<SimpleCookie>, i: nat)
    requires i < |cs| && stored.Keys == KeySet(cs[..i]) && StoredFirsts(stored, merged, cs[..i])
    ensures StoredFirsts(stored, merged, cs[..i + 1])
  {
    PrefixStep(cs, i);
    forall k | k in stored
      ensures k in KeySet(cs[..i + 1]) && stored[k] < |merged| && merged[stored[k]] == cs[..i + 1][FirstPosition(cs[..i + 1], k)]
    {
      var p := FirstPosition(cs[..i], k);
      assert cs[..i + 1][p] == cs[..i][p];
    }
  }

  lemma StoredAdd(stored: map<Key, nat>, merged: seq<SimpleCookie>, cs: seq<SimpleCookie>, i: nat)
    requires i < |cs| && stored.Keys == KeySet(cs[..i]) && StoredFirsts(stored, merged, cs[..i])
    requires KeyOf(cs[i]) !in stored
    ensures StoredFirsts(stored[KeyOf(cs[i]) := |merged|], merged + [cs[i]], cs[..i + 1])
  {
    var stored', merged' := stored[KeyOf(cs[i]) := |merged|], merged + [cs[i]];
    forall k | k in stored'
      ensures k in KeySet(cs[..i + 1]) && stored'[k] < |merged'| && merged'[stored'[k]] == cs[..i + 1][FirstPosition(cs[..i + 1], k)]
    {
      if k != KeyOf(cs[i]) {
        StoredAddOther(stored, merged, cs, i, k);
      } else {
        StoredAddNew(stored, cs, i);
      }
    }
  }

  lemma StoredAddNew(stored: map<Key, nat>, cs: seq<SimpleCookie>, i: nat)
    requires i < |cs| && stored.Keys == KeySet(cs[..i]) && KeyOf(cs[i]) !in stored
    ensures KeyOf(cs[i]) in KeySet(cs[..i + 1]) && cs[..i + 1][FirstPosition(cs[..i + 1], KeyOf(cs[i]))] == cs[i]
  {
    PrefixStep(cs, i);
  }

  lemma StoredAddOther(stored: map<Key, nat>, merged: seq<SimpleCookie>, cs: seq<SimpleCookie>, i: nat, k: Key)
    requires i < |cs| && k in stored && stored.Keys == KeySet(cs[..i])
    requires k in KeySet(cs[..i]) && stored[k] < |merged| && merged[stored[k]] == cs[..i][FirstPosition(cs[..i], k)]
    ensures k in KeySet(cs[..i + 1]) && (merged + [cs[i]])[stored[k]] == cs[..i + 1][FirstPosition(cs[..i + 1], k)]
  {
    PrefixStep(cs, i);
    var p := FirstPosition(cs[..i], k);
    assert cs[..i + 1][p] == cs[..i][p];
    assert (merged + [cs[i]])[stored[k]] == merged[stored[k]];
  }

  /** What the loop needs about one more row: the earlier first positions do not move. */
  lemma PrefixStep(cs: seq<SimpleCookie>, i: nat)
    requires i < |cs|
    ensures cs[..i + 1][..i] == cs[..i] && cs[..i + 1][i] == cs[i]
    ensures KeySet(cs[..i + 1]) == KeySet(cs[..i]) + {KeyOf(cs[i])}
    ensures forall k :: k in KeySet(cs[..i]) ==> FirstPosition(cs[..i + 1], k) == FirstPosition(cs[..i], k)
    ensures KeyOf(cs[i]) !in KeySet(cs[..i]) ==> FirstPosition(cs[..i + 1], KeyOf(cs[i])) == i
    ensures Dedup(cs[..i + 1]) == Dedup(cs[..i]) + if KeyOf(cs[i]) in KeySet(cs[..i]) then [] else [cs[i]]
    ensures Absorbed(cs[..i + 1]) == Absorbed(cs[..i]) +
      [if KeyOf(cs[i]) in KeySet(cs[..i]) then Absorb(cs[i], cs[..i][FirstPosition(cs[..i], KeyOf(cs[i]))]) else cs[i]]
  {
    assert cs[..i + 1][..i] == cs[..i];
  }

  /** No key occurs twice. */
  predicate UniqueKeys(d: seq<SimpleCookie>)
  {
    forall i, j :: 0 <= i < j < |d| ==> KeyOf(d[i]) != KeyOf(d[j])
  }

  lemma KeySetSnoc(a: seq<SimpleCookie>, x: SimpleCookie)
    ensures KeySet(a + [x]) == KeySet(a) + {KeyOf(x)}
  {
    assert (a + [x])[..|a|] == a;
  }

  /** The merged rows carry every key of the input, and only those. */
  lemma {:induction false} DedupKeySet(cs: seq<SimpleCookie>)
    ensures KeySet(Dedup(cs)) == KeySet(cs)
  {
    if |cs| > 0 {
      var init, last := cs[..|cs| - 1], cs[|cs| - 1];
      DedupKeySet(init);
      if KeyOf(last) !in KeySet(init) {
        KeySetSnoc(Dedup(init), last);
      } else {
        assert Dedup(init) + [] == Dedup(init);
      }
    }
  }

  /** ... and each of them once: one row per distinct (name, host). */
  lemma {:induction false} DedupUniqueKeys(cs: seq<SimpleCookie>)
    ensures UniqueKeys(Dedup(cs))
  {
    if |cs| > 0 {
      var init, last := cs[..|cs| - 1], cs[|cs| - 1];
      DedupUniqueKeys(init);
      DedupKeySet(init);
      KeySetMeaning(Dedup(init), KeyOf(last));
    }
  }

  /** Each merged row is the first input row of its key, untouched. */
  lemma {:induction false} DedupFirstSeen(cs: seq<SimpleCookie>)
    ensures var d := Dedup(cs);
      forall j :: 0 <= j < |d| ==> KeyOf(d[j]) in KeySet(cs) && d[j] == cs[FirstPosition(cs, KeyOf(d[j]))]
  {
    if |cs| > 0 {
      DedupFirstSeen(cs[..|cs| - 1]);
      var d := Dedup(cs);
      forall j | 0 <= j < |d| ensures KeyOf(d[j]) in KeySet(cs) && d[j] == cs[FirstPosition(cs, KeyOf(d[j]))] {
        DedupFirstSeenAt(cs, j);
      }
    }
  }

  lemma DedupFirstSeenAt(cs: seq<SimpleCookie>, j: nat)
    requires |cs| > 0 && j < |Dedup(cs)|
    requires var init := cs[..|cs| - 1]; var d0 := Dedup(init);
      j < |d0| ==> KeyOf(d0[j]) in KeySet(init) && d0[j] == init[FirstPosition(init, KeyOf(d0[j]))]
    ensures var d := Dedup(cs);
      KeyOf(d[j]) in KeySet(cs) && d[j] == cs[FirstPosition(cs, KeyOf(d[j]))]
  {
    var n := |cs| - 1;
    var init := cs[..n];
    var d0, d := Dedup(init), Dedup(cs);
    assert KeySet(cs) == KeySet(init) + {KeyOf(cs[n])};
    if j < |d0| {
      var k := KeyOf(d0[j]);
      var p := FirstPosition(init, k);
      assert d[j] == d0[j];
      assert FirstPosition(cs, k) == p;
      assert cs[p] == init[p];
    } else {
      assert d[j] == cs[n];
      assert FirstPosition(cs, KeyOf(cs[n])) == n;
    }
  }

  /** The merged rows come in the order their keys were first seen. */
  lemma {:induction false} DedupOrder(cs: seq<SimpleCookie>)
    ensures var d := Dedup(cs);
      forall j :: 0 <= j < |d| ==> KeyOf(d[j]) in KeySet(cs)
    ensures var d := Dedup(cs);
      forall i, j :: 0 <= i < j < |d| ==> FirstPosition(cs, KeyOf(d[i])) < FirstPosition(cs, KeyOf(d[j]))
  {
    DedupFirstSeen(cs);
    if |cs| > 0 {
      DedupOrder(cs[..|cs| - 1]);
      var d := Dedup(cs);
      forall i, j | 0 <= i < j < |d| ensures FirstPosition(cs, KeyOf(d[i])) < FirstPosition(cs, KeyOf(d[j])) {
        DedupOrderAt(cs, i, j);
      }
    }
  }

  lemma DedupOrderAt(cs: seq<SimpleCookie>, i: nat, j: nat)
    requires |cs| > 0 && i < j < |Dedup(cs)|
    requires var init := cs[..|cs| - 1]; var d0 := Dedup(init);
      j < |d0| ==> (KeyOf(d0[i]) in KeySet(init) && KeyOf(d0[j]) in KeySet(init)
                     && FirstPosition(init, KeyOf(d0[i])) < FirstPosition(init, KeyOf(d0[j])))
    ensures var d := Dedup(cs);
      KeyOf(d[i]) in KeySet(cs) && KeyOf(d[j]) in KeySet(cs)
      && FirstPosition(cs, KeyOf(d[i])) < FirstPosition(cs, KeyOf(d[j]))
  {
    var n := |cs| - 1;
    var init := cs[..n];
    var d0, d := Dedup(init), Dedup(cs);
    assert KeySet(cs) == KeySet(init) + {KeyOf(cs[n])};
    DedupFirstSeen(init);
    assert d[i] == d0[i];
    var ki := KeyOf(d0[i]);
    assert FirstPosition(cs, ki) == FirstPosition(init, ki);
    if j < |d0| {
      var kj := KeyOf(d0[j]);
      assert d[j] == d0[j];
      assert FirstPosition(cs, kj) == FirstPosition(init, kj);
    } else {
      assert d[j] == cs[n];
      assert FirstPosition(cs, KeyOf(cs[n])) == n;
    }
  }

  /** Rows with distinct keys survive a merge unchanged. */
  lemma {:induction false} DedupOfUnique(d: seq<SimpleCookie>)
    requires UniqueKeys(d)
    ensures Dedup(d) == d
  {
    if |d| > 0 {
      var init := d[..|d| - 1];
      assert UniqueKeys(init);
      DedupOfUnique(init);
      KeySetMeaning(init, KeyOf(d[|d| - 1]));
      assert init + [d[|d| - 1]] == d;
    }
  }

  /** Merging is idempotent. */
  lemma DedupIdempotent(cs: seq<SimpleCookie>)
    ensures Dedup(Dedup(cs)) == Dedup(cs)
  {
    DedupUniqueKeys(cs);
    DedupOfUnique(Dedup(cs));
  }

  /** The key of every row is among the keys. */
  lemma KeysOfRows(cs: seq<SimpleCookie>)
    ensures forall i :: 0 <= i < |cs| ==> KeyOf(cs[i]) in KeySet(cs)
  {
    forall i | 0 <= i < |cs| ensures KeyOf(cs[i]) in KeySet(cs) {
      KeySetMeaning(cs, KeyOf(cs[i]));
    }
  }

  /** What the pass leaves at position i of the array. */
  ghost function AbsorbedAt(cs: seq<SimpleCookie>, i: nat): SimpleCookie
    requires i < |cs| && KeyOf(cs[i]) in KeySet(cs)
  {
    var p := FirstPosition(cs, KeyOf(cs[i]));
    if p == i then cs[i] else Absorb(cs[i], cs[p])
  }

  /** Position by position, the array after the pass: a first row is kept, a later duplicate is
      merged with the first row of its key. */
  lemma {:induction false} AbsorbedMeaning(cs: seq<SimpleCookie>)
    ensures forall i :: 0 <= i < |cs| ==> KeyOf(cs[i]) in KeySet(cs) && Absorbed(cs)[i] == AbsorbedAt(cs, i)
  {
    KeysOfRows(cs);
    if |cs| > 0 {
      var n := |cs| - 1;
      var init := cs[..n];
      AbsorbedMeaning(init);
      forall i | 0 <= i < |cs| ensures Absorbed(cs)[i] == AbsorbedAt(cs, i) {
        AbsorbedStep(cs, i);
      }
    }
  }

  /** One position of the pass, given the same position of the pass over all but the last row. */
  lemma AbsorbedStep(cs: seq<SimpleCookie>, i: nat)
    requires i < |cs|
    requires var init := cs[..|cs| - 1];
      i < |init| ==> KeyOf(init[i]) in KeySet(init) && Absorbed(init)[i] == AbsorbedAt(init, i)
    ensures KeyOf(cs[i]) in KeySet(cs) && Absorbed(cs)[i] == AbsorbedAt(cs, i)
  {
    if i < |cs| - 1 {
      AbsorbedStepInit(cs, i);
    } else {
      AbsorbedStepLast(cs);
    }
  }

  lemma AbsorbedStepInit(cs: seq<SimpleCookie>, i: nat)
    requires i < |cs| - 1
    requires var init := cs[..|cs| - 1];
      KeyOf(init[i]) in KeySet(init) && Absorbed(init)[i] == AbsorbedAt(init, i)
    ensures KeyOf(cs[i]) in KeySet(cs) && Absorbed(cs)[i] == AbsorbedAt(cs, i)
  {
    var n := |cs| - 1;
    var init := cs[..n];
    var k := KeyOf(cs[i]);
    assert cs[i] == init[i];
    var p := FirstPosition(init, k);
    assert FirstPosition(cs, k) == p;
    assert cs[p] == init[p];
    assert AbsorbedAt(cs, i) == AbsorbedAt(init, i);
  }

  lemma AbsorbedStepLast(cs: seq<SimpleCookie>)
    requires |cs| > 0
    ensures KeyOf(cs[|cs| - 1]) in KeySet(cs) && Absorbed(cs)[|cs| - 1] == AbsorbedAt(cs, |cs| - 1)
  {
    var n := |cs| - 1;
    var init := cs[..n];
    var k := KeyOf(cs[n]);
    if k in KeySet(init) {
      var p := FirstPosition(init, k);
      assert FirstPosition(cs, k) == p;
      assert cs[p] == init[p];
    } else {
      assert FirstPosition(cs, k) == n;
    }
  }

  lemma TwoSegments(x: string, y: string)
    requires '/' !in x && '/' !in y
    ensures PathPieces("/" + x + "/" + y) == [x, "/", y]
  {
    assert DropFirst("/" + x + "/" + y) == x + ['/'] + y;
    SplitAppend(x, y, '/');
    SplitNoSeparator(x, '/');
    SplitNoSeparator(y, '/');
    assert Split(x + ['/'] + y, '/') == [x, y];
    assert [x, y][1..] == [y];
    assert Intersperse([x, y], "/") == [x, "/"] + Intersperse([y], "/");
  }

  /** "/a/b" merged with "/a/c" keeps the common "/a/". */
  lemma MergedPathCommonPrefixExample()
    ensures MergedPath("/a/b", "/a/c") == "/a/"
  {
    assert "/a/b" == "/" + "a" + "/" + "b";
    assert "/a/c" == "/" + "a" + "/" + "c";
    TwoSegments("a", "b");
    TwoSegments("a", "c");
    var pieces: seq<string> := ["a", "/", "b"];
    assert MismatchIndex(["a", "/", "c"], pieces) == Some(2);
    assert pieces[..2] == ["a", "/"];
    assert Concat(["a", "/"]) == "a/";
  }

  /** The same path twice: `findIndex` finds no difference, gives -1, and the path becomes "/". */
  lemma MergedPathSamePathExample()
    ensures MergedPath("/a", "/a") == "/"
  {
    assert DropFirst("/a") == "a";
    SplitNoSeparator("a", '/');
    assert PathPieces("/a") == ["a"];
    assert MismatchIndex(["a"], ["a"]) == None;
  }

  /** A stored path that is a prefix of the duplicate's also gives "/". */
  lemma MergedPathPrefix(path: string, existingPath: string)
    requires var pieces, existing := PathPieces(path), PathPieces(existingPath);
      |existing| <= |pieces| && existing == pieces[..|existing|]
    ensures MergedPath(path, existingPath) == "/"
  {
  }

  // ---------------------------------------------------------------------------
  // The merge its comments describe

  predicate IsPrefix(p: seq<string>, s: seq<string>)
  {
    |p| <= |s| && s[..|p|] == p
  }

  /** Both lists go on past `n` pieces, with different pieces there. */
  predicate DiffersAt(a: seq<string>, b: seq<string>, n: nat)
  {
    n < |a| && n < |b| && a[n] != b[n]
  }

  /** The longest list of pieces that both `a` and `b` begin with. */
  function CommonPrefix(a: seq<string>, b: seq<string>): (c: seq<string>)
    ensures IsPrefix(c, a) && IsPrefix(c, b)
    ensures |c| == |a| || |c| == |b| || DiffersAt(a, b, |c|)
  {
    if |a| == 0 || |b| == 0 || a[0] != b[0] then []
    else
      var rest := CommonPrefix(a[1..], b[1..]);
      assert a[..|rest| + 1] == [a[0]] + a[1..][..|rest|];
      assert b[..|rest| + 1] == [b[0]] + b[1..][..|rest|];
      [a[0]] + rest
  }

  lemma {:induction false} CommonPrefixSame(a: seq<string>)
    ensures CommonPrefix(a, a) == a
  {
    if |a| > 0 {
      CommonPrefixSame(a[1..]);
    }
  }

  /** The "common base" of two paths: the leading pieces they share, all of them when one path's
      pieces begin the other's. Unlike MergedPath, a shared path is never cut back to "/". */
  function CommonPath(path: string, existingPath: string): (merged: string)
    ensures var pieces, existing := PathPieces(path), PathPieces(existingPath);
      exists n: nat :: n <= |pieces| && n <= |existing| && pieces[..n] == existing[..n]
        && (n == |pieces| || n == |existing| || pieces[n] != existing[n])
        && merged == "/" + Concat(pieces[..n])
  {
    var pieces, existing := PathPieces(path), PathPieces(existingPath);
    var c := CommonPrefix(existing, pieces);
    assert pieces[..|c|] == c;
    "/" + Concat(c)
  }

  /** A path that starts with "/" merged with itself is kept. */
  lemma CommonPathSame(path: string)
    requires |path| > 0 && path[0] == '/'
    ensures CommonPath(path, path) == path
  {
    var parts := Split(DropFirst(path), '/');
    CommonPrefixSame(PathPieces(path));
    ConcatIntersperse(parts, "/");
    JoinSplit(DropFirst(path), '/');
  }

  /** The record kept for a key, with the other values of a later duplicate merged into it. */
  function MergeInto(first: SimpleCookie, dup: SimpleCookie): SimpleCookie
  {
    first.(lifeSpan := Max(first.lifeSpan, dup.lifeSpan),
           isSession := first.isSession && dup.isSession)
  }

  /** The common base of the paths of a group: the pieces every one of them begins with, as many
      as they share. */
  function CommonPieces(rows: seq<SimpleCookie>): (cp: seq<string>)
    requires |rows| > 0
    ensures forall r :: r in rows ==> IsPrefix(cp, PathPieces(r.path))
    ensures || (exists r :: r in rows && |PathPieces(r.path)| == |cp|)
            || (exists r, q :: r in rows && q in rows && DiffersAt(PathPieces(r.path), PathPieces(q.path), |cp|))
  {
    if |rows| == 1 then
      assert rows[0] in rows;
      PathPieces(rows[0].path)
    else
      var init := rows[..|rows| - 1];
      var cp := CommonPrefix(CommonPieces(init), PathPieces(rows[|rows| - 1].path));
      CommonPiecesStep(rows, CommonPieces(init));
      cp
  }

  lemma PrefixTransitive(c: seq<string>, a: seq<string>, s: seq<string>)
    requires IsPrefix(c, a) && IsPrefix(a, s)
    ensures IsPrefix(c, s)
  {
    assert s[..|c|] == s[..|a|][..|c|];
  }

  /** The common base of a group survives one more row. */
  lemma CommonPiecesStep(rows: seq<SimpleCookie>, a: seq<string>)
    requires |rows| > 1
    requires var init := rows[..|rows| - 1];
      && (forall r :: r in init ==> IsPrefix(a, PathPieces(r.path)))
      && (|| (exists r :: r in init && |PathPieces(r.path)| == |a|)
          || (exists r, q :: r in init && q in init && DiffersAt(PathPieces(r.path), PathPieces(q.path), |a|)))
    ensures var cp := CommonPrefix(a, PathPieces(rows[|rows| - 1].path));
      && (forall r :: r in rows ==> IsPrefix(cp, PathPieces(r.path)))
      && (|| (exists r :: r in rows && |PathPieces(r.path)| == |cp|)
          || (exists r, q :: r in rows && q in rows && DiffersAt(PathPieces(r.path), PathPieces(q.path), |cp|)))
  {
    var init, last := rows[..|rows| - 1], rows[|rows| - 1];
    assert rows == init + [last];
    CommonPiecesStepPrefix(init, last, a);
    CommonPiecesStepMaximal(init, last, a);
  }

  lemma CommonPiecesStepPrefix(init: seq<SimpleCookie>, last: SimpleCookie, a: seq<string>)
    requires forall r :: r in init ==> IsPrefix(a, PathPieces(r.path))
    ensures var cp := CommonPrefix(a, PathPieces(last.path));
      forall r :: r in init + [last] ==> IsPrefix(cp, PathPieces(r.path))
  {
    var cp := CommonPrefix(a, PathPieces(last.path));
    forall r | r in init + [last] ensures IsPrefix(cp, PathPieces(r.path)) {
      if r in init {
        PrefixTransitive(cp, a, PathPieces(r.path));
      }
    }
  }

  lemma CommonPiecesStepMaximal(init: seq<SimpleCookie>, last: SimpleCookie, a: seq<string>)
    requires |init| > 0
    requires forall r :: r in init ==> IsPrefix(a, PathPieces(r.path))
    requires || (exists r :: r in init && |PathPieces(r.path)| == |a|)
             || (exists r, q :: r in init && q in init && DiffersAt(PathPieces(r.path), PathPieces(q.path), |a|))
    ensures var cp, rows := CommonPrefix(a, PathPieces(last.path)), init + [last];
      || (exists r :: r in rows && |PathPieces(r.path)| == |cp|)
      || (exists r, q :: r in rows && q in rows && DiffersAt(PathPieces(r.path), PathPieces(q.path), |cp|))
  {
    var rows := init + [last];
    var b := PathPieces(last.path);
    var cp := CommonPrefix(a, b);
    if |cp| == |b| {
      assert last in rows;
    } else if |cp| == |a| {
      if r :| r in init && |PathPieces(r.path)| == |a| {
        assert r in rows;
      } else {
        var r, q :| r in init && q in init && DiffersAt(PathPieces(r.path), PathPieces(q.path), |a|);
        assert r in rows && q in rows;
      }
    } else {
      var r := init[0];
      assert r in init && r in rows && last in rows;
      var pr := PathPieces(r.path);
      assert IsPrefix(a, pr);
      assert pr[|cp|] == pr[..|a|][|cp|];
      assert DiffersAt(pr, b, |cp|);
    }
  }

  /** The rows of one merge key, in order. */
  function RowsOf(cs: seq<SimpleCookie>, k: Key): seq<SimpleCookie>
  {
    if |cs| == 0 then []
    else RowsOf(cs[..|cs| - 1], k) + if KeyOf(cs[|cs| - 1]) == k then [cs[|cs| - 1]] else []
  }

  lemma {:induction false} RowsOfMeaning(cs: seq<SimpleCookie>, k: Key)
    ensures forall x :: x in RowsOf(cs, k) <==> x in cs && KeyOf(x) == k
  {
    if |cs| > 0 {
      var init := cs[..|cs| - 1];
      RowsOfMeaning(init, k);
      assert cs == init + [cs[|cs| - 1]];
    }
  }

  /** The rows of a group folded into the first of them. */
  function MergeGroup(rows: seq<SimpleCookie>): (m: SimpleCookie)
    requires |rows| > 0
    ensures KeyOf(m) == KeyOf(rows[0]) && m.initiator == rows[0].initiator
    ensures m.isThirdParty == rows[0].isThirdParty
    ensures m.isSession <==> forall r :: r in rows ==> r.isSession
    ensures forall r :: r in rows ==> r.lifeSpan <= m.lifeSpan
    ensures exists r :: r in rows && r.lifeSpan == m.lifeSpan
    ensures |rows| == 1 ==> m.path == rows[0].path
    ensures |rows| > 1 ==> m.path == "/" + Concat(CommonPieces(rows))
  {
    if |rows| == 1 then rows[0]
    else
      var init, last := rows[..|rows| - 1], rows[|rows| - 1];
      var m := MergeGroup(init);
      MergeGroupStep(rows, m);
      MergeInto(m, last).(path := "/" + Concat(CommonPieces(rows)))
  }

  /** The group invariant survives one more row. */
  lemma MergeGroupStep(rows: seq<SimpleCookie>, m: SimpleCookie)
    requires |rows| > 1
    requires var init := rows[..|rows| - 1];
      && KeyOf(m) == KeyOf(init[0]) && m.initiator == init[0].initiator && m.isThirdParty == init[0].isThirdParty
      && (m.isSession <==> forall r :: r in init ==> r.isSession)
      && (forall r :: r in init ==> r.lifeSpan <= m.lifeSpan)
      && (exists r :: r in init && r.lifeSpan == m.lifeSpan)
    ensures var n := MergeInto(m, rows[|rows| - 1]);
      && KeyOf(n) == KeyOf(rows[0]) && n.initiator == rows[0].initiator && n.isThirdParty == rows[0].isThirdParty
      && (n.isSession <==> forall r :: r in rows ==> r.isSession)
      && (forall r :: r in rows ==> r.lifeSpan <= n.lifeSpan)
      && (exists r :: r in rows && r.lifeSpan == n.lifeSpan)
  {
    var init, last := rows[..|rows| - 1], rows[|rows| - 1];
    assert rows == init + [last];
    assert rows[0] == init[0];
    var n := MergeInto(m, last);
    var w :| w in init && w.lifeSpan == m.lifeSpan;
    if n.lifeSpan == last.lifeSpan {
      assert last in rows;
    } else {
      assert w in rows;
    }
  }

  /** The record the intended merge keeps for a key that occurs. */
  function MergedRow(cs: seq<SimpleCookie>, k: Key): SimpleCookie
    requires k in KeySet(cs)
  {
    RowsOfMeaning(cs, k);
    KeySetMeaning(cs, k);
    var i :| 0 <= i < |cs| && KeyOf(cs[i]) == k;
    assert cs[i] in RowsOf(cs, k);
    MergeGroup(RowsOf(cs, k))
  }

  /** The kept record of a key has the key, the longest life of its rows, and is a session cookie
      exactly when all of them are. */
  lemma MergedRowMeaning(cs: seq<SimpleCookie>, k: Key)
    requires k in KeySet(cs)
    ensures KeyOf(MergedRow(cs, k)) == k
    ensures forall i :: 0 <= i < |cs| && KeyOf(cs[i]) == k ==> cs[i].lifeSpan <= MergedRow(cs, k).lifeSpan
    ensures exists i :: 0 <= i < |cs| && KeyOf(cs[i]) == k && cs[i].lifeSpan == MergedRow(cs, k).lifeSpan
    ensures MergedRow(cs, k).isSession <==> forall i :: 0 <= i < |cs| && KeyOf(cs[i]) == k ==> cs[i].isSession
  {
    RowsOfMeaning(cs, k);
    var rows := RowsOf(cs, k);
    var m := MergedRow(cs, k);
    assert rows[0] in rows;
    var r :| r in rows && r.lifeSpan == m.lifeSpan;
    var i :| 0 <= i < |cs| && cs[i] == r;
    forall i | 0 <= i < |cs| && KeyOf(cs[i]) == k ensures cs[i] in rows {
    }
  }

  /** The kept record of a key that occurs once keeps that row's path; with several rows, its path is
      their common base: the pieces every row's path begins with, and no more, since one row has no
      further piece or two rows differ at the next one. */
  lemma MergedRowPath(cs: seq<SimpleCookie>, k: Key)
    requires k in KeySet(cs)
    ensures var rows, m := RowsOf(cs, k), MergedRow(cs, k);
      |rows| == 1 ==> m.path == rows[0].path
    ensures var rows, m := RowsOf(cs, k), MergedRow(cs, k);
      |rows| > 1 ==> var cp := CommonPieces(rows);
        && m.path == "/" + Concat(cp)
        && (forall i :: 0 <= i < |cs| && KeyOf(cs[i]) == k ==> IsPrefix(cp, PathPieces(cs[i].path)))
        && (|| (exists i :: 0 <= i < |cs| && KeyOf(cs[i]) == k && |PathPieces(cs[i].path)| == |cp|)
            || (exists i, j :: 0 <= i < |cs| && 0 <= j < |cs| && KeyOf(cs[i]) == k && KeyOf(cs[j]) == k
                  && DiffersAt(PathPieces(cs[i].path), PathPieces(cs[j].path), |cp|)))
  {
    RowsOfMeaning(cs, k);
    var rows := RowsOf(cs, k);
    if |rows| > 1 {
      CommonPiecesOfKey(cs, k, rows);
    }
  }

  /** CommonPieces read over the input rather than over the rows of the key. */
  lemma CommonPiecesOfKey(cs: seq<SimpleCookie>, k: Key, rows: seq<SimpleCookie>)
    requires |rows| > 0
    requires forall x :: x in rows <==> x in cs && KeyOf(x) == k
    ensures var cp := CommonPieces(rows);
      && (forall i :: 0 <= i < |cs| && KeyOf(cs[i]) == k ==> IsPrefix(cp, PathPieces(cs[i].path)))
      && (|| (exists i :: 0 <= i < |cs| && KeyOf(cs[i]) == k && |PathPieces(cs[i].path)| == |cp|)
          || (exists i, j :: 0 <= i < |cs| && 0 <= j < |cs| && KeyOf(cs[i]) == k && KeyOf(cs[j]) == k
                && DiffersAt(PathPieces(cs[i].path), PathPieces(cs[j].path), |cp|)))
  {
    var cp := CommonPieces(rows);
    forall i | 0 <= i < |cs| && KeyOf(cs[i]) == k ensures IsPrefix(cp, PathPieces(cs[i].path)) {
      assert cs[i] in rows;
    }
    if r :| r in rows && |PathPieces(r.path)| == |cp| {
      var i :| 0 <= i < |cs| && cs[i] == r;
    } else {
      var r, q :| r in rows && q in rows && DiffersAt(PathPieces(r.path), PathPieces(q.path), |cp|);
      var i :| 0 <= i < |cs| && cs[i] == r;
      var j :| 0 <= j < |cs| && cs[j] == q;
    }
  }

  /** For two rows of a key, the kept path is the common base of the two paths. */
  lemma MergedPairPath(a: SimpleCookie, b: SimpleCookie)
    ensures MergeGroup([a, b]).path == CommonPath(b.path, a.path)
  {
    var rows := [a, b];
    assert rows[..1] == [a];
    assert CommonPieces([a]) == PathPieces(a.path);
    assert CommonPieces(rows) == CommonPrefix(PathPieces(a.path), PathPieces(b.path));
  }

  /** The intended result: one record per key, in first-seen order, each merged over its key. */
  function MergeIntended(cs: seq<SimpleCookie>): (merged: seq<SimpleCookie>)
    ensures |merged| == |Dedup(cs)|
    ensures forall j :: 0 <= j < |merged| ==> KeyOf(merged[j]) == KeyOf(Dedup(cs)[j])
  {
    var d := Dedup(cs);
    DedupKeySet(cs);
    KeysOfRows(d);
    var merged := seq(|d|, j requires 0 <= j < |d| => MergedRow(cs, KeyOf(d[j])));
    assert forall j :: 0 <= j < |d| ==> KeyOf(merged[j]) == KeyOf(d[j]) by {
      forall j | 0 <= j < |d| ensures KeyOf(merged[j]) == KeyOf(d[j]) {
        MergedRowMeaning(cs, KeyOf(d[j]));
      }
    }
    merged
  }

  /** As written, a later row of the same key leaves the result unchanged: two rows of one key with
      1 and 5 days of life give the first row, with 1 day, where the intended merge keeps 5. */
  lemma MergeKeepsFirstValues(a: SimpleCookie, b: SimpleCookie)
    requires KeyOf(a) == KeyOf(b) && a.lifeSpan < b.lifeSpan
    ensures Dedup([a, b]) == [a]
    ensures MergedRow([a, b], KeyOf(a)).lifeSpan == b.lifeSpan
  {
    assert [a, b][..1] == [a];
    assert [a][..0] == [];
    assert KeySet([a]) == {KeyOf(a)};
    MergedRowMeaning([a, b], KeyOf(a));
    var m := MergedRow([a, b], KeyOf(a));
    assert [a, b][1] == b;
  }

  // ---------------------------------------------------------------------------
  // Report order (sortCookies)

  /** JavaScript `<` on strings: lexicographic order of the characters, a proper prefix first. */
  predicate StrLess(a: string, b: string)
  {
    if |a| == 0 then |b| > 0
    else |b| > 0 && (a[0] < b[0] || (a[0] == b[0] && StrLess(a[1..], b[1..])))
  }

  lemma StrLessIrreflexive(a: string)
    ensures !StrLess(a, a)
  {
  }

  /** Of two different strings, exactly one is the smaller. */
  lemma {:induction false} StrLessTotal(a: string, b: string)
    ensures a != b ==> StrLess(a, b) || StrLess(b, a)
    ensures !(StrLess(a, b) && StrLess(b, a))
  {
    if |a| > 0 && |b| > 0 && a[0] == b[0] {
      StrLessTotal(a[1..], b[1..]);
      if a != b {
        assert a == [a[0]] + a[1..] && b == [b[0]] + b[1..];
      }
    }
  }

  lemma {:induction false} StrLessTransitive(a: string, b: string, c: string)
    requires StrLess(a, b) && StrLess(b, c)
    ensures StrLess(a, c)
  {
    if |a| > 0 && a[0] == b[0] && b[0] == c[0] {
      StrLessTransitive(a[1..], b[1..], c[1..]);
    }
  }

  /** `x < y ? -1 : x > y ? 1 : 0`. */
  function CompareStrings(x: string, y: string): int
  {
    if StrLess(x, y) then -1 else if StrLess(y, x) then 1 else 0
  }

  /** The comparator of sortCookies: by name, then host, then path. */
  function CompareCookies(a: SimpleCookie, b: SimpleCookie): (result: int)
    ensures -1 <= result <= 1
  {
    var result := CompareStrings(a.name, b.name);
    var result := if result == 0 then CompareStrings(a.host, b.host) else result;
    if result == 0 then CompareStrings(a.path, b.path) else result
  }

  /** The fields the comparator looks at. */
  datatype SortKey = SortKey(name: string, host: string, path: string)

  function SortKeyOf(c: SimpleCookie): SortKey
  {
    SortKey(c.name, c.host, c.path)
  }

  lemma CompareStringsProperties(x: string, y: string)
    ensures CompareStrings(x, y) == 0 <==> x == y
    ensures CompareStrings(x, y) == -CompareStrings(y, x)
  {
    StrLessTotal(x, y);
    StrLessIrreflexive(x);
  }

  lemma CompareStringsTransitive(x: string, y: string, z: string)
    requires CompareStrings(x, y) <= 0 && CompareStrings(y, z) <= 0
    ensures CompareStrings(x, z) <= 0
    ensures CompareStrings(x, z) == 0 ==> x == y == z
  {
    CompareStringsProperties(x, y);
    CompareStringsProperties(y, z);
    CompareStringsProperties(x, z);
    if x != y && y != z {
      StrLessTransitive(x, y, z);
      StrLessTotal(x, z);
    } else if x != z {
      StrLessTotal(x, z);
    }
  }

  /** The comparator is antisymmetric and returns 0 exactly on equal keys. */
  lemma CompareCookiesProperties(a: SimpleCookie, b: SimpleCookie)
    ensures CompareCookies(a, b) == 0 <==> SortKeyOf(a) == SortKeyOf(b)
    ensures CompareCookies(a, b) == -CompareCookies(b, a)
  {
    CompareStringsProperties(a.name, b.name);
    CompareStringsProperties(a.host, b.host);
    CompareStringsProperties(a.path, b.path);
  }

  /** The comparator is transitive, so it is a total preorder. */
  lemma CompareCookiesTransitive(a: SimpleCookie, b: SimpleCookie, c: SimpleCookie)
    requires CompareCookies(a, b) <= 0 && CompareCookies(b, c) <= 0
    ensures CompareCookies(a, c) <= 0
  {
    CompareStringsProperties(a.name, b.name);
    CompareStringsProperties(b.name, c.name);
    CompareStringsProperties(a.host, b.host);
    CompareStringsProperties(b.host, c.host);
    if CompareStrings(a.name, b.name) == 0 && CompareStrings(b.name, c.name) == 0 {
      if CompareStrings(a.host, b.host) == 0 && CompareStrings(b.host, c.host) == 0 {
        CompareStringsTransitive(a.path, b.path, c.path);
      } else {
        CompareStringsTransitive(a.host, b.host, c.host);
      }
    } else {
      CompareStringsTransitive(a.name, b.name, c.name);
      if CompareStrings(a.name, c.name) == 0 {
        assert false;
      }
    }
  }

  predicate Sorted(s: seq<SimpleCookie>)
  {
    forall i, j :: 0 <= i < j < |s| ==> CompareCookies(s[i], s[j]) <= 0
  }

  /** Insertion of `x` into a sorted prefix from the right: it passes exactly the elements that
      compare greater than it, so it stays behind every equal one. */
  function Insert(sorted: seq<SimpleCookie>, x: SimpleCookie): (r: seq<SimpleCookie>)
    ensures |r| == |sorted| + 1
  {
    if |sorted| == 0 then [x]
    else
      var last := sorted[|sorted| - 1];
      if CompareCookies(last, x) > 0 then Insert(sorted[..|sorted| - 1], x) + [last] else sorted + [x]
  }

  /** The order sortCookies produces: a stable sort by CompareCookies. */
  function SortSpec(s: seq<SimpleCookie>): (r: seq<SimpleCookie>)
    ensures |r| == |s|
  {
    if |s| == 0 then [] else Insert(SortSpec(s[..|s| - 1]), s[|s| - 1])
  }

  lemma {:induction false} InsertMultiset(sorted: seq<SimpleCookie>, x: SimpleCookie)
    ensures multiset(Insert(sorted, x)) == multiset(sorted) + multiset{x}
  {
    if |sorted| > 0 {
      var init, last := sorted[..|sorted| - 1], sorted[|sorted| - 1];
      assert sorted == init + [last];
      if CompareCookies(last, x) > 0 {
        InsertMultiset(init, x);
      }
    }
  }

  lemma MultisetSnoc<T>(s: seq<T>)
    requires |s| > 0
    ensures multiset(s) == multiset(s[..|s| - 1]) + multiset{s[|s| - 1]}
  {
    assert s == s[..|s| - 1] + [s[|s| - 1]];
  }

  lemma {:induction false} InsertSorted(sorted: seq<SimpleCookie>, x: SimpleCookie)
    requires Sorted(sorted)
    ensures Sorted(Insert(sorted, x))
  {
    if |sorted| > 0 {
      var init, last := sorted[..|sorted| - 1], sorted[|sorted| - 1];
      if CompareCookies(last, x) > 0 {
        assert Sorted(init);
        InsertSorted(init, x);
        InsertBelow(init, x, last);
        SortedSnoc(Insert(init, x), last);
      } else {
        forall k | 0 <= k < |sorted| ensures CompareCookies(sorted[k], x) <= 0 {
          if k < |sorted| - 1 {
            CompareCookiesTransitive(sorted[k], last, x);
          }
        }
        SortedSnoc(sorted, x);
      }
    }
  }

  /** Every row of an insertion into rows below `y`, of a row below `y`, is below `y`. */
  lemma InsertBelow(init: seq<SimpleCookie>, x: SimpleCookie, y: SimpleCookie)
    requires forall k :: 0 <= k < |init| ==> CompareCookies(init[k], y) <= 0
    requires CompareCookies(y, x) > 0
    ensures forall k :: 0 <= k < |Insert(init, x)| ==> CompareCookies(Insert(init, x)[k], y) <= 0
  {
    var r := Insert(init, x);
    InsertMultiset(init, x);
    CompareCookiesProperties(y, x);
    forall k | 0 <= k < |r| ensures CompareCookies(r[k], y) <= 0 {
      assert r[k] in multiset(init) + multiset{x};
      if r[k] != x {
        var m :| 0 <= m < |init| && init[m] == r[k];
      }
    }
  }

  lemma SortedSnoc(t: seq<SimpleCookie>, y: SimpleCookie)
    requires Sorted(t)
    requires forall k :: 0 <= k < |t| ==> CompareCookies(t[k], y) <= 0
    ensures Sorted(t + [y])
  {
    var u := t + [y];
    forall i, j | 0 <= i < j < |u| ensures CompareCookies(u[i], u[j]) <= 0 {
      assert u[i] == t[i];
      if j < |t| {
        assert u[j] == t[j];
      }
    }
  }

  /** The sort's result is ordered by the comparator ... */
  lemma {:induction false} SortSpecSorted(s: seq<SimpleCookie>)
    ensures Sorted(SortSpec(s))
  {
    if |s| > 0 {
      SortSpecSorted(s[..|s| - 1]);
      InsertSorted(SortSpec(s[..|s| - 1]), s[|s| - 1]);
    }
  }

  /** ... and a permutation of its input. */
  lemma {:induction false} SortSpecPermutation(s: seq<SimpleCookie>)
    ensures multiset(SortSpec(s)) == multiset(s)
  {
    if |s| > 0 {
      var init, last := s[..|s| - 1], s[|s| - 1];
      MultisetSnoc(s);
      SortSpecPermutation(init);
      InsertMultiset(SortSpec(init), last);
    }
  }

  /** The rows with one sort key, in their order. */
  function WithKey(s: seq<SimpleCookie>, k: SortKey): seq<SimpleCookie>
  {
    if |s| == 0 then []
    else WithKey(s[..|s| - 1], k) + if SortKeyOf(s[|s| - 1]) == k then [s[|s| - 1]] else []
  }

  lemma {:induction false} WithKeyAppend(a: seq<SimpleCookie>, b: seq<SimpleCookie>, k: SortKey)
    ensures WithKey(a + b, k) == WithKey(a, k) + WithKey(b, k)
  {
    if |b| == 0 {
      assert a + b == a;
    } else {
      var b' := b[..|b| - 1];
      assert (a + b)[..|a + b| - 1] == a + b';
      WithKeyAppend(a, b', k);
    }
  }

  lemma {:induction false} InsertWithKey(sorted: seq<SimpleCookie>, x: SimpleCookie, k: SortKey)
    ensures WithKey(Insert(sorted, x), k) == WithKey(sorted, k) + WithKey([x], k)
  {
    assert [x][..0] == [];
    if |sorted| > 0 {
      var init, last := sorted[..|sorted| - 1], sorted[|sorted| - 1];
      if CompareCookies(last, x) > 0 {
        InsertWithKey(init, x, k);
        WithKeyAppend(Insert(init, x), [last], k);
        CompareCookiesProperties(last, x);
        assert [last][..0] == [];
      } else {
        WithKeyAppend(sorted, [x], k);
      }
    }
  }

  /** ... and stable: the rows of each sort key keep their input order. */
  lemma {:induction false} SortSpecStable(s: seq<SimpleCookie>, k: SortKey)
    ensures WithKey(SortSpec(s), k) == WithKey(s, k)
  {
    if |s| > 0 {
      var init, last := s[..|s| - 1], s[|s| - 1];
      SortSpecStable(init, k);
      InsertWithKey(SortSpec(init), last, k);
      assert [last][..0] == [];
    }
  }

  /** Sorting a sorted sequence changes nothing; in particular sorting is idempotent. */
  lemma {:induction false} SortSpecOfSorted(s: seq<SimpleCookie>)
    requires Sorted(s)
    ensures SortSpec(s) == s
  {
    if |s| > 0 {
      var init := s[..|s| - 1];
      assert Sorted(init);
      SortSpecOfSorted(init);
      assert init + [s[|s| - 1]] == s;
    }
  }

  lemma SortSpecIdempotent(s: seq<SimpleCookie>)
    ensures SortSpec(SortSpec(s)) == SortSpec(s)
  {
    SortSpecSorted(s);
    SortSpecOfSorted(SortSpec(s));
  }

  lemma {:induction false} WithKeyMembers(s: seq<SimpleCookie>, k: SortKey)
    ensures forall x :: x in WithKey(s, k) ==> x in s && SortKeyOf(x) == k
  {
    if |s| > 0 {
      WithKeyMembers(s[..|s| - 1], k);
      assert forall x :: x in s[..|s| - 1] ==> x in s;
    }
  }

  /** Rows with the same sort key in the same order: the relation a stable sort keeps. */
  ghost predicate SameRowsPerKey(t1: seq<SimpleCookie>, t2: seq<SimpleCookie>)
  {
    forall k :: WithKey(t1, k) == WithKey(t2, k)
  }

  lemma WithKeyLast(t: seq<SimpleCookie>)
    requires |t| > 0
    ensures WithKey(t, SortKeyOf(t[|t| - 1])) == WithKey(t[..|t| - 1], SortKeyOf(t[|t| - 1])) + [t[|t| - 1]]
  {
  }

  lemma SameRowsEmpty(t1: seq<SimpleCookie>, t2: seq<SimpleCookie>)
    requires SameRowsPerKey(t1, t2) && |t1| == 0
    ensures |t2| == 0
  {
    if |t2| > 0 {
      WithKeyLast(t2);
    }
  }

  /** A row of a sorted sequence compares at most equal to its last row. */
  lemma SortedBelowLast(t: seq<SimpleCookie>, x: SimpleCookie)
    requires Sorted(t) && x in t
    ensures CompareCookies(x, t[|t| - 1]) <= 0
  {
    var p :| 0 <= p < |t| && t[p] == x;
    if p == |t| - 1 {
      CompareCookiesProperties(x, x);
    }
  }

  /** Both sorted sequences end with the same row. */
  lemma SameRowsLast(t1: seq<SimpleCookie>, t2: seq<SimpleCookie>)
    requires Sorted(t1) && Sorted(t2) && SameRowsPerKey(t1, t2) && |t1| > 0 && |t2| > 0
    ensures t1[|t1| - 1] == t2[|t2| - 1]
  {
    var m1, m2 := t1[|t1| - 1], t2[|t2| - 1];
    WithKeyMembers(t2, SortKeyOf(m1));
    WithKeyLast(t1);
    assert m1 in WithKey(t1, SortKeyOf(m1));
    SortedBelowLast(t2, m1);
    WithKeyMembers(t1, SortKeyOf(m2));
    WithKeyLast(t2);
    assert m2 in WithKey(t2, SortKeyOf(m2));
    SortedBelowLast(t1, m2);
    CompareCookiesProperties(m1, m2);
    var k := SortKeyOf(m1);
    var w1, w2 := WithKey(t1[..|t1| - 1], k), WithKey(t2[..|t2| - 1], k);
    assert WithKey(t1, k) == w1 + [m1];
    assert WithKey(t2, k) == w2 + [m2];
    assert (w1 + [m1])[|w1|] == m1;
  }

  lemma SameRowsInit(t1: seq<SimpleCookie>, t2: seq<SimpleCookie>)
    requires SameRowsPerKey(t1, t2) && |t1| > 0 && |t2| > 0 && t1[|t1| - 1] == t2[|t2| - 1]
    ensures SameRowsPerKey(t1[..|t1| - 1], t2[..|t2| - 1])
  {
    var init1, init2, m := t1[..|t1| - 1], t2[..|t2| - 1], t1[|t1| - 1];
    forall k ensures WithKey(init1, k) == WithKey(init2, k) {
      var a, b := WithKey(init1, k), WithKey(init2, k);
      assert WithKey(t1, k) == WithKey(t2, k);
      if k == SortKeyOf(m) {
        assert WithKey(t1, k) == a + [m];
        assert WithKey(t2, k) == b + [m];
        assert a == (a + [m])[..|a|];
        assert b == (b + [m])[..|b|];
      } else {
        assert WithKey(t1, k) == a;
        assert WithKey(t2, k) == b;
      }
    }
  }

  /** Two sorted sequences with the same rows of every sort key, in the same order, are equal. */
  lemma {:induction false} StableSortUnique(t1: seq<SimpleCookie>, t2: seq<SimpleCookie>)
    requires Sorted(t1) && Sorted(t2) && SameRowsPerKey(t1, t2)
    ensures t1 == t2
    decreases |t1|
  {
    if |t1| == 0 {
      SameRowsEmpty(t1, t2);
    } else if |t2| == 0 {
      SameRowsEmpty(t2, t1);
    } else {
      SameRowsLast(t1, t2);
      SameRowsInit(t1, t2);
      var init1, init2 := t1[..|t1| - 1], t2[..|t2| - 1];
      assert Sorted(init1) && Sorted(init2);
      StableSortUnique(init1, init2);
      assert t1 == init1 + [t1[|t1| - 1]] && t2 == init2 + [t2[|t2| - 1]];
    }
  }

  /** Any stable sort by the comparator, such as the engine's own `Array.prototype.sort`, gives
      exactly SortSpec. */
  lemma StableSortIsSortSpec(s: seq<SimpleCookie>, t: seq<SimpleCookie>)
    requires Sorted(t) && forall k :: WithKey(t, k) == WithKey(s, k)
    ensures t == SortSpec(s)
  {
    SortSpecSorted(s);
    forall k ensures WithKey(t, k) == WithKey(SortSpec(s), k) {
      SortSpecStable(s, k);
    }
    assert SameRowsPerKey(t, SortSpec(s));
    StableSortUnique(t, SortSpec(s));
  }

  /** sortCookies: sorts the array in place and returns it. */
  method SortCookies(cookies: array<SimpleCookie>) returns (sorted: array<SimpleCookie>)
    modifies cookies
    ensures sorted == cookies
    ensures cookies[..] == SortSpec(old(cookies[..]))
  {
    ghost var input := cookies[..];
    var i := 0;
    while i < cookies.Length
      invariant 0 <= i <= cookies.Length
      invariant cookies[..] == SortSpec(input[..i]) + input[i..]
    {
      ghost var before := cookies[..];
      InsertAt(cookies, i);
      SortStep(input, i, before, cookies[..]);
      i := i + 1;
    }
    assert input[..i] == input;
    return cookies;
  }

  /** One pass of the insertion sort: moves `a[i]` left past the greater rows before it. */
  method InsertAt(a: array<SimpleCookie>, i: int)
    requires 0 <= i < a.Length
    modifies a
    ensures var b := old(a[..]); a[..] == Insert(b[..i], b[i]) + b[i + 1..]
  {
    ghost var done, rest := a[..i], a[i + 1..];
    var x := a[i];
    SplitAtLength(done, a[i..]);
    SpliceAt(done, a[i..]);
    HoleStart(done, x, rest);
    var j := i;
    while j > 0 && CompareCookies(a[j - 1], x) > 0
      invariant 0 <= j <= i
      invariant a[..] == done[..j] + [a[j]] + done[j..] + rest
      invariant Insert(done, x) == Insert(done[..j], x) + done[j..]
    {
      HoleShift(done, j, a[j], rest, x);
      a[j] := a[j - 1];
      j := j - 1;
    }
    if j > 0 {
      HoleLeft(done, j, a[j], rest);
    }
    InsertStop(done, j, x);
    HoleFill(done[..j], a[j], done[j..], rest, x, Insert(done, x));
    a[j] := x;
  }

  /** The pass at `i` turns the sort of the first `i` rows into the sort of the first `i + 1`. */
  lemma SortStep(input: seq<SimpleCookie>, i: nat, before: seq<SimpleCookie>, after: seq<SimpleCookie>)
    requires i < |input|
    requires before == SortSpec(input[..i]) + input[i..]
    requires after == Insert(before[..i], before[i]) + before[i + 1..]
    ensures after == SortSpec(input[..i + 1]) + input[i + 1..]
  {
    SortSpecPrefixStep(input, i);
    SplitAtLength(SortSpec(input[..i]), input[i..]);
  }

  lemma SplitAtLength<T>(a: seq<T>, b: seq<T>)
    ensures (a + b)[..|a|] == a && (a + b)[|a|..] == b
  {
  }

  lemma SortSpecPrefixStep(input: seq<SimpleCookie>, i: nat)
    requires i < |input|
    ensures SortSpec(input[..i + 1]) == Insert(SortSpec(input[..i]), input[i])
    ensures input[i..] == [input[i]] + input[i + 1..]
  {
    assert input[..i + 1][..i] == input[..i];
  }

  lemma HoleStart(done: seq<SimpleCookie>, x: SimpleCookie, rest: seq<SimpleCookie>)
    ensures done + [x] + rest == done[..|done|] + [x] + done[|done|..] + rest
    ensures Insert(done, x) == Insert(done[..|done|], x) + done[|done|..]
  {
    var n := |done|;
    assert done[..n] == done;
    assert done[n..] == [];
    assert Insert(done, x) + [] == Insert(done, x);
    assert done + [x] + [] + rest == done + [x] + rest;
  }

  /** Moving the hole one place left while the element before it is greater than `x`. */
  lemma HoleShift(done: seq<SimpleCookie>, j: nat, h: SimpleCookie, rest: seq<SimpleCookie>, x: SimpleCookie)
    requires 0 < j <= |done|
    requires CompareCookies(done[j - 1], x) > 0
    requires Insert(done, x) == Insert(done[..j], x) + done[j..]
    ensures var c := done[..j] + [h] + done[j..] + rest;
      c[j - 1] == done[j - 1]
      && c[j := done[j - 1]] == done[..j - 1] + [done[j - 1]] + done[j - 1..] + rest
    ensures Insert(done, x) == Insert(done[..j - 1], x) + done[j - 1..]
  {
    HoleMove(done, j, h, rest);
    InsertPast(done, j, x);
  }

  lemma HoleMove(done: seq<SimpleCookie>, j: nat, h: SimpleCookie, rest: seq<SimpleCookie>)
    requires 0 < j <= |done|
    ensures var c := done[..j] + [h] + done[j..] + rest;
      c[j - 1] == done[j - 1]
      && c[j := done[j - 1]] == done[..j - 1] + [done[j - 1]] + done[j - 1..] + rest
  {
    var c := done[..j] + [h] + done[j..] + rest;
    assert done[..j] == done[..j - 1] + [done[j - 1]];
    assert done[j - 1..] == [done[j - 1]] + done[j..];
    assert c[j := done[j - 1]] == done[..j - 1] + [done[j - 1]] + [done[j - 1]] + done[j..] + rest;
  }

  lemma InsertPast(done: seq<SimpleCookie>, j: nat, x: SimpleCookie)
    requires 0 < j <= |done|
    requires CompareCookies(done[j - 1], x) > 0
    requires Insert(done, x) == Insert(done[..j], x) + done[j..]
    ensures Insert(done, x) == Insert(done[..j - 1], x) + done[j - 1..]
  {
    assert done[..j][..j - 1] == done[..j - 1];
    assert done[..j][j - 1] == done[j - 1];
    assert Insert(done[..j], x) == Insert(done[..j - 1], x) + [done[j - 1]];
    assert done[j - 1..] == [done[j - 1]] + done[j..];
  }

  lemma HoleLeft(done: seq<SimpleCookie>, j: nat, h: SimpleCookie, rest: seq<SimpleCookie>)
    requires 0 < j <= |done|
    ensures (done[..j] + [h] + done[j..] + rest)[j - 1] == done[j - 1]
  {
  }

  /** Where the inner loop stops, `x` goes right after the elements not greater than it. */
  lemma InsertStop(done: seq<SimpleCookie>, j: nat, x: SimpleCookie)
    requires j <= |done|
    requires j == 0 || CompareCookies(done[j - 1], x) <= 0
    ensures Insert(done[..j], x) == done[..j] + [x]
    ensures Insert(done, x) == Insert(done[..j], x) + done[j..] ==> Insert(done, x) == done[..j] + [x] + done[j..]
  {
    if j > 0 {
      assert done[..j][j - 1] == done[j - 1];
    }
  }

  lemma HoleFill<T>(a: seq<T>, h: T, b: seq<T>, rest: seq<T>, x: T, filled: seq<T>)
    requires filled == a + [x] + b
    ensures (a + [h] + b + rest)[|a| := x] == filled + rest
  {
    SpliceAt(a, [h] + b + rest);
    assert a + [h] + b + rest == a + ([h] + b + rest);
    assert ([h] + b + rest)[1..] == b + rest;
  }

}
