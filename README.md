# Cookie scanner: a verified model of its cookie semantics

The cookie scanner watches a browser session. It records every cookie a page sets, through a
`Set-Cookie` response header or through `document.cookie`. It turns each one into a structured
record following RFC 6265. It then merges the records of one logical cookie, classifies them
(session or persistent, first or third party, life span in days), sorts them, and writes a CSV
or HTML report.

This project models that cookie-semantics layer in Dafny and proves properties of the model:

- `http.dfy` (module `Http`) covers `lib/http.js`:
  - the status-code classifier;
  - the case-insensitive header lookup;
  - the public-suffix and first-party tests over an abstract public-suffix list;
  - the label-wise domain match of section 5.1.3 of RFC 6265.
- `cookie.dfy` (module `CookieParsing`) covers `lib/cookie.js`:
  - `parseCookie`'s resolution of already-split attribute records. This means Max-Age and
    Expires with their precedence and clamping (sections 5.2.1, 5.2.2 and 5.3 of RFC 6265),
    the Domain attribute and the public-suffix rule, the HttpOnly provenance rule, SameSite,
    and Path;
  - `allowedCookieOrigin` and `trunc`;
  - the call-frame flattening loop of `#getStackFromInitiator`.
- `scan.dfy` (module `Scan`) covers `scan.js`:
  - the ordered name-canonicalisation rules;
  - the report record built by `simpleCookies`;
  - the in-place `mergeCookies` pass over an array;
  - the in-place `sortCookies` over an array.
- `convert.dfy` (module `Convert`) covers `convert.js`:
  - `escapeTag`;
  - the CSV and HTML line builders;
  - `writeCSV` and `writeHTML` as loops that append to a `Buffer` class;
  - the `enumType` validator.
- `strings.dfy` (module `Strings`) holds the JavaScript string operations the core relies on:
  `toLowerCase`, `trim`, `split`, `join` and decimal conversion. `wrappers.dfy` holds `Option`
  and `Result`.

The JavaScript libraries the code calls are parameters of the model:

- `psl.parse`/`psl.get` are the `Http.Psl` record of two functions;
- `Date.parse` is a function `string -> Option<int>`;
- `new URL(initiator.url)` is the given host and path of `CookieParsing.ParseContext`;
- the DevTools `CookieParser.parseSetCookie` is the given sequence of `ParsedCookie` records.

`mergeCookies` writes its merged values onto the incoming duplicate rather than onto the stored
record. The model does what the code does. It states separately the merge that the code's comments
describe (scan.js:57, 61 and 65: merge the other values, merge the paths by their common base,
keep the first cookie set); see Findings.

## Model

| member | source | states |
|---|---|---|
| Http.StatusCategory | lib/http.js:4 | the category is the code divided by 100 and rounded half up: `100·c − 50 ≤ code < 100·c + 50` |
| Http.IsSuccessfulResponse | lib/http.js:3-14 | a code is successful exactly when it lies in 150..349 (category 2 or 3) |
| Http.SuccessfulResponseExamples | lib/http.js:3-14 | 200 and 302 are successful; 100 and 404 are not |
| Http.FirstHeaderIndex | lib/http.js:25 | the index found holds the wanted name ignoring case and no earlier entry does; None means no entry has it |
| Http.ReadHeaderValue | lib/http.js:22-27 | null (None) exactly when no header name equals the name ignoring case; otherwise the value of the first such header in entry order |
| Http.PublicSuffixFirstParty | lib/http.js:29-50 | a public suffix has no eTLD+1, so it is first party exactly to the names that have none either, for a suffix list that gives an eTLD+1 exactly to names with a second-level label |
| Http.LastIndexOf | lib/http.js:53 | the position found holds the character and none follows it; None exactly when the character is absent |
| Http.LastLabel | lib/http.js:53 | the last dot-label is a dot-free suffix of the name, preceded by a dot when it is shorter than the name |
| Http.LastLabelOfSplit | lib/http.js:53 | the last label equals the last element of `split(".")` |
| Http.LastLabelWithoutDot | lib/http.js:53 | a name without a dot is its own last label |
| Http.LastLabelAfterDot | lib/http.js:53 | the last label of `x + "." + y` is `y` when `y` has no dot |
| Http.FirstPartyReflexive | lib/http.js:44-54 | every domain is first party to itself, for a public-suffix list whose `get` reports the eTLD+1 of `parse` |
| Http.FirstPartyLocalhostExample | lib/http.test.js:39 | "localhost" is first party to "www.localhost" when "localhost" is not a listed suffix |
| Http.FirstPartyUnlistedSubdomain | lib/http.js:52-53 | an unlisted dot-free domain is first party to every subdomain of it |
| Http.NotIpLike | lib/http.js:87 | a host that does not start with "[" and does not end in a digit is not taken for an IP literal |
| Http.LabelsAgreeLength | lib/http.js:95 | the labels can agree only if the value has no more labels than the domain |
| Http.LabelsAgreeReversed | lib/http.js:93-95 | the reversed label lists agree position by position exactly when the value's labels are a trailing run of the domain's labels |
| Http.LabelSuffixIffDotSuffix | lib/http.js:93-95 | the value's labels are a trailing run of the domain's exactly when the two names are equal or the domain ends with "." followed by the value |
| Http.DotSuffixLabels | lib/http.js:93-95 | a domain ending in "." + value has the value's labels as a trailing run |
| Http.LabelSuffixDots | lib/http.js:93-95 | a trailing run of labels means equal names or a domain ending in "." + value |
| Http.MatchDomainMeaning | lib/http.js:72-101 | a match happens exactly when the lower-cased value equals the domain, or the value does not end in ".", the domain is not IP-like and the domain ends with "." + value |
| Http.MatchDomainIdentical | lib/http.js:74-80 | a value matches its own lower-cased form |
| Http.MatchDomainOfParent | lib/http.js:93-100 | a lower-case name that does not end in "." or a digit matches every host that is one more label put in front of it |
| Http.MatchDomainInsideLabel | lib/http.js:95 | a shorter lower-case value does not match a host whose character just before the value's length from the end is not a dot |
| Http.MatchDomainWholeLabels | lib/http.test.js:11 | "w.example.com" does not match "www.example.com" |
| Http.MatchDomainParentDomain | lib/http.test.js:6 | "co.uk" matches "bbc.co.uk" |
| Http.MatchDomainSubdomain | lib/cookie.test.js:9 | "example.com" matches "www.example.com" |
| Http.MatchDomainTrailingDot | lib/http.test.js:7 | "example.com." does not match "example.com" |
| Http.MatchDomainIpLiterals | lib/http.test.js:15-17 | "localhost" does not match "127.0.0.1" and "example.com" does not match "[::1]" |
| Http.MatchDomainEmptyValue | lib/http.js:72-101 | "" matches exactly the empty host and the hosts that end in "." and are not IP-like |
| Strings.LowerAppend | lib/http.js:74 | lower-casing works character by character: it distributes over concatenation |
| Strings.LowerIdempotent | lib/http.js:24 | lower-casing twice is lower-casing once |
| Strings.TrimEmptyIffBlank | lib/cookie.js:75 | `trim()` gives "" exactly when every character is JavaScript white space or a line terminator |
| Strings.Split | lib/http.js:93 | splitting always gives at least one part, and no part holds the separator |
| Strings.JoinSplit | scan.js:62-63 | joining the parts of a split with the separator gives back the string |
| Strings.SplitJoin | scan.js:89 | splitting a join of separator-free parts gives back the parts |
| Strings.DecimalValueOfNatToString | lib/cookie.js:88 | reading back the decimal digits of a number gives the number |
| CookieParsing.MaxAgeRoundTrip | lib/cookie.js:88 | a Max-Age written as the decimal integer n gives 1000·n milliseconds |
| CookieParsing.MaxAgeRejectsNonDigits | lib/cookie.js:88-89 | a Max-Age with a character that is neither a digit nor a leading "-" is ignored |
| CookieParsing.FirstIndexOf | lib/cookie.js:99 | the position found holds the character and none comes before it; None exactly when it is absent |
| CookieParsing.ExpiresShapeMeaning | lib/cookie.js:99 | the Expires guard regex holds exactly when the string is non-empty, does not start with "-", and contains a "-" or a white-space character after index 0 |
| CookieParsing.ExpiresMs | lib/cookie.js:99 | a present value that passes the guard gets the date parser's answer, and every other value no Expires time |
| CookieParsing.Clamp | lib/cookie.js:107 | the result lies in [MIN_DATETIME, MAX_DATETIME], equals the input inside the range and saturates outside it |
| CookieParsing.ResolveExpiry | lib/cookie.js:105-107 | a valid Max-Age takes precedence: ≤ 0 gives MIN_DATETIME and otherwise creation + Max-Age, clamped; otherwise a valid Expires, clamped; otherwise MAX_DATETIME |
| CookieParsing.ResolveDomain | lib/cookie.js:114-137 | a host-only result has the initiator's host as its domain; any other kept result has the normalised attribute as its domain, and that domain matches the host; a kept cookie is host-only exactly when the normalised attribute is empty or a public suffix |
| CookieParsing.FindFlag | lib/cookie.js:155 | a flag found is in the list and equals the raw value ignoring case; none found means no flag equals it (or it is absent or empty) |
| CookieParsing.ResolveSameSite | lib/cookie.js:154-155 | the SameSite value is always one of Strict, Lax, None |
| CookieParsing.SameSiteMeaning | lib/cookie.js:154-155 | Strict exactly for "strict" in any case, Lax exactly for "lax", None for everything else including an absent attribute |
| CookieParsing.Resolve | lib/cookie.js:85-172 | a kept cookie is well formed (its expiry is in range, the domain invariant holds, its SameSite is a flag, HttpOnly only from the network, creation time and initiator from the context), carries the parsed name, value, Secure and HttpOnly, is persistent exactly when Max-Age or Expires was valid, takes the Path attribute when it is non-empty and the initiator's path otherwise, and has the SameSite value its attribute resolves to |
| CookieParsing.DroppedIff | lib/cookie.js:118-150 | a cookie is dropped exactly when its domain is a public suffix other than the host, or a non-empty non-suffix domain that does not match the host, or it is HttpOnly and not set from the network |
| CookieParsing.PublicSuffixOfHostIsHostOnly | lib/cookie.js:118-137 | a public-suffix domain equal to the host is kept as a host-only cookie of that host |
| CookieParsing.ExpiryPrecedence | lib/cookie.js:105-108 | the emitted expiry follows the Max-Age-first precedence, and a cookie with neither attribute valid expires at MAX_DATETIME and is not persistent |
| CookieParsing.AttributesDoNotDrop | lib/cookie.js:89-108 | changing Max-Age or Expires, valid or not, never changes whether the resolved record is kept, nor any field other than expiry and persistence (this holds of parseCookie's output only when no warning fails; see Findings) |
| CookieParsing.Emitted | lib/cookie.js:85-175 | the output has no more cookies than were parsed |
| CookieParsing.EmittedAppend | lib/cookie.js:85-175 | the output for two runs of parsed cookies is the two outputs in order: dropping one cookie never affects another (this holds of parseCookie's output only when no warning fails; see Findings) |
| CookieParsing.KeptIndicesLength | lib/cookie.js:85-175 | there is one kept index per emitted cookie |
| CookieParsing.KeptIndicesBounded | lib/cookie.js:85-175 | every kept index is a position of the parsed input |
| CookieParsing.KeptIndicesIncreasing | lib/cookie.js:85-175 | the kept indices strictly increase, so the output is a subsequence in input order |
| CookieParsing.KeptIndicesSound | lib/cookie.js:85-175 | each emitted cookie is the resolution of the parsed record at its kept index |
| CookieParsing.KeptIndicesComplete | lib/cookie.js:85-175 | every parsed record that resolves is among the kept indices |
| CookieParsing.EmittedWellFormed | lib/cookie.js:159-172 | every emitted cookie is well formed for its context |
| CookieParsing.MaxAgeExample | lib/cookie.test.js:8 | `a=1; Max-Age=n` on example.com/page gives one persistent host-only cookie expiring at creation + 1000·n, with path "/page" |
| CookieParsing.AbsentDomainResolves | lib/cookie.js:128-137 | without a Domain attribute the cookie is host-only for the initiator's host |
| CookieParsing.LeadingDotDropped | lib/cookie.js:110-114 | one leading dot of the Domain attribute is removed |
| CookieParsing.DomainAttributeExample | lib/cookie.test.js:9 | `Domain=.example.com` from www.example.com gives a cookie for example.com that is not host-only |
| CookieParsing.ParentDomainResolves | lib/cookie.js:114-137 | the Domain ".example.com" from "www.example.com" resolves to "example.com", not host-only |
| CookieParsing.PublicSuffixDomainExamples | lib/cookie.test.js:11-12 | `Domain=com` is kept host-only when the host is "com" and dropped when the host is "example.com" |
| CookieParsing.ValidExpiresExample | lib/cookie.test.js:15 | an Expires date that the date parser reads as t gives a persistent host-only cookie expiring at t |
| CookieParsing.InvalidExpiresExample | lib/cookie.test.js:14 | an unparseable Expires is ignored: the cookie is kept as a session cookie expiring at MAX_DATETIME |
| CookieParsing.ParseCookie | lib/cookie.js:63-176 | a blank header gives exactly one empty host-only session cookie for the initiator's host and path, expiring at MAX_DATETIME; any other header gives the parsed records' resolutions, in order, dropped ones left out. This is the header parsed with `trunc` corrected; as written, a warning on a URL over 60 characters throws instead (see Findings) |
| CookieParsing.AllowedCookieOriginMeaning | lib/cookie.js:207-211 | an origin is allowed exactly when its URL starts with "http:" or "https:" |
| CookieParsing.TruncLimit | lib/cookie.js:7-8 | the limit used is positive, and is the given limit whenever that is positive (60 otherwise) |
| CookieParsing.TruncIntended | lib/cookie.js:9-11 | the intended truncation: a short value is unchanged; a long one keeps the limit's length, with the first half, an ellipsis, then the tail |
| CookieParsing.LongUrlAbortsHeader | lib/cookie.js:89-151 | for "a=1; Max-Age=x, b=2" from a URL over 60 characters, the code's warning about "x" fails, which aborts the whole header, while the intended output holds two cookies, the second being b |
| CookieParsing.TruncLongValue | lib/cookie.js:11 | for every value longer than the limit the code gives no result while the intended truncation gives a string of the limit's length |
| CookieParsing.GetStackFromInitiator | lib/cookie.js:333-349 | with call frames, one "url:line:column" entry per frame, walking each trace and then its parent; with none, the single "url:lineNumber:0" entry when the initiator has a URL, else nothing |
| Scan.TailLength | scan.js:10-17 | the length of the longest run of tail characters (digits, or any characters) at the start of the string |
| Scan.ApplyRule | scan.js:21 | a name matching no rule prefix is unchanged; a match is replaced by the rule's replacement with the rest kept after the greedy run of tail characters |
| Scan.CanonicalRulesWellFormed | scan.js:9-18 | every one of the eight rules has its prefix followed by "x" as replacement, and no two prefixes share a first character |
| Scan.Selected | scan.js:9-21 | the rule selected is in the list and starts with the name's first character; when none is selected, no rule prefix does |
| Scan.ApplyRuleKeepsHead | scan.js:21 | a rewrite keeps the name's first character and never empties a name |
| Scan.ApplyRuleOtherHead | scan.js:21 | a rule whose prefix starts with another character leaves the name unchanged |
| Scan.ApplyRulesSelected | scan.js:20-22 | applying the whole ordered list equals applying the one rule that shares the name's first character, or nothing |
| Scan.ApplyRuleIdempotent | scan.js:10-17 | a rule whose replacement is its prefix plus "x" changes nothing the second time |
| Scan.ApplyRuleOnReplacement | scan.js:10-17 | such a rule maps its own replacement, followed by a non-tail character or nothing, to itself |
| Scan.CanonicalCookieNameIdempotent | scan.js:20-22 | canonicalising a canonical name changes nothing |
| Scan.ApplyRulesIdempotent | scan.js:20-22 | for every well-formed rule list, applying the list twice equals applying it once |
| Scan.CanonicalCookieNameUnmatched | scan.js:20-22 | a name that matches no rule is unchanged |
| Scan.RewritesWhole | scan.js:9-22 | a name made of one rule's prefix and then only tail characters becomes exactly that rule's replacement |
| Scan.RuleRewritesWhole | scan.js:20-22 | the same for any well-formed rule list |
| Scan.CanonicalNameDigitsExample | scan.js:10 | "_cs_1567795486325" becomes "_cs_x" |
| Scan.CanonicalNameAnyCharsExample | scan.js:13 | "KRTBCOOKIE_244" becomes "KRTBCOOKIE_x" |
| Scan.CanonicalNameSyncExample | scan.js:15 | "sync_16248314" becomes "sync_x" |
| Scan.Max | scan.js:58 | the result is at least both arguments and is one of them |
| Scan.CeilDiv | scan.js:88 | the quotient rounded up: `b·(q − 1) < a ≤ b·q` |
| Scan.LifeSpan | scan.js:88 | never negative; 0 for a non-persistent cookie or one already expired; otherwise the number of whole days, rounded up, that cover the remaining life |
| Scan.Truthy | scan.js:89 | the entries kept are exactly the non-empty ones, each from the input |
| Scan.InitiatorText | scan.js:89 | a null initiator stays null and any other gives a text |
| Scan.InitiatorTextEmpty | scan.js:89 | the text is empty exactly when the URL (for a network initiator) and every stack frame are empty |
| Scan.InitiatorTextRoundTrip | scan.js:89 | splitting the text on "\n" gives back the non-empty entries, in order, when they hold no line break |
| Scan.Simplify | scan.js:76-90 | the record has the canonical name, the cookie's domain and path; it is a session exactly when not persistent or already expired; third party exactly when not first party; a non-session record lives at least one day and a non-persistent one 0 days; the life span is the whole days, rounded up, left between creation and expiry (0 when already expired), and the initiator is the joined text of its non-empty entries |
| Scan.SimpleCookies | scan.js:75-92 | one record per cookie, the i-th being the report row of the i-th cookie |
| Scan.SimpleCookiesAppend | scan.js:75-92 | the records of two runs of cookies are the two runs of records in order, so the map keeps input order |
| Scan.KeySetMeaning | scan.js:47-48 | a key is in the key set exactly when some record has that (name, host) |
| Scan.FirstPosition | scan.js:48-69 | the position found has the key and no earlier position does |
| Scan.Dedup | scan.js:32-73 | the merge never gives more records than it was given |
| Scan.MismatchIndex | scan.js:63 | `findIndex`: the first position where the stored path's pieces differ from the new one's, with equal pieces before it; None (−1) when the stored pieces begin the new pieces |
| Scan.MergedPath | scan.js:62-63 | the duplicate's path becomes "/" and its pieces up to the first difference from the stored path, or just "/" when there is no difference |
| Scan.Absorbed | scan.js:58-63 | the pass leaves as many records in the array as it found |
| Scan.MergeCookies | scan.js:32-73 | returns the first record of every key in first-seen order, and leaves each later duplicate in the array merged with the first record of its key |
| Scan.DedupKeySet | scan.js:47 | the output has exactly the keys of the input, and path is not part of the key |
| Scan.DedupUniqueKeys | scan.js:69-72 | no two output records share a (name, host) key |
| Scan.DedupFirstSeen | scan.js:48-69 | each output record is the first input record with its key, unmodified |
| Scan.DedupOrder | scan.js:69-72 | the output lists the keys in the order of their first occurrence |
| Scan.DedupOfUnique | scan.js:32-73 | merging records whose keys are all distinct returns them unchanged |
| Scan.DedupIdempotent | scan.js:32-73 | merging a merged sequence changes nothing |
| Scan.AbsorbedMeaning | scan.js:58-63 | position by position, the array afterwards holds each first record as it was and each later duplicate with the maximum life span, the AND of the session flags and the merged path |
| Scan.TwoSegments | scan.js:62 | splitting "/x/y" after its first character on "/" keeps the separator: the pieces are x, "/", y |
| Scan.MergedPathCommonPrefixExample | scan.js:62-63 | "/a/b" merged with a stored "/a/c" gives "/a/" |
| Scan.MergedPathSamePathExample | scan.js:63 | "/a" merged with a stored "/a" gives "/" |
| Scan.MergedPathPrefix | scan.js:63 | whenever the stored path's pieces begin the new path's, the result is "/" |
| Scan.CommonPrefix | scan.js:61-63 | the shared beginning of two piece lists begins both, and ends where one of them ends or where they differ |
| Scan.CommonPath | scan.js:61-63 | the common base of two paths: "/" and the longest run of pieces the two paths share from the start |
| Scan.CommonPathSame | scan.js:61 | the common base of a path and itself is that path |
| Scan.RowsOfMeaning | scan.js:47 | the rows of a key are exactly the input records with that key |
| Scan.CommonPieces | scan.js:61-63 | the common base of a group of paths: every row's pieces begin with it, and one row has no further piece or two rows differ at the next one |
| Scan.MergeGroup | scan.js:57-63 | merging the rows of one key keeps the first row's key, initiator and party, is a session exactly when all rows are, has the longest life span among them, and has as path "/" and the common base of all the rows' paths (a single row keeps its path) |
| Scan.MergedRowMeaning | scan.js:57-65 | the record the intended merge keeps for a key has that key and the longest life span among the key's records, and is a session exactly when all of them are |
| Scan.MergedRowPath | scan.js:61-63 | the record the intended merge keeps for a key with several records has as path "/" and the pieces that every one of them begins with, and no longer run of pieces has that property; a key with one record keeps its path |
| Scan.MergedPairPath | scan.js:61-63 | for two records of one key, the kept path is the common base of their two paths |
| Scan.MergeIntended | scan.js:32-73 | the intended merge gives one record per key of the actual output, key for key in first-seen order |
| Scan.MergeKeepsFirstValues | scan.js:58-66 | for two records of one key with growing life spans, the code returns just the first while the intended merge keeps the longer life span |
| Scan.StrLessIrreflexive | scan.js:96 | no string is less than itself |
| Scan.StrLessTotal | scan.js:96 | of two distinct strings one is less than the other, and never both |
| Scan.StrLessTransitive | scan.js:96 | the string order is transitive |
| Scan.CompareCookies | scan.js:95-104 | the comparator returns −1, 0 or 1 |
| Scan.CompareStringsProperties | scan.js:96 | a string comparison is 0 exactly for equal strings and is antisymmetric |
| Scan.CompareStringsTransitive | scan.js:96 | the string comparison is transitive, and equal at both ends only for three equal strings |
| Scan.CompareCookiesProperties | scan.js:95-104 | the comparator is 0 exactly for equal (name, host, path) and is antisymmetric |
| Scan.CompareCookiesTransitive | scan.js:95-104 | the comparator is transitive |
| Scan.SortSpecSorted | scan.js:94-105 | the reference sort is ordered by (name, host, path) |
| Scan.SortSpecPermutation | scan.js:94-105 | the reference sort is a permutation of its input |
| Scan.SortSpecStable | scan.js:94-105 | the reference sort keeps the input order of records with equal (name, host, path) |
| Scan.SortSpecOfSorted | scan.js:94-105 | an ordered sequence is its own sort |
| Scan.SortSpecIdempotent | scan.js:94-105 | sorting twice is sorting once |
| Scan.StableSortUnique | scan.js:94-105 | two ordered sequences with the same records per key, in the same order, are equal |
| Scan.StableSortIsSortSpec | scan.js:94-105 | any ordered, stable rearrangement of the input is the reference sort, so every stable sort gives the same array |
| Scan.SortCookies | scan.js:94-105 | sorts the array in place into the reference sort of its old contents and returns that same array |
| Scan.InsertAt | scan.js:95-104 | moves one element into place among the ordered elements before it and leaves the rest of the array alone |
| Convert.EscapeTag | convert.js:4-7 | the escaped text has no "<", and text without "&" or "<" is unchanged |
| Convert.UnescapeEscapeTag | convert.js:6 | decoding "&amp;" and "&lt;" gives back the original text, so escaping loses nothing |
| Convert.EscapeTagAppend | convert.js:6 | escaping works character by character: it distributes over concatenation |
| Convert.ReadQuotedDoubled | convert.js:12 | reading a field whose quotes were doubled, up to its closing quote, gives back the field and the rest |
| Convert.QuoteFieldRoundTrip | convert.js:12 | a quoted field starts with a quote and reads back as the original field |
| Convert.ParseFieldsJoin | convert.js:12 | the quoted fields joined with ", " and ended with "\n" read back as the fields |
| Convert.CsvLineRoundTrip | convert.js:10-13 | every CSV line reads back as exactly its fields |
| Convert.RenderEmptyIffFalsy | convert.js:18 | a value renders as "" exactly when it is falsy: undefined, null, false, 0 or "" |
| Convert.ReportRowCells | convert.js:18 | for a report record and the default fields, the cells are name, host, path, "true" or "" for the two flags, the life span or "" for 0, and the initiator text or "" |
| Convert.Buffer.constructor | convert.js:63-65 | a fresh output stream holds nothing |
| Convert.Buffer.Write | convert.js:15 | a write appends its chunk and changes nothing else |
| Convert.WriteCsv | convert.js:9-20 | writes the header line and then one line per entry, in data order, one more write than there are entries |
| Convert.CsvRowsRoundTrip | convert.js:17-19 | each entry's line reads back as that entry's cells |
| Convert.BreakLines | convert.js:27 | no "\n" is left once line breaks become tags |
| Convert.UnbreakBreakLines | convert.js:27 | for a text without "<", turning the tags back into "\n" gives the text with every "\r\n" as "\n" and a lone "\r" kept |
| Convert.BreakLinesOnlyBreakTags | convert.js:27 | in a cell's text every "<" begins a line-break tag |
| Convert.HtmlCellRoundTrip | convert.js:27 | a cell's text decodes to its field with "\r\n" normalised to "\n" |
| Convert.ReadCellsConcat | convert.js:27 | a run of cells followed by "</tr>\n" reads back as their texts |
| Convert.HtmlLineRoundTrip | convert.js:23-28 | a row reads back, with "th" cells for the heading and "td" otherwise, as its cells' texts, and each text decodes to its field |
| Convert.WriteHtml | convert.js:22-38 | writes the opening, the heading row, one row per entry in order, then the closing text with its missing ">" |
| Convert.EnumTypeFormats | convert.js:40-46 | a format is accepted exactly when it is json, html or csv and is then returned; otherwise the error message lists the supported values |

## Left out

- `CookieObserver` (lib/cookie.js:213-421) and `cookieProxy` (lib/cookie.js:183-205) are left out. They are asynchronous browser and DevTools-protocol plumbing: event handlers, a request map and a DOM property proxy.
- The command-line entry points are left out, because they are I/O and process glue:
  - scan.js:109-218: browser launch, arguments, and the final lifeSpan estimate from the clock;
  - convert.js:48-67: argument parsing, stdin/stdout and the format switch. The validator it binds is modelled as `Convert.EnumTypeFormats`.
- save.js, lib/page.js and example.playscript.js are not part of this model. They automate a third-party web interface, navigate pages and hold configuration.
- lib/CookieParser.js wraps the DevTools parser, which is not shown. Its output is the `parsed` input of `CookieParsing.ParseCookie`.
- The oracles are not modelled, only the code's logic around them:
  - the `psl` package;
  - `Date.parse`. The model treats `Date.parse("")` as NaN.
  - `new URL`;
  - `error-stack-parser`.
- The public-suffix test vectors (lib/http.test.js:23-30) are facts about the `psl` package. They appear only as preconditions of the examples.
- Times are integers of milliseconds. The source's creation times are fractional, and `parseInt(...) * 1000` loses precision for huge Max-Age values: floating point is not modelled.
- `Strings.Lower` lowers ASCII letters only. JavaScript's `toLowerCase` is Unicode-aware.
- The text of the `console.warn` diagnostics of `parseCookie` is not modelled, because it is output only. When they fire is modelled, as `CookieParsing.Warns`.
- ParseCookie: states the header parsed with `trunc` corrected. As written, any warning (lib/cookie.js:90, 101, 120, 130 and 148) calls `trunc(initiator.url, 60)`, which throws a ReferenceError when the URL is over 60 characters. The error leaves the `reduce`, and the callers at lib/cookie.js:287 and 383 do not catch it, so every cookie of the header is lost. For example, a URL of 61 characters with the header "a=1; Max-Age=x, b=2" loses b. `CookieParsing.HeaderAborts` states when this happens and `CookieParsing.LongUrlAbortsHeader` shows the example.
- EmittedAppend: is about the records the header resolves to. For parseCookie's output it holds only when no warning fails: with a URL over 60 characters, one cookie's invalid attribute or dropped domain aborts the others too.
- AttributesDoNotDrop: is about whether the resolved record is kept. For parseCookie's output, an invalid Max-Age or Expires with a URL over 60 characters aborts the whole header, this cookie included.
- `Convert.Render` covers the JSON values a report row holds: undefined, null, booleans, integers and strings. It does not cover objects, arrays, fractional numbers or NaN: a NaN life span is falsy in JavaScript and renders as "", which `Num` cannot express.
- Scan.MergeCookies models records as values in an array. A record object that appears twice in the input (aliasing) is not modelled.
- CookieParsing.MaxAgeExample is stated for every positive Max-Age n. The test's value is 2592000 (30 days).
- CookieParsing.Trunc gives None in the long branch. The ReferenceError it stands for is modelled only through `CookieParsing.HeaderAborts`.
- StrLess: compares strings by Unicode scalar values. JavaScript's `<` compares UTF-16 code units, so the two differ for characters outside the Basic Multilingual Plane: "\u{1F600}" is less than "\uFF61" in JavaScript but not in the model.
- Trunc and TruncIntended: count Unicode scalar values. JavaScript's `length` and `slice` count UTF-16 code units, so a value with characters outside the Basic Multilingual Plane is measured and cut differently.
- CookieParsing.TruncIntended uses the character U+2026 as the ellipsis. The source file holds that character's UTF-8 bytes read as three Latin-1 characters.
- Http.MatchDomainEmptyValue states when "" matches, rather than claiming that "" never matches a non-empty domain. The code takes "a." and "example.com." for matches of "".
- `Convert.EnumType` models the thrown error as `Err` with its message.

## Findings

| source | as written | input that shows it | evidently intended | confidence | as-written member | corrected member |
|---|---|---|---|---|---|---|
| lib/cookie.js:11 | the long branch slices an undefined `cookie` instead of `value`, so it throws a ReferenceError | any value longer than the limit, e.g. 61 characters with the default limit of 60 | return the head, an ellipsis and the tail, of the limit's length in total. The intended length follows the comment on lines 9-10 ("60 -> 30 + 29"), not the slices: even with `value`, the code's `slice(-Math.ceil(limit / 2))` keeps one more character, giving limit + 1 | high, not executed | CookieParsing.TruncLongValue | CookieParsing.TruncIntended |
| scan.js:63 | when `findIndex` finds no differing piece it returns −1, and `splice(0, -1)` keeps nothing, so the path collapses to "/" | "/a" merged with a stored "/a" gives "/" | the common base of the two paths, here "/a" | medium, not executed | Scan.MergedPathSamePathExample | Scan.CommonPathSame |
| scan.js:58-66 | the merged lifeSpan, isSession and path are written onto the incoming duplicate, which is then discarded, so the output is the first record untouched | two records of one key with life spans 1 and then 5 give life span 1 | merge into the stored record: the longest life span, the AND of the session flags, the common path | medium, not executed | Scan.MergeKeepsFirstValues | Scan.MergedRowMeaning |
| lib/cookie.js:90 | every warning, here the one for an invalid Max-Age, formats the URL with `trunc`, which throws on a URL over 60 characters and aborts the whole header | "a=1; Max-Age=x, b=2" set from a URL of 61 characters loses both a and b | log the warning and carry on: a kept as a session cookie, and b kept | high, not executed | CookieParsing.LongUrlAbortsHeader | CookieParsing.ParseCookie |
