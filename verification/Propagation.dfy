/** Request and correlation identifiers: taken from headers, bound, echoed and logged. */
module Propagation {
  import opened Wrappers
  import opened Regex
  import opened Redactor
  import opened NoResidue
  import opened Values
  import opened Shapes
  import opened WholeSecrets
  import opened CorrelationContext
  import opened ContextKeys
  import opened Events

  const MAX_ID_LENGTH: nat := 128

  /** `str.isalnum` on the Latin-1 characters that header values are decoded to. */
  predicate IsAlnum(c: char) {
    IsAsciiAlnum(c) || c == '\U{AA}' || c == '\U{B2}' || c == '\U{B3}' || c == '\U{B5}' ||
    c == '\U{B9}' || c == '\U{BA}' || '\U{BC}' <= c <= '\U{BE}' ||
    ('\U{C0}' <= c <= '\U{FF}' && c != '\U{D7}' && c != '\U{F7}')
  }

  predicate IsSafe(c: char) {
    IsAlnum(c) || c == '-' || c == '_' || c == '.'
  }

  function Keep(s: string): string {
    if s == "" then ""
    else (if IsSafe(s[0]) then [s[0]] else "") + Keep(s[1..])
  }

  function Sanitise(raw: Option<string>): Option<string> {
    if raw.None? || raw.value == "" then None
    else
      var cleaned := Keep(if |raw.value| <= MAX_ID_LENGTH then raw.value else raw.value[..MAX_ID_LENGTH]);
      if cleaned == "" then None else Some(cleaned)
  }

  /** Header names in lower case. */
  type Headers = map<string, string>

  function Header(h: Headers, name: string): Option<string> {
    if name in h then Some(h[name]) else None
  }

  const REQUEST_ID_HEADERS: seq<string> := ["x-request-id", "x-correlation-id", "request-id"]

  function FirstUsable(h: Headers, names: seq<string>): Option<string> {
    if names == [] then None
    else
      var id := Sanitise(Header(h, names[0]));
      if id.Some? then id else FirstUsable(h, names[1..])
  }

  function ExtractId(h: Headers): Option<string> {
    FirstUsable(h, REQUEST_ID_HEADERS)
  }

  datatype Ids = Ids(requestId: string, correlationId: string)

  /** `minted` is what `new_id` would return for this request. */
  function Identify(h: Headers, minted: string): Ids {
    var requestId := if ExtractId(h).Some? then ExtractId(h).value else minted;
    var correlation := Sanitise(Header(h, "x-correlation-id"));
    Ids(requestId, if correlation.Some? then correlation.value else requestId)
  }

  /** uuid4 in hex */
  predicate IsFreshId(s: string) {
    |s| == 32 && forall k :: 0 <= k < 32 ==> '0' <= s[k] <= '9' || 'a' <= s[k] <= 'f'
  }

  predicate Sanitised(s: string) {
    s != "" && |s| <= MAX_ID_LENGTH && forall c :: c in s ==> IsSafe(c)
  }

  // ----- sanitising -----------------------------------------------------------------------

  predicate IsSubsequence(a: string, b: string)
    decreases |b|
  {
    a == "" || (b != "" && ((a[0] == b[0] && IsSubsequence(a[1..], b[1..])) || IsSubsequence(a, b[1..])))
  }

  lemma {:induction false} KeepKeepsOrder(s: string)
    ensures IsSubsequence(Keep(s), s) && |Keep(s)| <= |s|
    ensures forall c :: c in Keep(s) ==> IsSafe(c)
    decreases |s|
  {
    if s != "" {
      KeepKeepsOrder(s[1..]);
      if IsSafe(s[0]) {
        assert Keep(s)[1..] == Keep(s[1..]);
      } else {
        assert Keep(s) == Keep(s[1..]);
      }
    }
  }

  lemma {:induction false} KeepKeepsAll(s: string, c: char)
    requires IsSafe(c)
    ensures multiset(Keep(s))[c] == multiset(s)[c]
    decreases |s|
  {
    if s != "" {
      KeepKeepsAll(s[1..], c);
      assert s == [s[0]] + s[1..];
    }
  }

  lemma {:induction false} KeepsSafeText(s: string)
    requires forall c :: c in s ==> IsSafe(c)
    ensures Keep(s) == s
    decreases |s|
  {
    if s != "" {
      KeepsSafeText(s[1..]);
    }
  }

  /** Letters, digits and numerals of Latin-1, and three signs. */
  predicate IsIdChar(c: char) {
    c in "ABCDEFGHIJKLMNOPQRSTUVWXYZ" || c in "abcdefghijklmnopqrstuvwxyz" || c in "0123456789" || c in "-_." ||
    c in "\U{AA}\U{B2}\U{B3}\U{B5}\U{B9}\U{BA}\U{BC}\U{BD}\U{BE}" ||
    c in "\U{C0}\U{C1}\U{C2}\U{C3}\U{C4}\U{C5}\U{C6}\U{C7}\U{C8}\U{C9}\U{CA}\U{CB}\U{CC}\U{CD}\U{CE}\U{CF}" ||
    c in "\U{D0}\U{D1}\U{D2}\U{D3}\U{D4}\U{D5}\U{D6}\U{D8}\U{D9}\U{DA}\U{DB}\U{DC}\U{DD}\U{DE}\U{DF}" ||
    c in "\U{E0}\U{E1}\U{E2}\U{E3}\U{E4}\U{E5}\U{E6}\U{E7}\U{E8}\U{E9}\U{EA}\U{EB}\U{EC}\U{ED}\U{EE}\U{EF}" ||
    c in "\U{F0}\U{F1}\U{F2}\U{F3}\U{F4}\U{F5}\U{F6}\U{F8}\U{F9}\U{FA}\U{FB}\U{FC}\U{FD}\U{FE}\U{FF}"
  }

  lemma IdCharIff(c: char)
    ensures IsSafe(c) <==> IsIdChar(c)
  {
  }

  function Head(raw: string): string {
    if |raw| <= 128 then raw else raw[..128]
  }

  /** `id` consists, in order, of all the characters among the first 128 of `raw` that may stand in
      an identifier. */
  ghost predicate IsSafePart(id: string, raw: string) {
    id != "" && IsSubsequence(id, Head(raw)) && (forall c :: c in id ==> IsIdChar(c)) &&
    forall c :: IsIdChar(c) ==> multiset(id)[c] == multiset(Head(raw))[c]
  }

  predicate HasSafePart(raw: string) {
    exists k :: 0 <= k < |raw| && k < 128 && IsIdChar(raw[k])
  }

  /** Sanitising keeps exactly the safe part, if there is one. */
  lemma SanitiseKeepsSafePart(raw: string)
    ensures match Sanitise(Some(raw))
      case None => !HasSafePart(raw)
      case Some(id) => HasSafePart(raw) && IsSafePart(id, raw) && Sanitised(id)
  {
    hide IsSafe, IsIdChar, IsSubsequence;
    var head := Head(raw);
    KeepKeepsOrder(head);
    forall c ensures IsSafe(c) <==> IsIdChar(c) { IdCharIff(c); }
    forall c | IsSafe(c) ensures multiset(Keep(head))[c] == multiset(head)[c] {
      KeepKeepsAll(head, c);
    }
    if HasSafePart(raw) {
      var k :| 0 <= k < |raw| && k < 128 && IsIdChar(raw[k]);
      assert head[k] in multiset(head);
    }
    if Keep(head) != "" {
      assert multiset(Keep(head))[Keep(head)[0]] > 0;
      var k :| 0 <= k < |head| && head[k] == Keep(head)[0];
      assert IsIdChar(raw[k]);
    }
  }

  /** There is only one safe part. */
  lemma SafePartIsUnique(id: string, id': string, raw: string)
    requires IsSafePart(id, raw) && IsSafePart(id', raw)
    ensures id == id'
  {
    forall c ensures IsSafe(c) <==> IsIdChar(c) { IdCharIff(c); }
    FullSubsequenceIsKept(id, Head(raw));
    FullSubsequenceIsKept(id', Head(raw));
  }

  lemma {:induction false} SubsequenceCounts(a: string, b: string, c: char)
    requires IsSubsequence(a, b)
    ensures multiset(a)[c] <= multiset(b)[c]
    decreases |b|
  {
    if a != "" {
      assert b == [b[0]] + b[1..] && a == [a[0]] + a[1..];
      if IsSubsequence(a, b[1..]) {
        SubsequenceCounts(a, b[1..], c);
      } else {
        SubsequenceCounts(a[1..], b[1..], c);
      }
    }
  }

  lemma {:induction false} FullSubsequenceIsKept(a: string, b: string)
    requires IsSubsequence(a, b) && forall c :: c in a ==> IsSafe(c)
    requires forall c :: IsSafe(c) ==> multiset(a)[c] == multiset(b)[c]
    ensures a == Keep(b)
    decreases |b|
  {
    if b != "" {
      var x, rest := b[0], b[1..];
      assert b == [x] + rest;
      if IsSafe(x) {
        if a == "" || IsSubsequence(a, rest) {
          if a != "" { SubsequenceCounts(a, rest, x); }
          assert false;
        } else {
          assert a == [x] + a[1..];
          FullSubsequenceIsKept(a[1..], rest);
        }
      } else {
        assert a == "" || IsSubsequence(a, rest);
        FullSubsequenceIsKept(a, rest);
      }
    } else {
      assert a == "";
    }
  }

  lemma SanitiseIsIdempotent(id: string)
    requires Sanitised(id)
    ensures Sanitise(Some(id)) == Some(id)
  {
    KeepsSafeText(id);
  }

  lemma HeaderIsSanitised(h: Headers, name: string)
    ensures var id := Sanitise(Header(h, name)); id.Some? ==> Sanitised(id.value)
  {
    if name in h {
      SanitiseKeepsSafePart(h[name]);
    }
  }

  lemma {:induction false} UsableIsSanitised(h: Headers, names: seq<string>)
    ensures FirstUsable(h, names).Some? ==> Sanitised(FirstUsable(h, names).value)
    decreases |names|
  {
    if names != [] {
      HeaderIsSanitised(h, names[0]);
      UsableIsSanitised(h, names[1..]);
    }
  }

  lemma IdsAreSanitised(h: Headers, minted: string)
    requires IsFreshId(minted)
    ensures Sanitised(Identify(h, minted).requestId) && Sanitised(Identify(h, minted).correlationId)
  {
    UsableIsSanitised(h, REQUEST_ID_HEADERS);
    HeaderIsSanitised(h, "x-correlation-id");
  }

  /** This header brings something that can serve as an identifier. */
  predicate Offers(h: Headers, name: string) {
    name in h && HasSafePart(h[name])
  }

  /** Which header each identifier is taken from. The request identifier is what the first of three
      headers offers, and a new one if none does; the correlation identifier is what its own header
      offers, and the request identifier otherwise. */
  lemma IdsComeFrom(h: Headers, minted: string)
    ensures var ids := Identify(h, minted);
      (if Offers(h, "x-request-id") then IsSafePart(ids.requestId, h["x-request-id"])
       else if Offers(h, "x-correlation-id") then IsSafePart(ids.requestId, h["x-correlation-id"])
       else if Offers(h, "request-id") then IsSafePart(ids.requestId, h["request-id"])
       else ids.requestId == minted) &&
      (if Offers(h, "x-correlation-id") then IsSafePart(ids.correlationId, h["x-correlation-id"])
       else ids.correlationId == ids.requestId)
  {
    hide IsSafePart, HasSafePart, FirstUsable, Sanitise;
    assert REQUEST_ID_HEADERS == ["x-request-id", "x-correlation-id", "request-id"];
    HeaderOffers(h, "x-request-id");
    HeaderOffers(h, "x-correlation-id");
    HeaderOffers(h, "request-id");
    ThreeHeaders(h, "x-request-id", "x-correlation-id", "request-id");
  }

  lemma HeaderOffers(h: Headers, name: string)
    ensures Sanitise(Header(h, name)).Some? <==> Offers(h, name)
    ensures Offers(h, name) ==> IsSafePart(Sanitise(Header(h, name)).value, h[name])
  {
    if name in h { SanitiseKeepsSafePart(h[name]); }
  }

  lemma ThreeHeaders(h: Headers, a: string, b: string, c: string)
    ensures FirstUsable(h, [a, b, c]) ==
      if Sanitise(Header(h, a)).Some? then Sanitise(Header(h, a))
      else if Sanitise(Header(h, b)).Some? then Sanitise(Header(h, b)) else Sanitise(Header(h, c))
  {
    assert [a, b, c][1..] == [b, c] && [b, c][1..] == [c] && [c][1..] == [];
    assert FirstUsable(h, [c]) == Sanitise(Header(h, c));
  }

  // ----- over several hops ----------------------------------------------------------------

  /** One service hop: headers that arrive with the request, and the identifier it would mint. */
  datatype Hop = Hop(headers: Headers, minted: string)

  /** A hop receives the identifiers that the one before it echoed, next to headers of its own. */
  function Forward(ids: Ids, hop: Hop): Ids {
    Identify(hop.headers["x-request-id" := ids.requestId]["x-correlation-id" := ids.correlationId], hop.minted)
  }

  function ForwardAll(ids: Ids, hops: seq<Hop>): Ids
    decreases |hops|
  {
    if hops == [] then ids else ForwardAll(Forward(ids, hops[0]), hops[1..])
  }

  lemma ForwardKeeps(ids: Ids, hop: Hop)
    requires Sanitised(ids.requestId) && Sanitised(ids.correlationId)
    ensures Forward(ids, hop) == ids
  {
    SanitiseIsIdempotent(ids.requestId);
    SanitiseIsIdempotent(ids.correlationId);
    assert REQUEST_ID_HEADERS[0] == "x-request-id";
  }

  /** Propagation is a fixed point: whatever the first request carried, and over any number of
      hops, every service works under the pair that the first one chose. */
  lemma {:induction false} PropagationIsStable(h: Headers, minted: string, hops: seq<Hop>)
    requires IsFreshId(minted)
    ensures ForwardAll(Identify(h, minted), hops) == Identify(h, minted)
    decreases |hops|
  {
    if hops != [] {
      IdsAreSanitised(h, minted);
      ForwardKeeps(Identify(h, minted), hops[0]);
      PropagationIsStable(h, minted, hops[1..]);
    }
  }

  // ----- the identifier in the log --------------------------------------------------------

  /** Of the six secret shapes, identifiers can only have that of a key or of a JWT. */
  lemma SafeTextHoldsFewShapes(s: string)
    requires forall c :: c in s ==> IsSafe(c)
    ensures NoMatch(BearerToken, s) && NoMatch(PostgresDsn, s) && NoMatch(RedisDsn, s)
    ensures NoMatch(OpenAiKey, s) ==> NoMatch(AnthropicKey, s)
  {
    forall p: Pattern, i: nat, j: nat | p == BearerToken || IsDsn(p) ensures !Occurs(p, s, i, j) {
      if Occurs(p, s, i, j) {
        if IsDsn(p) { DsnHoldsColon(p, s, i, j); } else { BearerHoldsSpace(s, i, j); }
      }
    }
    forall i: nat, j: nat | Occurs(AnthropicKey, s, i, j) ensures Occurs(OpenAiKey, s, i, j) {
      AnthropicIsOpenAi(s, i, j);
    }
  }

  lemma BearerHoldsSpace(s: string, i: nat, j: nat)
    requires Occurs(BearerToken, s, i, j)
    ensures exists c :: c in s && In(Space, c)
  {
    var re := Expression(BearerToken);
    var m: nat :| Takes(re[0], s, i, m) && Derives(re[1..], s, m, j);
    var k: nat :| Takes(re[1..][0], s, m, k) && Derives(re[1..][1..], s, k, j);
    assert In(Space, s[m]) && s[m] in s;
  }

  lemma CleanIff(s: string)
    requires forall c :: c in s ==> IsSafe(c)
    ensures Clean(s) <==> NoMatch(OpenAiKey, s) && NoMatch(Jwt, s)
  {
    SafeTextHoldsFewShapes(s);
  }

  lemma FreshIdIsClean(s: string)
    requires IsFreshId(s)
    ensures Clean(s)
  {
    forall p: Pattern, i: nat, j: nat | p == OpenAiKey || p == Jwt ensures !Occurs(p, s, i, j) {
      if Occurs(p, s, i, j) { StartOfMatch(p, s, i, j); }
    }
    CleanIff(s);
  }

  function IdFields(ids: Ids): seq<Binding> {
    [Binding("request_id", Some(ids.requestId)), Binding("correlation_id", Some(ids.correlationId))]
  }

  /** The log line of a call with fields `e` under these context variables. */
  function LineOf(vars: Vars, e: Event): Event {
    RedactEvent(Merge(CurrentContext(vars), e))
  }

  /** The same while the request is served, in a context that has just bound its identifiers. */
  function LogLine(c: Ctx, ids: Ids, e: Event): Event {
    LineOf(Bind(c, IdFields(ids)).ctx.vars, e)
  }

  /** The line shows the identifier exactly when it holds no `sk-` key and no JWT. */
  ghost predicate CarriesId(line: Event, key: string, id: string) {
    key in line && (line[key] == Str(id) <==> NoMatch(OpenAiKey, id) && NoMatch(Jwt, id))
  }

  lemma LineCarriesId(vars: Vars, f: Field, id: string, e: Event)
    requires f == RequestId || f == CorrelationId
    requires Get(vars, f) == Some(id) && (forall c :: c in id ==> IsSafe(c)) && FieldName(f) !in e
    ensures CarriesId(LineOf(vars, e), FieldName(f), id)
    ensures LineOf(vars, e)[FieldName(f)] == Str(ScrubText(id))
  {
    NamedByItsName(f);
    FieldNameIsOpen(f);
    UnchangedIffNoResidue(id);
    CleanIff(id);
  }

  lemma ContextShowsIds(c: Ctx, ids: Ids)
    ensures var vars := Bind(c, IdFields(ids)).ctx.vars;
      Get(vars, RequestId) == Some(ids.requestId) && Get(vars, CorrelationId) == Some(ids.correlationId)
  {
    var fields := IdFields(ids);
    BindEffect(c, fields);
    BoundValue(c.vars, fields, RequestId);
    BoundValue(c.vars, fields, CorrelationId);
    assert Gives(fields[0], RequestId) && Gives(fields[1], CorrelationId);
  }

  /** The logged identifier is the echoed one exactly when it holds no `sk-` key and no JWT. */
  lemma LoggedIdIsEchoedIff(h: Headers, minted: string, c: Ctx, e: Event)
    requires IsFreshId(minted) && "request_id" !in e
    ensures var ids := Identify(h, minted);
      CarriesId(LogLine(c, ids, e), "request_id", ids.requestId)
    ensures ExtractId(h).None? ==> LogLine(c, Identify(h, minted), e)["request_id"] == Str(minted)
  {
    var ids := Identify(h, minted);
    ContextShowsIds(c, ids);
    IdsAreSanitised(h, minted);
    LineCarriesId(Bind(c, IdFields(ids)).ctx.vars, RequestId, ids.requestId, e);
    if ExtractId(h).None? { FreshIdIsClean(minted); }
  }

  lemma LoggedCorrelationIsEchoedIff(h: Headers, minted: string, c: Ctx, e: Event)
    requires IsFreshId(minted) && "correlation_id" !in e
    ensures var ids := Identify(h, minted);
      CarriesId(LogLine(c, ids, e), "correlation_id", ids.correlationId)
  {
    var ids := Identify(h, minted);
    ContextShowsIds(c, ids);
    IdsAreSanitised(h, minted);
    LineCarriesId(Bind(c, IdFields(ids)).ctx.vars, CorrelationId, ids.correlationId, e);
  }

  /** For a whole family of identifiers the two differ: one that looks like a key is echoed as it
      came and logged as the marker. */
  lemma KeyShapedIdIsMasked(tail: string, minted: string, c: Ctx)
    requires IsWord(tail, 16) && |tail| <= 125 && IsFreshId(minted)
    ensures var ids := Identify(map["x-request-id" := "sk-" + tail], minted);
      var line := LogLine(c, ids, map[]);
      ids.requestId == "sk-" + tail && "request_id" in line && line["request_id"] == Str("[REDACTED]")
  {
    var id, h := "sk-" + tail, map["x-request-id" := "sk-" + tail];
    forall k | 0 <= k < |id| ensures IsSafe(id[k]) {
      if k >= 3 { WordCharIff(tail[k - 3]); assert tail[k - 3] in tail; }
    }
    SanitiseIsIdempotent(id);
    assert REQUEST_ID_HEADERS[0] == "x-request-id";
    assert FirstUsable(h, REQUEST_ID_HEADERS) == Some(id);
    var ids := Identify(h, minted);
    ContextShowsIds(c, ids);
    LineCarriesId(Bind(c, IdFields(ids)).ctx.vars, RequestId, id, map[]);
    assert HasShape(OpenAiKey, id);
    KeyIsMasked(id);
  }
}
