/** The six value patterns and the text scrubber built from them. */
module Redactor {
  import opened Wrappers
  import opened Regex

  const REDACTED := "[REDACTED]"

  datatype Pattern = OpenAiKey | AnthropicKey | BearerToken | Jwt | PostgresDsn | RedisDsn

  const VALUE_PATTERNS: seq<Pattern> :=
    [OpenAiKey, AnthropicKey, BearerToken, Jwt, PostgresDsn, RedisDsn]

  function Expression(p: Pattern): seq<Piece> {
    match p
    case OpenAiKey => [Lit("sk-"), AtLeast(Word, 16)]
    case AnthropicKey => [Lit("sk-ant-"), AtLeast(Word, 16)]
    case BearerToken => [FoldLit("bearer"), AtLeast(Space, 1), AtLeast(TokenChar, 16)]
    case Jwt =>
      [Lit("eyJ"), AtLeast(Word, 10), Lit("."), AtLeast(Word, 10), Lit("."), AtLeast(Word, 10)]
    case PostgresDsn => DsnHead(p) + DsnTail(1)
    case RedisDsn => DsnHead(p) + DsnTail(0)
  }

  function SchemeName(p: Pattern): seq<Piece> {
    if p == PostgresDsn then [Lit("postgres"), Maybe("ql")] else [Lit("redis")]
  }

  function DsnHead(p: Pattern): seq<Piece> {
    SchemeName(p) + [Lit("://")]
  }

  /** What both DSN patterns share after the scheme: user, colon, password, at-sign. */
  function DsnTail(minUser: nat): seq<Piece> {
    [AtLeast(NotColon, minUser), Lit(":"), AtLeast(NotAt, 1), Lit("@")]
  }

  predicate IsDsn(p: Pattern) { p == PostgresDsn || p == RedisDsn }

  function MinUser(p: Pattern): nat { if p == PostgresDsn then 1 else 0 }

  /** `s[i..j]` is a secret of shape `p`. */
  ghost predicate Occurs(p: Pattern, s: string, i: nat, j: nat) {
    Derives(Expression(p), s, i, j)
  }

  ghost predicate NoMatch(p: Pattern, s: string) {
    forall i: nat, j: nat :: !Occurs(p, s, i, j)
  }

  /** No substring of `s` has any of the six shapes. */
  ghost predicate Clean(s: string) {
    forall p: Pattern :: NoMatch(p, s)
  }

  function FindAt(p: Pattern, s: string, i: nat): (r: Option<nat>)
    requires i <= |s|
    ensures r.Some? ==> i < r.value <= |s|
  {
    var r := MatchEnd(Expression(p), s, i);
    assert r.Some? ==> i < r.value by {
      if r.Some? {
        EngineIsSound(Expression(p), s, i);
        StartOfMatch(p, s, i, r.value);
      }
    }
    r
  }

  datatype Span = Span(start: nat, end: nat)

  /** The spans lie in the text from `i` on, one after the other. */
  predicate InOrder(s: string, i: nat, spans: seq<Span>)
    decreases |spans|
  {
    if spans == [] then i <= |s|
    else
      i <= spans[0].start < spans[0].end <= |s| && InOrder(s, spans[0].end, spans[1..])
  }

  /** The matches of `p` from `i` on: leftmost first, not overlapping. */
  function Spans(p: Pattern, s: string, i: nat): (spans: seq<Span>)
    requires i <= |s|
    ensures InOrder(s, i, spans)
    decreases |s| - i
  {
    if i == |s| then []
    else match FindAt(p, s, i)
      case Some(e) => [Span(i, e)] + Spans(p, s, e)
      case None => Spans(p, s, i + 1)
  }

  /** The text from `i` on with every span replaced by the marker. */
  function Splice(s: string, i: nat, spans: seq<Span>): string
    requires InOrder(s, i, spans)
    decreases |spans|
  {
    if spans == [] then s[i..]
    else s[i..spans[0].start] + REDACTED + Splice(s, spans[0].end, spans[1..])
  }

  /** `pattern.sub(REDACTED, s)` */
  function Sub(p: Pattern, s: string): string {
    Splice(s, 0, Spans(p, s, 0))
  }

  function Apply(passes: seq<Pattern>, s: string): string {
    if passes == [] then s else Apply(passes[1..], Sub(passes[0], s))
  }

  function ScrubText(s: string): string {
    Apply(VALUE_PATTERNS, s)
  }

  /** Every secret begins with one of these letters, none of which the marker contains. */
  predicate StartsSecret(c: char) { c in "sebBpr" }

  lemma StartOfMatch(p: Pattern, s: string, i: nat, j: nat)
    requires Occurs(p, s, i, j)
    ensures i + 1 < j <= |s| && StartsSecret(s[i])
    ensures (p == OpenAiKey ==> s[i] == 's') && (p == Jwt ==> s[i] == 'e')
    ensures (s[i] == 'e' ==> s[i + 1] == 'y') && (s[i] == 'p' ==> s[i + 1] == 'o')
  {
    var re := Expression(p);
    var m: nat :| Takes(re[0], s, i, m) && Derives(re[1..], s, m, j);
    DerivesRange(re[1..], s, m, j);
    assert re[0].Lit? ==> s[i + 0] == re[0].text[0] && s[i + 1] == re[0].text[1];
    assert re[0].FoldLit? ==> ToLower(s[i + 0]) == re[0].text[0];
  }
}
