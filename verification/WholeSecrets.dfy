/** What becomes of a text that is one whole secret. */
module WholeSecrets {
  import opened Regex
  import opened Redactor
  import opened NoResidue
  import opened Values
  import opened Shapes

  // ----- what a pass keeps ------------------------------------------------------------------

  /** No span reaches into the stretch. */
  predicate ClearOf(spans: seq<Span>, a: nat, b: nat) {
    forall k :: 0 <= k < |spans| ==> spans[k].end <= a || b <= spans[k].start
  }

  /** A stretch that no span reaches into is still there, and what comes before it and after it is
      what replacement makes of the text before it and after it. */
  lemma {:induction false} KeptStretch(t: string, i: nat, spans: seq<Span>, a: nat, b: nat, x: char)
      returns (k: nat, rest: seq<Span>)
    requires InOrder(t, i, spans) && i <= a < b <= |t| && ClearOf(spans, a, b)
    ensures k + (b - a) <= |Splice(t, i, spans)| && Splice(t, i, spans)[k..k + (b - a)] == t[a..b]
    ensures InOrder(t, b, rest) && Splice(t, i, spans)[k + (b - a)..] == Splice(t, b, rest)
    ensures i < a ==> 0 < k
    ensures x !in REDACTED && x !in t[i..a] ==> x !in Splice(t, i, spans)[..k]
    ensures forall s :: s in rest ==> s in spans
    decreases |spans|
  {
    hide Splice;
    if spans == [] || b <= spans[0].start {
      k, rest := a - i, spans;
      SkipGap(t, i, spans, a - i);
      SkipGap(t, i, spans, b - i);
      SliceTwice(Splice(t, i, spans), t, i, a, b);
    } else {
      var start, end := spans[0].start, spans[0].end;
      var gap, more := t[i..start], Splice(t, end, spans[1..]);
      ClearTail(spans, a, b);
      SpliceIs(t, i, spans);
      var k';
      k', rest := KeptStretch(t, end, spans[1..], a, b, x);
      k := |gap| + |REDACTED| + k';
      Behind(gap + REDACTED, more, k', b - a);
      FrontIs(gap + REDACTED, more, k');
      if x !in REDACTED && x !in t[i..a] { PartsOfGap(t, i, start, end, a, x); }
    }
  }

  lemma SpliceIs(t: string, i: nat, spans: seq<Span>)
    requires InOrder(t, i, spans) && spans != []
    ensures Splice(t, i, spans) == t[i..spans[0].start] + REDACTED + Splice(t, spans[0].end, spans[1..])
  {
  }

  lemma FrontIs(front: string, more: string, k: nat)
    requires k <= |more|
    ensures (front + more)[..|front| + k] == front + more[..k]
  {
  }

  lemma SliceTwice(u: string, t: string, i: nat, a: nat, b: nat)
    requires i <= a <= b <= |t| && b - i <= |u| && u[..a - i] == t[i..a] && u[..b - i] == t[i..b]
    ensures u[a - i..b - i] == t[a..b]
  {
    assert u[a - i..b - i] == u[..b - i][a - i..];
    assert t[a..b] == t[i..b][a - i..];
  }

  lemma ClearTail(spans: seq<Span>, a: nat, b: nat)
    requires spans != [] && ClearOf(spans, a, b)
    ensures ClearOf(spans[1..], a, b)
  {
    forall k | 0 <= k < |spans| - 1 ensures spans[1..][k] == spans[k + 1] {}
  }

  lemma Behind(front: string, more: string, k: nat, n: nat)
    requires k + n <= |more|
    ensures var u := front + more;
      u[|front| + k..|front| + k + n] == more[k..k + n] && u[|front| + k + n..] == more[k + n..]
  {
  }

  lemma PartsOfGap(t: string, i: nat, start: nat, end: nat, a: nat, x: char)
    requires i <= start <= end <= a <= |t| && x !in t[i..a]
    ensures x !in t[i..start] && x !in t[end..a]
  {
    forall k | i <= k < a ensures t[k] != x { assert t[k] == t[i..a][k - i]; }
  }

  /** A pass brings in no character but those of the marker. */
  lemma {:induction false} NoNewCharacter(t: string, i: nat, spans: seq<Span>, x: char)
    requires InOrder(t, i, spans) && x !in t && x !in REDACTED
    ensures x !in Splice(t, i, spans)
    decreases |spans|
  {
    if spans != [] {
      NoNewCharacter(t, spans[0].end, spans[1..], x);
    }
  }

  // ----- a DSN stays one until its own pass ------------------------------------------------

  lemma OutsideSlice(t: string, a: nat, b: nat, c: nat)
    requires a <= b <= |t| && c < |t| && t[c] !in t[a..b]
    ensures !(a <= c < b)
  {
    forall k | a <= k < b ensures t[k] in t[a..b] { assert t[a..b][k - a] == t[k]; }
  }

  lemma NothingBehind(t: string, rest: seq<Span>)
    requires InOrder(t, |t|, rest)
    ensures rest == [] && Splice(t, |t|, rest) == ""
  {
  }

  lemma HasSpan(p: Pattern, t: string)
    requires !NoMatch(p, t)
    ensures Spans(p, t, 0) != [] && Genuine(p, t, Spans(p, t, 0))
  {
    SpansAreGenuine(p, t, 0);
    PassRemovesOwn(p, t);
    assert Spans(p, t, 0) == [] ==> Sub(p, t) == t;
  }

  lemma KeySpansAvoid(q: Pattern, t: string, spans: seq<Span>, c: nat)
    requires !IsDsn(q) && Genuine(q, t, spans) && c < |t| && (t[c] == ':' || t[c] == '@' || t[c] == '[')
    ensures ClearOf(spans, c, c + 1)
  {
    forall k | 0 <= k < |spans| ensures spans[k].end <= c || c + 1 <= spans[k].start {
      KeyAvoids(q, t[c]);
      AvoidsMatch(Expression(q), t[c], t, spans[k].start, spans[k].end);
      OutsideSlice(t, spans[k].start, spans[k].end, c);
    }
  }

  /** In a text that begins with a scheme no key begins there. */
  lemma KeysBeginBehind(q: Pattern, t: string, head: string, a: nat, b: nat)
    requires !IsDsn(q) && Occurs(q, t, a, b) && head <= t
    requires head == "postgres://" || head == "postgresql://" || head == "redis://"
    ensures |head| <= a
  {
    var c := |head| - 3;
    assert t[c] == head[c] == ':' && t[c + 1] == head[c + 1] == '/' && t[c + 2] == head[c + 2] == '/';
    StartOfMatch(q, t, a, b);
    MatchIsWide(Expression(q), t, a, b);
    KeyIsWide(q);
    KeySpansAvoid(q, t, [Span(a, b)], c);
    assert [Span(a, b)][0] == Span(a, b);
  }

  lemma KeysStayBehind(q: Pattern, t: string, head: string, spans: seq<Span>)
    requires !IsDsn(q) && Genuine(q, t, spans) && head <= t
    requires head == "postgres://" || head == "postgresql://" || head == "redis://"
    ensures spans != [] ==> |head| <= spans[0].start
  {
    if spans != [] { KeysBeginBehind(q, t, head, spans[0].start, spans[0].end); }
  }

  lemma HeadStays(t: string, head: string, spans: seq<Span>)
    requires InOrder(t, 0, spans) && head <= t && (spans != [] ==> |head| <= spans[0].start)
    ensures InOrder(t, |head|, spans) && |head| <= |Splice(t, 0, spans)|
    ensures Splice(t, 0, spans)[..|head|] == head && Splice(t, 0, spans)[|head|..] == Splice(t, |head|, spans)
  {
    hide Splice;
    SkipGap(t, 0, spans, |head|);
    assert t[0..0 + |head|] == head;
  }

  ghost predicate IsDsnText(head: string, min: nat, t: string) {
    exists user, password :: IsUser(user, min) && IsPassword(password) && t == head + user + ":" + password + "@"
  }

  /** Replacing keys in a DSN leaves a DSN: they lie within its user and its password. */
  lemma DsnSurvives(q: Pattern, head: string, min: nat, t: string)
    requires !IsDsn(q) && min <= 1 && IsDsnText(head, min, t)
    requires head == "postgres://" || head == "postgresql://" || head == "redis://"
    ensures IsDsnText(head, min, Sub(q, t))
  {
    hide Splice, Spans, Genuine, Occurs, ClearOf, InOrder;
    var user, password :| IsUser(user, min) && IsPassword(password) && t == head + user + ":" + password + "@";
    var spans, h, c, w := Spans(q, t, 0), |head|, |head| + |user|, |t| - 1;
    SpansAreGenuine(q, t, 0);
    Landmarks(t, head, user, password);
    KeysStayBehind(q, t, head, spans);
    HeadStays(t, head, spans);
    KeySpansAvoid(q, t, spans, c);
    var k, rest := KeptStretch(t, h, spans, c, c + 1, ':');
    SubsetClear(q, t, spans, rest, w);
    var k', rest' := KeptStretch(t, c + 1, rest, w, w + 1, '@');
    NothingBehind(t, rest');
    var u, v := Splice(t, h, spans), Splice(t, c + 1, rest);
    Pieces(Sub(q, t), u, v, head, k, k', min);
  }

  lemma Landmarks(t: string, head: string, user: string, password: string)
    requires t == head + user + ":" + password + "@"
    ensures var h, c, w := |head|, |head| + |user|, |t| - 1;
      head <= t && t[..h] == head && t[h..c] == user && t[c] == ':' && c + 1 <= w && t[c + 1..w] == password &&
      t[w] == '@' && t[c..c + 1] == ":" && t[w..w + 1] == "@"
  {
  }

  lemma SubsetClear(q: Pattern, t: string, spans: seq<Span>, rest: seq<Span>, w: nat)
    requires !IsDsn(q) && Genuine(q, t, spans) && w < |t| && t[w] == '@'
    requires forall s :: s in rest ==> s in spans
    ensures ClearOf(rest, w, w + 1)
  {
    forall k | 0 <= k < |rest| ensures Occurs(q, t, rest[k].start, rest[k].end) {
      assert rest[k] in spans;
      var j :| 0 <= j < |spans| && spans[j] == rest[k];
    }
    KeySpansAvoid(q, t, rest, w);
  }

  lemma Pieces(out: string, u: string, v: string, head: string, k: nat, k': nat, min: nat)
    requires |head| <= |out| && out[..|head|] == head && out[|head|..] == u
    requires k < |u| && u[k..k + 1] == ":" && ':' !in u[..k] && u[k + 1..] == v && min <= k
    requires k' < |v| && v[k'..k' + 1] == "@" && '@' !in v[..k'] && v[k' + 1..] == "" && 0 < k'
    ensures IsDsnText(head, min, out)
  {
    assert IsUser(u[..k], min) && IsPassword(v[..k']);
    assert v == v[..k'] + v[k'..k' + 1] + v[k' + 1..];
    assert u == u[..k] + u[k..k + 1] + u[k + 1..];
    assert out == head + u;
    assert out == head + u[..k] + ":" + v[..k'] + "@";
  }

  lemma {:induction false} DsnSurvivesAll(passes: seq<Pattern>, head: string, min: nat, t: string)
    requires forall q :: q in passes ==> !IsDsn(q)
    requires min <= 1 && IsDsnText(head, min, t)
    requires head == "postgres://" || head == "postgresql://" || head == "redis://"
    ensures IsDsnText(head, min, Apply(passes, t))
    decreases |passes|
  {
    if passes != [] {
      DsnSurvives(passes[0], head, min, t);
      DsnSurvivesAll(passes[1..], head, min, Sub(passes[0], t));
    }
  }

  // ----- whole secrets ----------------------------------------------------------------------

  lemma WholeTextIsOneSpan(p: Pattern, t: string)
    requires HasShape(p, t)
    ensures Occurs(p, t, 0, |t|) && Sub(p, t) == REDACTED
  {
    assert t[0..|t|] == t;
    ShapeIff(p, t, 0, |t|);
    StartOfMatch(p, t, 0, |t|);
    PatternsAreDeterminate(p, t, 0, |t|);
    assert Spans(p, t, 0) == [Span(0, |t|)];
    assert Splice(t, |t|, []) == "" && t[0..0] + REDACTED + "" == REDACTED;
  }

  /** What is one secret when its pass comes is the marker in the end. */
  lemma OwnPassMasks(n: nat, t: string)
    requires n < |VALUE_PATTERNS| && HasShape(VALUE_PATTERNS[n], Apply(VALUE_PATTERNS[..n], t))
    ensures ScrubText(t) == "[REDACTED]"
  {
    ScrubInStages(n, t);
    WholeTextIsOneSpan(VALUE_PATTERNS[n], Apply(VALUE_PATTERNS[..n], t));
    MarkersHoldNoSecret();
    PassesKeepPlain(VALUE_PATTERNS[n + 1..], REDACTED);
  }

  /** A key is masked. */
  lemma KeyIsMasked(t: string)
    requires HasShape(OpenAiKey, t) || HasShape(AnthropicKey, t)
    ensures ScrubText(t) == "[REDACTED]"
  {
    assert VALUE_PATTERNS[..0] == [];
    if HasShape(AnthropicKey, t) {
      WholeTextIsOneSpan(AnthropicKey, t);
      AnthropicIsOpenAi(t, 0, |t|);
      ShapeIff(OpenAiKey, t, 0, |t|);
      assert t[0..|t|] == t;
    }
    OwnPassMasks(0, t);
  }

  /** A Postgres DSN is masked, whatever its user and password hold. */
  lemma PostgresIsMasked(t: string)
    requires HasShape(PostgresDsn, t)
    ensures ScrubText(t) == "[REDACTED]"
  {
    var head := if IsDsnText("postgres://", 1, t) then "postgres://" else "postgresql://";
    assert IsDsnText(head, 1, t);
    DsnSurvivesAll(VALUE_PATTERNS[..4], head, 1, t);
    OwnPassMasks(4, t);
  }

  /** A Redis DSN is masked exactly if no Postgres DSN stands in it when the keys have been replaced. */
  lemma RedisIsMaskedIff(t: string)
    requires HasShape(RedisDsn, t)
    ensures ScrubText(t) == "[REDACTED]" <==> !HoldsShape(PostgresDsn, Apply(VALUE_PATTERNS[..4], t))
  {
    var t' := Apply(VALUE_PATTERNS[..4], t);
    assert IsDsnText("redis://", 0, t);
    DsnSurvivesAll(VALUE_PATTERNS[..4], "redis://", 0, t);
    HoldsIff(PostgresDsn, t');
    ScrubInStages(4, t);
    if HoldsShape(PostgresDsn, t') {
      var user, password :| IsUser(user, 0) && IsPassword(password) && t' == "redis://" + user + ":" + password + "@";
      RedisHasMarks(user, password);
      PostgresSpoilsRedis(t', 8 + |user|);
      var u := Sub(PostgresDsn, t');
      assert VALUE_PATTERNS[5..] == [RedisDsn];
      PassesKeepPlain(VALUE_PATTERNS[5..], u);
    } else {
      PassKeepsPlain(PostgresDsn, t');
      assert VALUE_PATTERNS[..5] == VALUE_PATTERNS[..4] + [PostgresDsn];
      assert VALUE_PATTERNS[..5][..4] == VALUE_PATTERNS[..4] && VALUE_PATTERNS[..5][5..] == [];
      StagesOf(VALUE_PATTERNS[..5], 4, t);
      OwnPassMasks(5, t);
    }
  }

  /** In particular if there is none to begin with. */
  lemma RedisIsMasked(t: string)
    requires HasShape(RedisDsn, t) && !HoldsShape(PostgresDsn, t)
    ensures ScrubText(t) == "[REDACTED]"
  {
    HoldsIff(PostgresDsn, t);
    HoldsIff(PostgresDsn, Apply(VALUE_PATTERNS[..4], t));
    PassesKeepClean(VALUE_PATTERNS[..4], PostgresDsn, t);
    RedisIsMaskedIff(t);
  }

  /** Where the colons and at-signs of a Redis DSN stand: a colon in the scheme, the next one at `c`,
      and behind that no at-sign but the last character. */
  ghost predicate RedisMarks(t: string, c: nat) {
    8 <= c && c + 1 < |t| && t[0] == 'r' && t[|t| - 1] == '@' &&
    (forall k :: 0 <= k < c && t[k] == ':' ==> k == 5) && forall k :: c < k < |t| - 1 ==> t[k] != '@'
  }

  lemma RedisHasMarks(user: string, password: string)
    requires IsUser(user, 0) && IsPassword(password)
    ensures RedisMarks("redis://" + user + ":" + password + "@", 8 + |user|)
  {
    var head, t := "redis://", "redis://" + user + ":" + password + "@";
    Landmarks(t, head, user, password);
    var c := 8 + |user|;
    forall k | 0 <= k < c && t[k] == ':' ensures k == 5 {
      if k < 8 { assert t[k] == head[k]; } else { UserHere(t, user, c, k); }
    }
    forall k | c < k < |t| - 1 ensures t[k] != '@' { PasswordHere(t, password, c, k); }
    assert t[0] == head[0];
  }

  lemma UserHere(t: string, user: string, c: nat, k: nat)
    requires 8 <= k < c <= |t| && t[8..c] == user && ':' !in user
    ensures t[k] != ':'
  {
    assert t[k] == t[8..c][k - 8];
  }

  lemma PasswordHere(t: string, password: string, c: nat, k: nat)
    requires c < k < |t| - 1 && t[c + 1..|t| - 1] == password && '@' !in password
    ensures t[k] != '@'
  {
    assert t[k] == t[c + 1..|t| - 1][k - c - 1];
  }

  /** Two colons and an at-sign at the end are in every DSN. */
  lemma DsnMarks(p: Pattern, t: string, a: nat, e: nat) returns (y: nat, z: nat)
    requires IsDsn(p) && Occurs(p, t, a, e)
    ensures a < y < z < e - 1 < |t| && t[y] == ':' && t[z] == ':' && t[e - 1] == '@'
    ensures p == PostgresDsn ==> t[a] == 'p'
  {
    ShapeIff(p, t, a, e);
    var head, user, password := DsnSplits(p, t[a..e]);
    HeadMarks(t[a..e], head, user, password);
    y, z := a + |head| - 3, a + |head| + |user|;
    Places(t, a, e);
  }

  lemma DsnSplits(p: Pattern, m: string) returns (head: string, user: string, password: string)
    requires IsDsn(p) && HasShape(p, m)
    ensures m == head + user + ":" + password + "@" && password != ""
    ensures head == "redis://" || head == "postgres://" || head == "postgresql://"
    ensures p == PostgresDsn ==> head != "redis://"
  {
    if p == PostgresDsn {
      user, password :| IsUser(user, 1) && IsPassword(password) &&
        (m == "postgres://" + user + ":" + password + "@" || m == "postgresql://" + user + ":" + password + "@");
      head := if m == "postgres://" + user + ":" + password + "@" then "postgres://" else "postgresql://";
    } else {
      user, password :| IsUser(user, 0) && IsPassword(password) && m == "redis://" + user + ":" + password + "@";
      head := "redis://";
    }
  }

  lemma HeadMarks(m: string, head: string, user: string, password: string)
    requires m == head + user + ":" + password + "@" && password != ""
    requires head == "redis://" || head == "postgres://" || head == "postgresql://"
    ensures var y, z := |head| - 3, |head| + |user|;
      0 < y < z < |m| - 1 && m[y] == ':' && m[z] == ':' && m[|m| - 1] == '@' && (head != "redis://" ==> m[0] == 'p')
  {
    Landmarks(m, head, user, password);
    assert m[0] == head[0] && m[|head| - 3] == head[|head| - 3];
  }

  lemma Places(t: string, a: nat, e: nat)
    requires a <= e <= |t|
    ensures forall k :: 0 <= k < e - a ==> t[a..e][k] == t[a + k]
  {
  }

  /** A Postgres DSN inside a Redis DSN takes the at-sign away: the Redis pattern no longer matches,
      and the scheme and all before the Postgres DSN stay. */
  lemma PostgresSpoilsRedis(t: string, c: nat)
    requires RedisMarks(t, c) && !NoMatch(PostgresDsn, t)
    ensures NoMatch(RedisDsn, Sub(PostgresDsn, t))
    ensures Sub(PostgresDsn, t) != "" && Sub(PostgresDsn, t)[0] == 'r'
  {
    var spans, u := Spans(PostgresDsn, t, 0), Sub(PostgresDsn, t);
    HasSpan(PostgresDsn, t);
    var a, e := spans[0].start, spans[0].end;
    PostgresReaches(t, c, a, e);
    NothingBehind(t, spans[1..]);
    assert u == t[0..a] + REDACTED + "";
    assert u == t[..a] + REDACTED;
    forall i: nat, j: nat ensures !Occurs(RedisDsn, u, i, j) { NoRedisLeft(t, c, a, u, i, j); }
  }

  /** A Postgres DSN in a Redis DSN reaches to its end. */
  lemma PostgresReaches(t: string, c: nat, a: nat, e: nat)
    requires RedisMarks(t, c) && Occurs(PostgresDsn, t, a, e)
    ensures 0 < a < e == |t|
  {
    var y, z := DsnMarks(PostgresDsn, t, a, e);
    assert t[z] == ':';
  }

  lemma NoRedisLeft(t: string, c: nat, a: nat, u: string, i: nat, j: nat)
    requires RedisMarks(t, c) && a < |t| && u == t[..a] + REDACTED
    ensures !Occurs(RedisDsn, u, i, j)
  {
    if Occurs(RedisDsn, u, i, j) {
      var y, z := DsnMarks(RedisDsn, u, i, j);
      KeptPlace(t, a, u, y);
      KeptPlace(t, a, u, z);
      KeptPlace(t, a, u, j - 1);
    }
  }

  lemma KeptPlace(t: string, a: nat, u: string, k: nat)
    requires a < |t| && u == t[..a] + REDACTED && k < |u| && (u[k] == ':' || u[k] == '@')
    ensures k < a && u[k] == t[k]
  {
    if a <= k { MarkerHoldsNoStart(k - a); }
  }

  // ----- tokens -----------------------------------------------------------------------------

  /** A marker stands somewhere behind the first character. */
  ghost predicate MarkerBehind(t: string) {
    exists k: nat :: 0 < k && MarkerAt(t, k)
  }

  predicate MarkerAt(t: string, k: nat) {
    k + |REDACTED| <= |t| && t[k..k + |REDACTED|] == REDACTED
  }

  lemma MarkerBehindSurvives(q: Pattern, t: string)
    requires !IsDsn(q) && MarkerBehind(t)
    ensures MarkerBehind(Sub(q, t))
  {
    var a: nat :| 0 < a && MarkerAt(t, a);
    var spans, b := Spans(q, t, 0), a + |REDACTED|;
    SpansAreGenuine(q, t, 0);
    assert t[a] == t[a..b][0] == '[';
    KeySpansAvoid(q, t, spans, a);
    forall k | 0 <= k < |spans| ensures spans[k].end <= a || b <= spans[k].start {
      StartOfMatch(q, t, spans[k].start, spans[k].end);
      if a < spans[k].start < b {
        assert t[spans[k].start] == t[a..b][spans[k].start - a];
        MarkerHoldsNoStart(spans[k].start - a);
      }
    }
    var k, rest := KeptStretch(t, 0, spans, a, b, ' ');
    assert MarkerAt(Sub(q, t), k);
  }

  lemma {:induction false} MarkerBehindStays(passes: seq<Pattern>, t: string)
    requires ':' !in t && MarkerBehind(t)
    ensures MarkerBehind(Apply(passes, t))
    decreases |passes|
  {
    if passes != [] {
      var q := passes[0];
      if IsDsn(q) {
        forall i: nat, j: nat ensures !Occurs(q, t, i, j) {
          if Occurs(q, t, i, j) { DsnHoldsColon(q, t, i, j); }
        }
        PassKeepsPlain(q, t);
      } else {
        MarkerBehindSurvives(q, t);
      }
      NoNewCharacter(t, 0, Spans(q, t, 0), ':');
      MarkerBehindStays(passes[1..], Sub(q, t));
    }
  }

  /** A text without a colon that holds a key, but not in front, is never one marker in the end. */
  lemma KeyInsideSpoils(t: string)
    requires ':' !in t && t != "" && t[0] != 's' && HoldsShape(OpenAiKey, t)
    ensures ScrubText(t) != "[REDACTED]"
  {
    FirstMarkerIsBehind(t);
    NoNewCharacter(t, 0, Spans(OpenAiKey, t, 0), ':');
    assert VALUE_PATTERNS[..0] == [];
    ScrubInStages(0, t);
    MarkerBehindStays(VALUE_PATTERNS[1..], Sub(OpenAiKey, t));
  }

  lemma FirstMarkerIsBehind(t: string)
    requires t != "" && t[0] != 's' && HoldsShape(OpenAiKey, t)
    ensures MarkerBehind(Sub(OpenAiKey, t))
  {
    HoldsIff(OpenAiKey, t);
    HasSpan(OpenAiKey, t);
    var spans, u := Spans(OpenAiKey, t, 0), Sub(OpenAiKey, t);
    var a := spans[0].start;
    StartOfMatch(OpenAiKey, t, a, spans[0].end);
    MarkerFollows(t[0..a], Splice(t, spans[0].end, spans[1..]));
    assert MarkerAt(u, a);
  }

  lemma MarkerFollows(front: string, rest: string)
    ensures MarkerAt(front + REDACTED + rest, |front|)
  {
    assert (front + REDACTED + rest)[|front|..|front| + |REDACTED|] == REDACTED;
  }

  lemma NoKeyBefore(t: string)
    requires !HoldsShape(OpenAiKey, t)
    ensures NoMatch(OpenAiKey, t) && NoMatch(AnthropicKey, t)
  {
    HoldsIff(OpenAiKey, t);
    forall i: nat, j: nat ensures !Occurs(AnthropicKey, t, i, j) {
      if Occurs(AnthropicKey, t, i, j) { AnthropicIsOpenAi(t, i, j); }
    }
  }

  lemma NoColonInTokens(t: string)
    requires HasShape(BearerToken, t) || HasShape(Jwt, t)
    ensures ':' !in t && t != "" && t[0] != 's'
  {
    var p := if HasShape(BearerToken, t) then BearerToken else Jwt;
    WholeTextIsOneSpan(p, t);
    KeyAvoids(p, ':');
    AvoidsMatch(Expression(p), ':', t, 0, |t|);
    assert t[0..|t|] == t;
    if p == BearerToken {
      var bearer, gap, token :| IsBearer(bearer) && IsBlank(gap) && IsToken(token, 16) && t == bearer + gap + token;
      assert t[0] == bearer[0];
    } else {
      StartOfMatch(p, t, 0, |t|);
    }
  }

  /** A bearer token is masked exactly if no `sk-` key stands in it. */
  lemma BearerIsMaskedIff(t: string)
    requires HasShape(BearerToken, t)
    ensures ScrubText(t) == "[REDACTED]" <==> !HoldsShape(OpenAiKey, t)
  {
    if HoldsShape(OpenAiKey, t) {
      NoColonInTokens(t);
      KeyInsideSpoils(t);
    } else {
      NoKeyBefore(t);
      assert VALUE_PATTERNS[..2] == [OpenAiKey, AnthropicKey];
      PassesKeepPlain(VALUE_PATTERNS[..2], t);
      OwnPassMasks(2, t);
    }
  }

  lemma JwtAvoidsSpace(c: char)
    requires In(Space, c)
    ensures Avoids(Expression(Jwt), c)
  {
    assert c !in "eyJ" && c !in "." && !In(Word, c);
  }

  lemma NoSpaceInJwt(t: string, c: char)
    requires HasShape(Jwt, t) && IsWhiteSpace(c)
    ensures c !in t
  {
    hide Avoids, In, IsWhiteSpace;
    WholeTextIsOneSpan(Jwt, t);
    WhiteSpaceIff(c);
    JwtAvoidsSpace(c);
    AvoidsMatch(Expression(Jwt), c, t, 0, |t|);
    assert t[0..|t|] == t;
  }

  lemma NoBearerInJwt(t: string)
    requires HasShape(Jwt, t)
    ensures NoMatch(BearerToken, t)
  {
    forall i: nat, j: nat ensures !Occurs(BearerToken, t, i, j) {
      if Occurs(BearerToken, t, i, j) {
        ShapeIff(BearerToken, t, i, j);
        var k := SpaceInBearer(t[i..j]);
        NoSpaceInJwt(t, t[i + k]);
      }
    }
  }

  lemma SpaceInBearer(m: string) returns (k: nat)
    requires HasShape(BearerToken, m)
    ensures k < |m| && IsWhiteSpace(m[k])
  {
    var bearer, gap, token :| IsBearer(bearer) && IsBlank(gap) && IsToken(token, 16) && m == bearer + gap + token;
    k := 6;
    assert m[6] == gap[0] && gap[0] in gap;
  }

  /** A JWT is masked exactly if no `sk-` key stands in it. */
  lemma JwtIsMaskedIff(t: string)
    requires HasShape(Jwt, t)
    ensures ScrubText(t) == "[REDACTED]" <==> !HoldsShape(OpenAiKey, t)
  {
    if HoldsShape(OpenAiKey, t) {
      NoColonInTokens(t);
      KeyInsideSpoils(t);
    } else {
      NoKeyBefore(t);
      NoBearerInJwt(t);
      assert VALUE_PATTERNS[..3] == [OpenAiKey, AnthropicKey, BearerToken];
      PassesKeepPlain(VALUE_PATTERNS[..3], t);
      OwnPassMasks(3, t);
    }
  }
}
