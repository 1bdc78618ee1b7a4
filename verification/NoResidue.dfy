/** After the passes, none of the patterns occurs anywhere in the text.

    A pass replaces its matches by a marker and so glues together text that was apart. For the
    four key-shaped patterns the brackets of the marker are a barrier. The two DSN patterns can
    run across a marker; for them the argument follows the first colon and the first at-sign. */
module NoResidue {
  import opened Wrappers
  import opened Regex
  import opened Redactor

  // ----- what an expression cannot match --------------------------------------------------

  predicate IsLetter(c: char) { 'a' <= c <= 'z' || 'A' <= c <= 'Z' }

  predicate PieceAvoids(piece: Piece, c: char) {
    match piece
    case Lit(text) => c !in text
    case FoldLit(text) => c !in text && !IsLetter(c)
    case Maybe(text) => c !in text
    case AtLeast(cls, _) => !In(cls, c)
  }

  predicate Avoids(re: seq<Piece>, c: char) {
    forall piece :: piece in re ==> PieceAvoids(piece, c)
  }

  lemma {:induction false} AvoidsMatch(re: seq<Piece>, c: char, s: string, i: nat, j: nat)
    requires Avoids(re, c) && Derives(re, s, i, j)
    ensures i <= j <= |s| && c !in s[i..j]
    decreases |re|
  {
    if re != [] {
      var m: nat :| Takes(re[0], s, i, m) && Derives(re[1..], s, m, j);
      AvoidsMatch(re[1..], c, s, m, j);
      PieceAvoidsTaken(re[0], c, s, i, m);
      assert s[i..j] == s[i..m] + s[m..j];
    }
  }

  lemma PieceAvoidsTaken(piece: Piece, c: char, s: string, i: nat, m: nat)
    requires PieceAvoids(piece, c) && Takes(piece, s, i, m) && m <= |s|
    ensures i <= m && c !in s[i..m]
  {
    forall k | i <= k < m ensures s[k] != c {
      if !piece.AtLeast? {
        assert piece.text[k - i] in piece.text;
        assert s[i + (k - i)] == s[k];
      }
    }
  }

  lemma {:induction false} SplitMatch(a: seq<Piece>, b: seq<Piece>, s: string, i: nat, j: nat)
    requires Derives(a + b, s, i, j)
    ensures exists m: nat :: Derives(a, s, i, m) && Derives(b, s, m, j)
    decreases |a|
  {
    if a == [] {
      assert a + b == b;
      DerivesRange(b, s, i, j);
      assert Derives(a, s, i, i);
    } else {
      assert (a + b)[1..] == a[1..] + b;
      var k: nat :| Takes(a[0], s, i, k) && Derives((a + b)[1..], s, k, j);
      SplitMatch(a[1..], b, s, k, j);
      var m: nat :| Derives(a[1..], s, k, m) && Derives(b, s, m, j);
      assert Derives(a, s, i, m);
    }
  }

  lemma {:induction false} JoinMatches(a: seq<Piece>, b: seq<Piece>, s: string, i: nat, m: nat, j: nat)
    requires Derives(a, s, i, m) && Derives(b, s, m, j)
    ensures Derives(a + b, s, i, j)
    decreases |a|
  {
    if a == [] {
      assert a + b == b;
    } else {
      assert (a + b)[1..] == a[1..] + b;
      var k: nat :| Takes(a[0], s, i, k) && Derives(a[1..], s, k, m);
      JoinMatches(a[1..], b, s, k, m, j);
      assert Takes((a + b)[0], s, i, k);
    }
  }

  // ----- one pass -------------------------------------------------------------------------

  ghost predicate Genuine(p: Pattern, s: string, spans: seq<Span>) {
    forall k :: 0 <= k < |spans| ==> Occurs(p, s, spans[k].start, spans[k].end)
  }

  /** No span begins before `a` and ends after it. */
  predicate Uncovered(a: nat, spans: seq<Span>) {
    forall k :: 0 <= k < |spans| ==> !(spans[k].start <= a < spans[k].end)
  }

  lemma GenuineCons(p: Pattern, s: string, span: Span, spans: seq<Span>)
    requires Occurs(p, s, span.start, span.end) && Genuine(p, s, spans)
    ensures Genuine(p, s, [span] + spans)
  {
    hide Occurs;
  }

  /** The spans that a pass replaces are matches ... */
  lemma {:induction false} SpansAreGenuine(p: Pattern, s: string, i: nat)
    requires i <= |s|
    ensures Genuine(p, s, Spans(p, s, i))
    decreases |s| - i
  {
    hide Occurs, FindAt;
    if i < |s| {
      match FindAt(p, s, i)
      case Some(e) =>
        SpansAreGenuine(p, s, e);
        FoundIsSecret(p, s, i);
        GenuineCons(p, s, Span(i, e), Spans(p, s, e));
      case None => SpansAreGenuine(p, s, i + 1);
    }
  }

  lemma FoundIsSecret(p: Pattern, s: string, i: nat)
    requires i <= |s| && FindAt(p, s, i).Some?
    ensures Occurs(p, s, i, FindAt(p, s, i).value)
  {
    EngineIsSound(Expression(p), s, i);
  }

  /** ... and no match begins outside them. */
  lemma {:induction false} SpansAreAll(p: Pattern, s: string, i: nat, a: nat, b: nat)
    requires i <= a <= |s| && Uncovered(a, Spans(p, s, i))
    ensures !Occurs(p, s, a, b)
    decreases |s| - i
  {
    if Occurs(p, s, a, b) {
      StartOfMatch(p, s, a, b);
      EngineIsComplete(Expression(p), s, a, b);
      match FindAt(p, s, i)
      case Some(e) => UncoveredTail(p, s, i, e, a); SpansAreAll(p, s, e, a, b);
      case None => SpansAreAll(p, s, i + 1, a, b);
    }
  }

  lemma UncoveredTail(p: Pattern, s: string, i: nat, e: nat, a: nat)
    requires i <= a < |s| && FindAt(p, s, i) == Some(e) && Uncovered(a, Spans(p, s, i))
    ensures e <= a && Uncovered(a, Spans(p, s, e))
  {
    var spans := Spans(p, s, i);
    assert spans == [Span(i, e)] + Spans(p, s, e);
    assert spans[0] == Span(i, e);
    assert spans[1..] == Spans(p, s, e);
  }

  lemma MarkerHoldsNoStart(k: nat)
    requires k < |REDACTED|
    ensures !StartsSecret(REDACTED[k]) && REDACTED[k] != ':' && REDACTED[k] != '@'
  {
  }

  /** Shift a match in `prefix + t` past the prefix. */
  lemma DropPrefix(re: seq<Piece>, prefix: string, t: string, k: nat, j: nat)
    requires |prefix| <= k && Derives(re, prefix + t, k, j)
    ensures k <= j && Derives(re, t, k - |prefix|, j - |prefix|)
  {
    DerivesRange(re, prefix + t, k, j);
    assert (prefix + t)[k..j] == t[k - |prefix|..j - |prefix|];
    Transfer(re, prefix + t, k, j, t, k - |prefix|);
  }

  /** Whatever pattern occurs after matches of `p` were replaced occurred before it, beginning
      outside the replaced spans. This holds for every pair of patterns. */
  lemma {:induction false} NothingNew(p: Pattern, q: Pattern, s: string, i: nat, spans: seq<Span>, k: nat, j: nat)
      returns (a: nat, b: nat)
    requires InOrder(s, i, spans) && Genuine(p, s, spans) && Occurs(q, Splice(s, i, spans), k, j)
    ensures Occurs(q, s, a, b) && i <= a <= |s| && Uncovered(a, spans)
    decreases |spans|
  {
    if spans != [] && spans[0].start - i <= k {
      var n := spans[0].start - i + |REDACTED|;
      DropMarker(q, s, i, spans, k, j);
      a, b := NothingNew(p, q, s, spans[0].end, spans[1..], k - n, j - n);
      UncoveredCons(a, spans);
    } else {
      a := i + k;
      b := NothingNewInGap(p, q, s, i, spans, k, j);
    }
  }

  /** A match that begins behind the first gap begins behind the first marker. */
  lemma DropMarker(q: Pattern, s: string, i: nat, spans: seq<Span>, k: nat, j: nat)
    requires spans != [] && InOrder(s, i, spans) && Occurs(q, Splice(s, i, spans), k, j)
    requires spans[0].start - i <= k
    ensures var n := spans[0].start - i + |REDACTED|;
      n <= k <= j && Occurs(q, Splice(s, spans[0].end, spans[1..]), k - n, j - n)
  {
    var gap, rest := s[i..spans[0].start], Splice(s, spans[0].end, spans[1..]);
    StartNotInMarker(q, gap, rest, k, j);
    DropPrefix(Expression(q), gap + REDACTED, rest, k, j);
  }

  lemma NothingNewInGap(p: Pattern, q: Pattern, s: string, i: nat, spans: seq<Span>, k: nat, j: nat)
      returns (b: nat)
    requires InOrder(s, i, spans) && Genuine(p, s, spans) && Occurs(q, Splice(s, i, spans), k, j)
    requires spans != [] ==> i + k < spans[0].start
    ensures Occurs(q, s, i + k, b) && i + k <= |s| && Uncovered(i + k, spans)
  {
    UncoveredBefore(s, i, spans, i + k);
    DropGap(Expression(q), s, i, spans, k, j);
    b := WasHere(p, q, s, i + k, spans, j - k);
  }

  /** A match that begins before the first marker, seen from where it begins. */
  lemma DropGap(re: seq<Piece>, s: string, i: nat, spans: seq<Span>, k: nat, j: nat)
    requires InOrder(s, i, spans) && Derives(re, Splice(s, i, spans), k, j)
    requires spans != [] ==> i + k <= spans[0].start
    ensures k <= j && i + k <= |s| && InOrder(s, i + k, spans)
    ensures Derives(re, Splice(s, i + k, spans), 0, j - k)
  {
    var t := Splice(s, i, spans);
    DerivesRange(re, t, k, j);
    SkipGap(s, i, spans, k);
    assert t == t[..k] + t[k..];
    DropPrefix(re, t[..k], t[k..], k, j);
  }

  lemma UncoveredCons(a: nat, spans: seq<Span>)
    requires spans != [] && spans[0].end <= a && Uncovered(a, spans[1..])
    ensures Uncovered(a, spans)
  {
    forall k | 0 <= k < |spans| ensures !(spans[k].start <= a < spans[k].end) {
      if k > 0 { assert spans[k] == spans[1..][k - 1]; }
    }
  }

  lemma {:induction false} UncoveredBefore(s: string, i: nat, spans: seq<Span>, a: nat)
    requires InOrder(s, i, spans) && (spans != [] ==> a < spans[0].start)
    ensures Uncovered(a, spans)
    decreases |spans|
  {
    if spans != [] {
      UncoveredBefore(s, spans[0].end, spans[1..], a);
      forall k | 0 <= k < |spans| ensures !(spans[k].start <= a < spans[k].end) {
        if k > 0 { assert spans[k] == spans[1..][k - 1]; }
      }
    }
  }

  /** Before its first marker the result is a copy. */
  lemma SkipGap(s: string, i: nat, spans: seq<Span>, k: nat)
    requires InOrder(s, i, spans) && i + k <= if spans == [] then |s| else spans[0].start
    ensures InOrder(s, i + k, spans)
    ensures k <= |Splice(s, i, spans)|
    ensures Splice(s, i, spans)[..k] == s[i..i + k]
    ensures Splice(s, i, spans)[k..] == Splice(s, i + k, spans)
  {
    if spans != [] {
      var start := spans[0].start;
      var tail := Splice(s, spans[0].end, spans[1..]);
      CutSum(s[i..start], REDACTED, tail, k);
      SliceOfSlice(s, i, start, k);
    }
  }

  lemma SliceOfSlice(s: string, i: nat, j: nat, k: nat)
    requires i + k <= j <= |s|
    ensures s[i..j][..k] == s[i..i + k] && s[i..j][k..] == s[i + k..j]
  {
  }

  lemma CutSum(a: string, b: string, c: string, k: nat)
    requires k <= |a|
    ensures (a + b + c)[..k] == a[..k] && (a + b + c)[k..] == a[k..] + b + c
  {
  }

  lemma StartNotInMarker(q: Pattern, gap: string, rest: string, k: nat, j: nat)
    requires |gap| <= k && Occurs(q, gap + REDACTED + rest, k, j)
    ensures |gap + REDACTED| <= k
  {
    StartOfMatch(q, gap + REDACTED + rest, k, j);
    if k < |gap + REDACTED| {
      MarkerHoldsNoStart(k - |gap|);
    }
  }

  /** A stretch without an opening bracket ends before the first marker. */
  lemma StopsAtMarker(s: string, i: nat, spans: seq<Span>, j: nat)
    requires InOrder(s, i, spans) && j <= |Splice(s, i, spans)|
    requires forall k :: 0 <= k < j ==> Splice(s, i, spans)[k] != '['
    ensures i + j <= if spans == [] then |s| else spans[0].start
  {
    if spans != [] {
      MarkerStands(s, i, spans);
    }
  }

  lemma MarkerStands(s: string, i: nat, spans: seq<Span>)
    requires InOrder(s, i, spans) && spans != []
    ensures var g := spans[0].start - i; g < |Splice(s, i, spans)| && Splice(s, i, spans)[g] == '['
  {
    assert REDACTED[0] == '[';
    assert (s[i..spans[0].start] + REDACTED)[spans[0].start - i] == REDACTED[0];
  }

  lemma CopiedMatch(re: seq<Piece>, s: string, i: nat, spans: seq<Span>, j: nat)
    requires InOrder(s, i, spans) && Avoids(re, '[') && Derives(re, Splice(s, i, spans), 0, j)
    ensures i + j <= (if spans == [] then |s| else spans[0].start) && Derives(re, s, i, i + j)
  {
    var t := Splice(s, i, spans);
    AvoidsMatch(re, '[', t, 0, j);
    forall k | 0 <= k < j ensures t[k] != '[' { assert t[0..j][k] == t[k]; }
    StopsAtMarker(s, i, spans, j);
    SkipGap(s, i, spans, j);
    assert t[0..j] == t[..j];
    Transfer(re, t, 0, j, s, i);
  }

  lemma WasHere(p: Pattern, q: Pattern, s: string, i: nat, spans: seq<Span>, j: nat) returns (b: nat)
    requires InOrder(s, i, spans) && Genuine(p, s, spans) && Occurs(q, Splice(s, i, spans), 0, j)
    ensures Occurs(q, s, i, b)
  {
    if IsDsn(q) {
      HeadAvoids(q);
      b := HeadAndTailWereHere(p, DsnHead(q), MinUser(q), s, i, spans, j);
    } else {
      KeyAvoids(q, '[');
      CopiedMatch(Expression(q), s, i, spans, j);
      b := i + j;
    }
  }

  lemma KeyAvoids(q: Pattern, c: char)
    requires !IsDsn(q) && (c == '[' || c == ':' || c == '@')
    ensures Avoids(Expression(q), c)
  {
    assert c !in "sk-" && c !in "sk-ant-" && c !in "bearer" && c !in "eyJ" && c !in ".";
    match q
    case OpenAiKey =>
    case AnthropicKey =>
    case BearerToken =>
    case Jwt =>
  }

  lemma HeadAvoids(q: Pattern)
    requires IsDsn(q)
    ensures Avoids(DsnHead(q), '[') && Avoids(SchemeName(q), ':')
  {
  }

  lemma HeadAndTailWereHere(p: Pattern, head: seq<Piece>, minUser: nat, s: string, i: nat, spans: seq<Span>, j: nat)
      returns (b: nat)
    requires InOrder(s, i, spans) && Genuine(p, s, spans) && minUser <= 1 && Avoids(head, '[')
    requires Derives(head + DsnTail(minUser), Splice(s, i, spans), 0, j)
    ensures Derives(head + DsnTail(minUser), s, i, b)
  {
    var m := HeadWasHere(head, DsnTail(minUser), s, i, spans, j);
    b := TailBehind(p, minUser, s, i, spans, m, j);
    JoinMatches(head, DsnTail(minUser), s, i, i + m, b);
  }

  lemma HeadWasHere(head: seq<Piece>, tail: seq<Piece>, s: string, i: nat, spans: seq<Span>, j: nat) returns (m: nat)
    requires InOrder(s, i, spans) && Avoids(head, '[') && Derives(head + tail, Splice(s, i, spans), 0, j)
    ensures i + m <= (if spans == [] then |s| else spans[0].start) && Derives(head, s, i, i + m)
    ensures Derives(tail, Splice(s, i, spans), m, j)
  {
    var t := Splice(s, i, spans);
    SplitMatch(head, tail, t, 0, j);
    m :| Derives(head, t, 0, m) && Derives(tail, t, m, j);
    CopiedMatch(head, s, i, spans, m);
  }

  lemma TailBehind(p: Pattern, minUser: nat, s: string, i: nat, spans: seq<Span>, m: nat, j: nat)
      returns (b: nat)
    requires InOrder(s, i, spans) && Genuine(p, s, spans) && minUser <= 1
    requires i + m <= if spans == [] then |s| else spans[0].start
    requires Derives(DsnTail(minUser), Splice(s, i, spans), m, j)
    ensures Derives(DsnTail(minUser), s, i + m, b)
  {
    DropGap(DsnTail(minUser), s, i, spans, m, j);
    b := TailWasHere(p, minUser, s, i + m, spans, j - m);
  }

  // ----- the DSN tail ---------------------------------------------------------------------

  /** `c` is the colon that ends the user part of a DSN whose tail begins at `h`: the password
      is not empty and an at-sign closes it at `w` or before. */
  ghost predicate TailAt(s: string, h: nat, c: nat, w: nat) {
    h <= c && c + 1 < w < |s| &&
    AllIn(NotColon, s, h, c) && s[c] == ':' && s[c + 1] != '@' && s[w] == '@'
  }

  lemma TailShape(minUser: nat, s: string, h: nat, j: nat) returns (c: nat, w: nat)
    requires Derives(DsnTail(minUser), s, h, j)
    ensures TailAt(s, h, c, w) && h + minUser <= c && w + 1 == j
  {
    var re := DsnTail(minUser);
    var password := [AtLeast(NotAt, 1), Lit("@")];
    assert re[1..] == [Lit(":")] + password;
    var k: nat :| Takes(re[0], s, h, k) && Derives(re[1..], s, k, j);
    var k': nat :| Takes(re[1..][0], s, k, k') && Derives(re[1..][1..], s, k', j);
    assert re[1..][1..] == password;
    var m: nat :| Takes(password[0], s, k', m) && Derives(password[1..], s, m, j);
    assert s[k + 0] == ":"[0];
    assert password[1..] == [Lit("@")];
    var m': nat :| Takes(password[1..][0], s, m, m') && Derives(password[1..][1..], s, m', j);
    assert s[m + 0] == "@"[0];
    c, w := k, m;
  }

  lemma TailHolds(minUser: nat, s: string, h: nat, c: nat, w: nat) returns (j: nat)
    requires TailAt(s, h, c, w) && h + minUser <= c
    ensures Derives(DsnTail(minUser), s, h, j)
  {
    var m := RunEnd(NotAt, s, c + 1);
    RunCovers(NotAt, s, c + 1, c + 2);
    assert m < |s| by {
      assert !AllIn(NotAt, s, c + 1, |s|);
    }
    j := m + 1;
    var close := [Lit("@")] + [];
    Prepend(Lit("@"), [], s, m, j, j);
    var password := [AtLeast(NotAt, 1)] + close;
    Prepend(AtLeast(NotAt, 1), close, s, c + 1, m, j);
    var colon := [Lit(":")] + password;
    Prepend(Lit(":"), password, s, c, c + 1, j);
    Prepend(AtLeast(NotColon, minUser), colon, s, h, c, j);
    assert [AtLeast(NotColon, minUser)] + colon == DsnTail(minUser);
  }

  lemma TailWasHere(p: Pattern, minUser: nat, s: string, h: nat, spans: seq<Span>, j: nat) returns (b: nat)
    requires InOrder(s, h, spans) && Genuine(p, s, spans) && minUser <= 1
    requires Derives(DsnTail(minUser), Splice(s, h, spans), 0, j)
    ensures Derives(DsnTail(minUser), s, h, b)
  {
    var c, w := TailShape(minUser, Splice(s, h, spans), 0, j);
    var c', w' := TailOrigin(p, s, h, spans, c, w);
    b := TailHolds(minUser, s, h, c', w');
  }

  lemma KeyHoldsNoColon(p: Pattern, s: string, i: nat, j: nat)
    requires !IsDsn(p) && Occurs(p, s, i, j)
    ensures i <= j <= |s| && ':' !in s[i..j]
  {
    KeyAvoids(p, ':');
    AvoidsMatch(Expression(p), ':', s, i, j);
  }

  /** A DSN brings a tail of its own: its first colon ends the scheme. */
  lemma DsnHasTail(p: Pattern, s: string, i: nat, j: nat)
    requires IsDsn(p) && Occurs(p, s, i, j)
    ensures exists c: nat, w: nat :: i < c && TailAt(s, i, c, w)
  {
    StartOfMatch(p, s, i, j);
    HeadAvoids(p);
    var c, w := ColonAfterName(SchemeName(p), MinUser(p), s, i, j);
  }

  lemma ColonAfterName(name: seq<Piece>, minUser: nat, s: string, i: nat, j: nat) returns (c: nat, w: nat)
    requires Avoids(name, ':') && i < |s| && StartsSecret(s[i])
    requires Derives(name + [Lit("://")] + DsnTail(minUser), s, i, j)
    ensures i < c && TailAt(s, i, c, w)
  {
    SplitMatch(name + [Lit("://")], DsnTail(minUser), s, i, j);
    var m: nat :| Derives(name + [Lit("://")], s, i, m) && Derives(DsnTail(minUser), s, m, j);
    var c', w' := TailShape(minUser, s, m, j);
    SplitMatch(name, [Lit("://")], s, i, m);
    c, w :| Derives(name, s, i, c) && Derives([Lit("://")], s, c, m) && w == w';
    AvoidsMatch(name, ':', s, i, c);
    SchemeEnds(s, c, m);
    forall k | i <= k < c ensures s[k] != ':' { assert s[k] == s[i..c][k - i]; }
  }

  lemma SchemeEnds(s: string, c: nat, m: nat)
    requires Derives([Lit("://")], s, c, m)
    ensures c + 1 < m <= |s| && s[c] == ':' && s[c + 1] == '/'
  {
    var re, text := [Lit("://")], "://";
    var k: nat :| Takes(re[0], s, c, k) && Derives(re[1..], s, k, m);
    assert s[c + 0] == text[0] && s[c + 1] == text[1];
    assert re[1..] == [];
  }

  /** The first colon after a pass is either a colon that was first before it, or the text held
      a whole DSN earlier on, whose colon and at-sign serve as well. */
  lemma {:induction false} TailOrigin(p: Pattern, s: string, h: nat, spans: seq<Span>, c: nat, w: nat)
      returns (c': nat, w': nat)
    requires InOrder(s, h, spans) && Genuine(p, s, spans) && TailAt(Splice(s, h, spans), 0, c, w)
    ensures TailAt(s, h, c', w') && (c > 0 ==> c' > h)
    decreases |spans|
  {
    if spans == [] {
      c', w' := h + c, h + w;
      TailCopied(s, h, c, w);
    } else if c < spans[0].start - h {
      c', w' := TailInGap(p, s, h, spans, c, w);
    } else {
      var start, end := spans[0].start, spans[0].end;
      var gap, rest := s[h..start], Splice(s, end, spans[1..]);
      var n := |gap + REDACTED|;
      MarkerIsPassed(gap, rest, c, w);
      if IsDsn(p) {
        DsnHasTail(p, s, start, end);
        c', w' :| start < c' && TailAt(s, start, c', w');
        TailExtend(s, h, start, c', w');
      } else {
        c', w' := TailOrigin(p, s, end, spans[1..], c - n, w - n);
        KeyHoldsNoColon(p, s, start, end);
        TailExtend(s, start, end, c', w');
        TailExtend(s, h, start, c', w');
      }
    }
  }

  lemma TailCopied(s: string, h: nat, c: nat, w: nat)
    requires h <= |s| && TailAt(s[h..], 0, c, w)
    ensures TailAt(s, h, h + c, h + w)
  {
    forall k | h <= k < h + c ensures s[k] != ':' { assert s[h..][k - h] != ':'; }
  }

  lemma GapIsCopied(s: string, h: nat, spans: seq<Span>)
    requires InOrder(s, h, spans) && spans != []
    ensures s[h..spans[0].start] <= Splice(s, h, spans)
  {
  }

  lemma FirstIsGenuine(p: Pattern, s: string, spans: seq<Span>)
    requires Genuine(p, s, spans) && spans != []
    ensures Occurs(p, s, spans[0].start, spans[0].end)
  {
  }

  lemma TailInGap(p: Pattern, s: string, h: nat, spans: seq<Span>, c: nat, w: nat) returns (c': nat, w': nat)
    requires InOrder(s, h, spans) && Genuine(p, s, spans) && TailAt(Splice(s, h, spans), 0, c, w)
    requires spans != [] && c < spans[0].start - h
    ensures TailAt(s, h, c', w') && c' == h + c
  {
    hide Splice, Occurs, Genuine;
    c' := h + c;
    w' := AtSignOrigin(s, h, spans, w);
    GapIsCopied(s, h, spans);
    FirstIsGenuine(p, s, spans);
    StartOfMatch(p, s, spans[0].start, spans[0].end);
    ColonCopied(s, h, spans[0].start, Splice(s, h, spans), c);
  }

  lemma ColonCopied(s: string, h: nat, start: nat, t: string, c: nat)
    requires h + c < start < |s| && s[h..start] <= t && c + 1 < |t|
    requires AllIn(NotColon, t, 0, c) && t[c] == ':' && t[c + 1] != '@' && s[start] != '@'
    ensures AllIn(NotColon, s, h, h + c) && s[h + c] == ':' && s[h + c + 1] != '@'
  {
    forall k | h <= k < start ensures s[k] == t[k - h] { assert s[h..start][k - h] == t[k - h]; }
  }

  lemma MarkerIsPassed(gap: string, rest: string, c: nat, w: nat)
    requires TailAt(gap + REDACTED + rest, 0, c, w) && |gap| <= c
    ensures ':' !in gap && |gap + REDACTED| <= c
    ensures TailAt(rest, 0, c - |gap + REDACTED|, w - |gap + REDACTED|)
  {
    var t, n := gap + REDACTED + rest, |gap + REDACTED|;
    forall k | 0 <= k < |gap| ensures gap[k] != ':' { assert gap[k] == t[k]; }
    forall k | |gap| <= k < n ensures t[k] != ':' { MarkerHoldsNoStart(k - |gap|); }
    forall k | 0 <= k < c - n ensures rest[k] != ':' { assert rest[k] == t[n + k]; }
  }

  lemma TailExtend(s: string, h: nat, e: nat, c: nat, w: nat)
    requires h <= e <= |s| && ':' !in s[h..e] && TailAt(s, e, c, w)
    ensures TailAt(s, h, c, w)
  {
    forall k | h <= k < c ensures s[k] != ':' {
      if k < e { assert s[k] == s[h..e][k - h]; }
    }
  }

  /** An at-sign after a pass was there before it, on the same side of the first marker. */
  lemma {:induction false} AtSignOrigin(s: string, i: nat, spans: seq<Span>, w: nat) returns (w': nat)
    requires InOrder(s, i, spans) && w < |Splice(s, i, spans)| && Splice(s, i, spans)[w] == '@'
    ensures i <= w' < |s| && s[w'] == '@'
    ensures if spans == [] || w < spans[0].start - i then w' == i + w else spans[0].end <= w'
    decreases |spans|
  {
    if spans == [] || w < spans[0].start - i {
      w' := i + w;
    } else {
      var n := |s[i..spans[0].start] + REDACTED|;
      if w < n { MarkerHoldsNoStart(w - (spans[0].start - i)); }
      w' := AtSignOrigin(s, spans[0].end, spans[1..], w - n);
    }
  }

  // ----- the passes together --------------------------------------------------------------

  /** A pass leaves no match of its own pattern. */
  lemma PassRemovesOwn(p: Pattern, s: string)
    ensures NoMatch(p, Sub(p, s))
  {
    forall i: nat, j: nat ensures !Occurs(p, Sub(p, s), i, j) {
      if Occurs(p, Sub(p, s), i, j) {
        SpansAreGenuine(p, s, 0);
        var a, b := NothingNew(p, p, s, 0, Spans(p, s, 0), i, j);
        SpansAreAll(p, s, 0, a, b);
      }
    }
  }

  /** A pass creates no match of any pattern. */
  lemma PassCreatesNone(p: Pattern, q: Pattern, s: string)
    requires NoMatch(q, s)
    ensures NoMatch(q, Sub(p, s))
  {
    forall i: nat, j: nat ensures !Occurs(q, Sub(p, s), i, j) {
      if Occurs(q, Sub(p, s), i, j) {
        SpansAreGenuine(p, s, 0);
        var a, b := NothingNew(p, q, s, 0, Spans(p, s, 0), i, j);
      }
    }
  }

  lemma {:induction false} PassesKeepClean(passes: seq<Pattern>, q: Pattern, s: string)
    requires NoMatch(q, s)
    ensures NoMatch(q, Apply(passes, s))
    decreases |passes|
  {
    if passes != [] {
      PassCreatesNone(passes[0], q, s);
      PassesKeepClean(passes[1..], q, Sub(passes[0], s));
    }
  }

  /** Any list of passes, in any order, leaves no match of any pattern in the list. */
  lemma {:induction false} AnyOrderLeavesNoMatch(passes: seq<Pattern>, q: Pattern, s: string)
    requires q in passes
    ensures NoMatch(q, Apply(passes, s))
    decreases |passes|
  {
    if passes[0] == q {
      PassRemovesOwn(q, s);
      PassesKeepClean(passes[1..], q, Sub(q, s));
    } else {
      AnyOrderLeavesNoMatch(passes[1..], q, Sub(passes[0], s));
    }
  }

  lemma {:induction false} ApplySplits(a: seq<Pattern>, b: seq<Pattern>, s: string)
    ensures Apply(a + b, s) == Apply(b, Apply(a, s))
    decreases |a|
  {
    if a == [] {
      assert a + b == b;
    } else {
      assert (a + b)[1..] == a[1..] + b;
      ApplySplits(a[1..], b, Sub(a[0], s));
    }
  }

  lemma ScrubInStages(n: nat, s: string)
    requires n < |VALUE_PATTERNS|
    ensures ScrubText(s) == Apply(VALUE_PATTERNS[n + 1..], Sub(VALUE_PATTERNS[n], Apply(VALUE_PATTERNS[..n], s)))
  {
    StagesOf(VALUE_PATTERNS, n, s);
  }

  lemma StagesOf(passes: seq<Pattern>, n: nat, s: string)
    requires n < |passes|
    ensures Apply(passes, s) == Apply(passes[n + 1..], Sub(passes[n], Apply(passes[..n], s)))
  {
    assert passes == passes[..n] + passes[n..];
    ApplySplits(passes[..n], passes[n..], s);
    assert passes[n..][0] == passes[n] && passes[n..][1..] == passes[n + 1..];
  }

  /** No residue: scrubbed text contains no substring of any of the six shapes. */
  lemma ScrubLeavesNoResidue(s: string)
    ensures Clean(ScrubText(s))
  {
    forall q: Pattern ensures NoMatch(q, ScrubText(s)) {
      var k := match q
        case OpenAiKey => 0 case AnthropicKey => 1 case BearerToken => 2
        case Jwt => 3 case PostgresDsn => 4 case RedisDsn => 5;
      assert VALUE_PATTERNS[k] == q;
      AnyOrderLeavesNoMatch(VALUE_PATTERNS, q, s);
    }
  }

  /** The loop of `_scrub_value` over the patterns. */
  method ScrubString(value: string) returns (scrubbed: string)
    ensures scrubbed == ScrubText(value) && Clean(scrubbed)
  {
    scrubbed := value;
    for i := 0 to |VALUE_PATTERNS|
      invariant Apply(VALUE_PATTERNS[i..], scrubbed) == ScrubText(value)
    {
      assert VALUE_PATTERNS[i..][1..] == VALUE_PATTERNS[i + 1..];
      scrubbed := Sub(VALUE_PATTERNS[i], scrubbed);
    }
    assert VALUE_PATTERNS[|VALUE_PATTERNS|..] == [];
    ScrubLeavesNoResidue(value);
  }

  // ----- text without secrets ---------------------------------------------------------------

  lemma NoSpan(p: Pattern, s: string, span: Span)
    requires NoMatch(p, s)
    ensures !Occurs(p, s, span.start, span.end)
  {
  }

  lemma PassKeepsPlain(p: Pattern, s: string)
    requires NoMatch(p, s)
    ensures Sub(p, s) == s
  {
    SpansAreGenuine(p, s, 0);
    var spans := Spans(p, s, 0);
    assert spans == [] by {
      if spans != [] {
        NoSpan(p, s, spans[0]);
      }
    }
  }

  lemma {:induction false} PassesKeepPlain(passes: seq<Pattern>, s: string)
    requires forall p :: p in passes ==> NoMatch(p, s)
    ensures Apply(passes, s) == s
    decreases |passes|
  {
    if passes != [] {
      PassKeepsPlain(passes[0], s);
      PassesKeepPlain(passes[1..], s);
    }
  }

  /** Scrubbing changes a text exactly when it contains a secret. */
  lemma UnchangedIffNoResidue(s: string)
    ensures ScrubText(s) == s <==> Clean(s)
  {
    ScrubLeavesNoResidue(s);
    if Clean(s) {
      PassesKeepPlain(VALUE_PATTERNS, s);
    }
  }

  lemma ScrubTextIdempotent(s: string)
    ensures ScrubText(ScrubText(s)) == ScrubText(s)
  {
    ScrubLeavesNoResidue(s);
    UnchangedIffNoResidue(ScrubText(s));
  }

  /** Every `sk-ant-` key is already an `sk-` key, so the second pass never finds anything. */
  lemma AnthropicIsOpenAi(s: string, i: nat, j: nat)
    requires Occurs(AnthropicKey, s, i, j)
    ensures Occurs(OpenAiKey, s, i, j)
  {
    var re, text := Expression(AnthropicKey), "sk-ant-";
    var m: nat :| Takes(re[0], s, i, m) && Derives(re[1..], s, m, j);
    assert re[1..] == [AtLeast(Word, 16)];
    var k: nat :| Takes(re[1..][0], s, m, k) && Derives(re[1..][1..], s, k, j);
    assert At("sk-", s, i) by {
      forall n | 0 <= n < 3 ensures s[i + n] == "sk-"[n] { assert s[i + n] == text[n]; }
    }
    assert AllIn(Word, s, i + 3, k) by {
      forall n | i + 3 <= n < i + 7 ensures In(Word, s[n]) { assert s[i + (n - i)] == text[n - i]; }
    }
    Prepend(AtLeast(Word, 16), [], s, i + 3, k, j);
    Prepend(Lit("sk-"), [AtLeast(Word, 16)] + [], s, i, i + 3, j);
    assert [Lit("sk-")] + ([AtLeast(Word, 16)] + []) == Expression(OpenAiKey);
  }

  lemma SecondPassNeverFires(s: string)
    ensures Sub(AnthropicKey, Sub(OpenAiKey, s)) == Sub(OpenAiKey, s)
  {
    var t := Sub(OpenAiKey, s);
    PassRemovesOwn(OpenAiKey, s);
    forall i: nat, j: nat ensures !Occurs(AnthropicKey, t, i, j) {
      if Occurs(AnthropicKey, t, i, j) { AnthropicIsOpenAi(t, i, j); }
    }
    PassKeepsPlain(AnthropicKey, t);
  }

  /** On the six expressions, backtracking finds the longest match in the language. */
  lemma PatternsAreDeterminate(p: Pattern, s: string, i: nat, j: nat)
    requires Occurs(p, s, i, j)
    ensures i <= |s| && FindAt(p, s, i).Some? && j <= FindAt(p, s, i).value
    ensures Occurs(p, s, i, FindAt(p, s, i).value)
  {
    DeterminateExpression(p);
    EngineFindsLongest(Expression(p), s, i, j);
    EngineIsSound(Expression(p), s, i);
  }

  lemma DeterminateExpression(p: Pattern)
    ensures Determinate(Expression(p))
  {
  }

  // ----- short texts ------------------------------------------------------------------------

  function MinWidth(re: seq<Piece>): nat {
    if re == [] then 0
    else
      (match re[0]
       case Lit(text) => |text|
       case FoldLit(text) => |text|
       case Maybe(_) => 0
       case AtLeast(_, min) => min) + MinWidth(re[1..])
  }

  lemma {:induction false} MatchIsWide(re: seq<Piece>, s: string, i: nat, j: nat)
    requires Derives(re, s, i, j)
    ensures i + MinWidth(re) <= j
    decreases |re|
  {
    if re != [] {
      var m: nat :| Takes(re[0], s, i, m) && Derives(re[1..], s, m, j);
      MatchIsWide(re[1..], s, m, j);
    }
  }

  lemma KeyIsWide(p: Pattern)
    requires !IsDsn(p)
    ensures MinWidth(Expression(p)) >= 19
  {
    var rest := Expression(p)[1..];
    match p
    case OpenAiKey => assert rest == [AtLeast(Word, 16)];
    case AnthropicKey => assert rest == [AtLeast(Word, 16)];
    case BearerToken =>
      assert rest[1..] == [AtLeast(TokenChar, 16)];
      assert MinWidth(rest[1..]) >= 16 && MinWidth(rest) >= 17;
    case Jwt =>
      assert rest == [AtLeast(Word, 10), Lit("."), AtLeast(Word, 10), Lit("."), AtLeast(Word, 10)];
      assert rest[1..][1..][0] == AtLeast(Word, 10);
      assert MinWidth(rest[1..][1..]) >= 10 && MinWidth(rest[1..]) >= 11 && MinWidth(rest) >= 21;
  }

  /** A text of fewer than 19 characters without a colon is no secret and holds none. */
  lemma ShortTextIsClean(s: string)
    requires |s| < 19 && ':' !in s
    ensures Clean(s)
  {
    forall p: Pattern, i: nat, j: nat ensures !Occurs(p, s, i, j) {
      if Occurs(p, s, i, j) {
        if IsDsn(p) {
          DsnHoldsColon(p, s, i, j);
        } else {
          StartOfMatch(p, s, i, j);
          MatchIsWide(Expression(p), s, i, j);
          KeyIsWide(p);
        }
      }
    }
  }

  lemma DsnHoldsColon(p: Pattern, s: string, i: nat, j: nat)
    requires IsDsn(p) && Occurs(p, s, i, j)
    ensures ':' in s
  {
    DsnHasTail(p, s, i, j);
    var c, w :| i < c && TailAt(s, i, c, w);
    assert s[c] in s;
  }
}
