/** The content of a secret does not matter: put another secret of the same shape in its place and
    the pass gives the same text. This holds for each of the six patterns, whatever stands around
    the secret. */
module Interchange {
  import opened Wrappers
  import opened Regex
  import opened Redactor
  import opened NoResidue
  import opened LeftmostLongest
  import opened OnlySecrets

  // ----- where two matches from one place can end -------------------------------------------

  predicate EndsInRun(re: seq<Piece>) {
    re != [] && re[|re| - 1].AtLeast?
  }

  /** A determinate expression leaves open only how far its last run goes. */
  lemma {:induction false} TwoEnds(re: seq<Piece>, s: string, i: nat, a: nat, b: nat)
    requires Determinate(re) && Derives(re, s, i, a) && Derives(re, s, i, b) && a < b
    ensures EndsInRun(re) && b <= |s| && AllIn(re[|re| - 1].cls, s, a, b)
    decreases |re|
  {
    DerivesRange(re, s, i, a);
    DerivesRange(re, s, i, b);
    if re != [] {
      var rest := re[1..];
      var m: nat :| Takes(re[0], s, i, m) && Derives(rest, s, m, a);
      var n: nat :| Takes(re[0], s, i, n) && Derives(rest, s, n, b);
      DerivesRange(rest, s, m, a);
      DerivesRange(rest, s, n, b);
      if rest != [] {
        ChoicesAreExact(re[0], s, i, m);
        ChoicesAreExact(re[0], s, i, n);
        FirstChoiceIsBest(re, s, i, m, a);
        FirstChoiceIsBest(re, s, i, n, b);
        assert Determinate(rest) by {
          forall k | 0 <= k < |rest| ensures rest[k] == re[k + 1] {}
        }
        TwoEnds(rest, s, m, a, b);
      }
    }
  }

  lemma {:induction false} ExtendRun(re: seq<Piece>, s: string, i: nat, j: nat)
    requires EndsInRun(re) && Derives(re, s, i, j) && j < |s| && In(re[|re| - 1].cls, s[j])
    ensures Derives(re, s, i, j + 1)
    decreases |re|
  {
    var rest := re[1..];
    var m: nat :| Takes(re[0], s, i, m) && Derives(rest, s, m, j);
    if rest == [] {
      assert Takes(re[0], s, i, j + 1) && Derives(rest, s, j + 1, j + 1);
    } else {
      ExtendRun(rest, s, m, j);
    }
  }

  // ----- matches that reach into the secret -------------------------------------------------

  /** A match that stands at the beginning of `re` where the secret starts with `f` can only be
      inside a run, and can then be completed within the secret `k`. */
  ghost predicate Resumes(re: seq<Piece>, f: char, k: string)
    decreases |re|
  {
    re == [] ||
    ((match re[0]
      case Lit(text) => f !in text
      case Maybe(text) => f !in text
      case FoldLit(_) => false
      case AtLeast(cls, _) => In(cls, f) ==> exists e: nat :: 0 < e && Derives(re, k, 0, e)) &&
     Resumes(re[1..], f, k))
  }

  /** A match that reaches from before a secret into it would reach into any other one. */
  lemma {:induction false} Cross(re: seq<Piece>, u: string, k': string, k: string, v: string, i: nat, j: nat)
      returns (e: nat)
    requires k' != "" && Resumes(re, k'[0], k) && i <= |u| < j && Derives(re, u + k' + v, i, j)
    ensures |u| < e && Derives(re, u + k + v, i, e)
    decreases |re|
  {
    var t', t := u + k' + v, u + k + v;
    var m: nat :| Takes(re[0], t', i, m) && Derives(re[1..], t', m, j);
    DerivesRange(re[1..], t', m, j);
    if m <= |u| {
      CopyTakes(re[0], u, k', k, v, i, m);
      e := Cross(re[1..], u, k', k, v, m, j);
    } else {
      RunReachesInto(re[0], u, k', v, i, m);
      var e': nat :| 0 < e' && Derives(re, k, 0, e');
      e := |u| + e';
      Resume(re, u, k, v, i, e');
    }
  }

  lemma CopyTakes(piece: Piece, u: string, k': string, k: string, v: string, i: nat, m: nat)
    requires Takes(piece, u + k' + v, i, m) && m <= |u|
    ensures Takes(piece, u + k + v, i, m)
  {
    var t', t := u + k' + v, u + k + v;
    assert i <= m;
    forall n | i <= n < m ensures t'[n] == t[i + (n - i)] {}
    TransferTakes(piece, t', i, m, t, i);
  }

  lemma RunReachesInto(piece: Piece, u: string, k': string, v: string, i: nat, m: nat)
    requires k' != "" && Takes(piece, u + k' + v, i, m) && i <= |u| < m
    requires piece.Lit? || piece.Maybe? ==> k'[0] !in piece.text
    requires !piece.FoldLit?
    ensures piece.AtLeast? && In(piece.cls, k'[0]) && AllIn(piece.cls, u, i, |u|)
  {
    var t' := u + k' + v;
    assert t'[|u|] == k'[0];
    if piece.AtLeast? {
      forall n | i <= n < |u| ensures In(piece.cls, u[n]) { assert t'[n] == u[n]; }
    } else {
      LiteralShows(piece, t', i, m, |u|);
    }
  }

  lemma LiteralShows(piece: Piece, t: string, i: nat, m: nat, n: nat)
    requires (piece.Lit? || piece.Maybe?) && Takes(piece, t, i, m) && i <= n < m
    ensures n < |t| && t[n] in piece.text
  {
    assert t[i + (n - i)] == piece.text[n - i];
  }

  lemma Resume(re: seq<Piece>, u: string, k: string, v: string, i: nat, e: nat)
    requires re != [] && re[0].AtLeast? && i <= |u| && AllIn(re[0].cls, u, i, |u|) && Derives(re, k, 0, e)
    ensures Derives(re, u + k + v, i, |u| + e)
  {
    var t := u + k + v;
    var m: nat :| Takes(re[0], k, 0, m) && Derives(re[1..], k, m, e);
    DerivesRange(re[1..], k, m, e);
    assert Takes(re[0], t, i, |u| + m) by {
      forall n | i <= n < |u| + m ensures In(re[0].cls, t[n]) {
        assert t[n] == if n < |u| then u[n] else k[n - |u|];
      }
    }
    assert k[m..e] == t[|u| + m..|u| + e];
    Transfer(re[1..], k, m, e, t, |u| + m);
  }

  // ----- the six patterns -------------------------------------------------------------------

  /** The pieces behind the first literal. */
  function Behind(p: Pattern): seq<Piece> {
    match p
    case OpenAiKey => [AtLeast(Word, 16)]
    case AnthropicKey => [AtLeast(Word, 16)]
    case BearerToken => [AtLeast(Space, 1), AtLeast(TokenChar, 16)]
    case Jwt => [AtLeast(Word, 10), Lit("."), AtLeast(Word, 10), Lit("."), AtLeast(Word, 10)]
    case PostgresDsn => [Maybe("ql"), Lit("://"), AtLeast(NotColon, 1), Lit(":"), AtLeast(NotAt, 1), Lit("@")]
    case RedisDsn => [Lit("://"), AtLeast(NotColon, 0), Lit(":"), AtLeast(NotAt, 1), Lit("@")]
  }

  function First(p: Pattern): Piece {
    match p
    case OpenAiKey => Lit("sk-")
    case AnthropicKey => Lit("sk-ant-")
    case BearerToken => FoldLit("bearer")
    case Jwt => Lit("eyJ")
    case PostgresDsn => Lit("postgres")
    case RedisDsn => Lit("redis")
  }

  lemma FirstAndBehind(p: Pattern)
    ensures Expression(p) == [First(p)] + Behind(p)
    ensures Expression(p)[0] == First(p) && Expression(p)[1..] == Behind(p)
  {
  }

  /** Split a whole secret behind its first literal. */
  lemma SplitFirst(p: Pattern, k: string, i: nat, j: nat) returns (m: nat)
    requires Occurs(p, k, i, j)
    ensures Takes(First(p), k, i, m) && Derives(Behind(p), k, m, j) && m <= j <= |k|
  {
    FirstAndBehind(p);
    m :| Takes(First(p), k, i, m) && Derives(Behind(p), k, m, j);
    DerivesRange(Behind(p), k, m, j);
  }

  lemma SkKeyResumes(p: Pattern, k: string)
    requires (p == OpenAiKey || p == AnthropicKey) && Occurs(p, k, 0, |k|)
    ensures Resumes(Behind(p), 's', k)
  {
    var m := SplitFirst(p, k, 0, |k|);
    var e: nat :| Takes(AtLeast(Word, 16), k, m, e) && Derives(Behind(p)[1..], k, e, |k|);
    var text := First(p).text;
    forall n | 0 <= n < m ensures In(Word, k[n]) { assert k[0 + n] == text[n]; }
    assert Takes(AtLeast(Word, 16), k, 0, e);
    assert Derives(Behind(p), k, 0, |k|);
    assert Behind(p)[1..] == [];
  }

  lemma ResumesCons(piece: Piece, rest: seq<Piece>, f: char, k: string)
    requires Resumes(rest, f, k) && !piece.FoldLit?
    requires piece.Lit? || piece.Maybe? ==> f !in piece.text
    requires piece.AtLeast? && In(piece.cls, f) ==> exists e: nat :: 0 < e && Derives([piece] + rest, k, 0, e)
    ensures Resumes([piece] + rest, f, k)
  {
    assert ([piece] + rest)[1..] == rest;
  }

  lemma RunResumes(piece: Piece, rest: seq<Piece>, f: char, k: string, m: nat, e: nat)
    requires Resumes(rest, f, k) && piece.AtLeast?
    requires Takes(piece, k, 0, m) && Derives(rest, k, m, e) && 0 < e
    ensures Resumes([piece] + rest, f, k)
  {
    Prepend(piece, rest, k, 0, m, e);
    ResumesCons(piece, rest, f, k);
  }

  /** Where the three segments of a token end, the first one seen from the beginning. */
  lemma Segments(k: string) returns (a: nat, b: nat, c: nat)
    requires Occurs(Jwt, k, 0, |k|)
    ensures var run, dot := AtLeast(Word, 10), Lit(".");
      Takes(run, k, 0, a) && Takes(dot, k, a, b) && Takes(run, k, b, c) && 0 < a < b <= c &&
      Derives([dot, run], k, c, |k|)
  {
    var run, dot := AtLeast(Word, 10), Lit(".");
    var m := SplitFirst(Jwt, k, 0, |k|);
    a :| Takes(run, k, m, a) && Derives(Behind(Jwt)[1..], k, a, |k|);
    assert Behind(Jwt)[1..] == [dot] + [run, dot, run];
    b := Step(dot, [run, dot, run], k, a, |k|);
    assert [run, dot, run] == [run] + [dot, run];
    c := Step(run, [dot, run], k, b, |k|);
    FirstSegment(k, m, a);
  }

  lemma Step(piece: Piece, rest: seq<Piece>, s: string, i: nat, j: nat) returns (m: nat)
    requires Derives([piece] + rest, s, i, j)
    ensures Takes(piece, s, i, m) && Derives(rest, s, m, j)
  {
    assert ([piece] + rest)[1..] == rest;
    m :| Takes(([piece] + rest)[0], s, i, m) && Derives(([piece] + rest)[1..], s, m, j);
  }

  lemma FirstSegment(k: string, m: nat, a: nat)
    requires Takes(First(Jwt), k, 0, m) && Takes(AtLeast(Word, 10), k, m, a)
    ensures Takes(AtLeast(Word, 10), k, 0, a) && 0 < a
  {
    var text := "eyJ";
    forall n | 0 <= n < m ensures In(Word, k[n]) { assert k[0 + n] == text[n]; }
  }

  /** From the back: the last run alone, the last two, and all three. */
  lemma LastRunResumes(k: string, a: nat)
    requires Takes(AtLeast(Word, 10), k, 0, a) && 0 < a <= |k|
    ensures Resumes([AtLeast(Word, 10)], 'e', k)
  {
    RunResumes(AtLeast(Word, 10), [], 'e', k, a, a);
    assert [AtLeast(Word, 10)] + [] == [AtLeast(Word, 10)];
  }

  lemma DottedResumes(rest: seq<Piece>, k: string, a: nat, b: nat, e: nat)
    requires Resumes(rest, 'e', k) && Takes(AtLeast(Word, 10), k, 0, a) && 0 < a
    requires Takes(Lit("."), k, a, b) && Derives(rest, k, b, e) && 0 < e
    ensures Resumes([AtLeast(Word, 10)] + ([Lit(".")] + rest), 'e', k)
  {
    ResumesCons(Lit("."), rest, 'e', k);
    Prepend(Lit("."), rest, k, a, b, e);
    RunResumes(AtLeast(Word, 10), [Lit(".")] + rest, 'e', k, a, e);
  }

  lemma JwtResumes(k: string)
    requires Occurs(Jwt, k, 0, |k|)
    ensures Resumes(Behind(Jwt), 'e', k)
  {
    var run, dot := AtLeast(Word, 10), Lit(".");
    var a, b, c := Segments(k);
    LastRunResumes(k, a);
    LastRun(k, b, c);
    DottedResumes([run], k, a, b, c);
    assert [run] + ([dot] + [run]) == [run, dot, run];
    Prepend(run, [dot, run], k, b, c, |k|);
    assert [run] + [dot, run] == [run, dot, run];
    DottedResumes([run, dot, run], k, a, b, |k|);
    assert [run] + ([dot] + [run, dot, run]) == Behind(Jwt);
  }

  lemma LastRun(k: string, b: nat, c: nat)
    requires Takes(AtLeast(Word, 10), k, b, c) && c <= |k|
    ensures Derives([AtLeast(Word, 10)], k, b, c)
  {
    Prepend(AtLeast(Word, 10), [], k, b, c, c);
    assert [AtLeast(Word, 10)] + [] == [AtLeast(Word, 10)];
  }

  /** A password run that begins with the secret ends at its first at-sign. */
  lemma PasswordResumes(f: char, k: string, w: nat)
    requires 0 < w < |k| && k[0] != '@' && k[w] == '@' && f != '@'
    ensures Resumes([AtLeast(NotAt, 1)] + ([Lit("@")] + []), f, k)
  {
    var x := RunEnd(NotAt, k, 0);
    RunCovers(NotAt, k, 0, 1);
    assert x < |k| by { assert !AllIn(NotAt, k, 0, |k|); }
    Prepend(Lit("@"), [], k, x, x + 1, x + 1);
    ResumesCons(Lit("@"), [], f, k);
    RunResumes(AtLeast(NotAt, 1), [Lit("@")] + [], f, k, x, x + 1);
  }

  /** A user run that begins with the secret ends at its first colon, and the tail there. */
  lemma TailResumes(minUser: nat, f: char, k: string, c: nat, w: nat)
    requires TailAt(k, 0, c, w) && minUser <= c && 0 < c && k[0] != '@' && f != '@' && f != ':'
    ensures Resumes(DsnTail(minUser), f, k)
  {
    var password := [AtLeast(NotAt, 1)] + ([Lit("@")] + []);
    PasswordResumes(f, k, w);
    ResumesCons(Lit(":"), password, f, k);
    var rest := [Lit(":")] + password;
    assert DsnTail(minUser) == [AtLeast(NotColon, minUser)] + rest;
    var e := TailHolds(minUser, k, 0, c, w);
    DerivesRange(DsnTail(minUser), k, 0, e);
    var m := Step(AtLeast(NotColon, minUser), rest, k, 0, e);
    var m' := Step(Lit(":"), password, k, m, e);
    DerivesRange(password, k, m', e);
    ResumesCons(AtLeast(NotColon, minUser), rest, f, k);
  }

  lemma SchemeResumes(tail: seq<Piece>, f: char, k: string)
    requires Resumes(tail, f, k) && f != ':' && f != '/' && f != 'q' && f != 'l'
    ensures Resumes([Lit("://")] + tail, f, k)
    ensures Resumes([Maybe("ql")] + ([Lit("://")] + tail), f, k)
  {
    ResumesCons(Lit("://"), tail, f, k);
    ResumesCons(Maybe("ql"), [Lit("://")] + tail, f, k);
  }

  lemma BehindDsn(p: Pattern)
    requires IsDsn(p)
    ensures Behind(p) == if p == PostgresDsn then [Maybe("ql")] + ([Lit("://")] + DsnTail(1))
                         else [Lit("://")] + DsnTail(0)
  {
  }

  lemma DsnResumes(p: Pattern, k: string)
    requires IsDsn(p) && Occurs(p, k, 0, |k|)
    ensures k != "" && Resumes(Behind(p), k[0], k)
  {
    FirstLetter(p, k, 0, |k|);
    DsnHasTail(p, k, 0, |k|);
    var c, w :| 0 < c && TailAt(k, 0, c, w);
    TailResumes(MinUser(p), k[0], k, c, w);
    SchemeResumes(DsnTail(MinUser(p)), k[0], k);
    BehindDsn(p);
  }

  /** The literal in front cannot reach into another secret: its first letter stands in it once. */
  lemma FirstEndsBefore(p: Pattern, u: string, k': string, v: string, i: nat, m: nat)
    requires Occurs(p, k', 0, |k'|) && i < |u| && Takes(First(p), u + k' + v, i, m)
    ensures m <= |u|
  {
    var t' := u + k' + v;
    FirstLetter(p, k', 0, |k'|);
    assert t'[|u|] == k'[0];
    if m > |u| {
      FirstLetterOnce(p, t', i, m, |u|);
    }
  }

  lemma FirstLetter(p: Pattern, s: string, i: nat, j: nat)
    requires Occurs(p, s, i, j)
    ensures i < |s| && ToLower(s[i]) == First(p).text[0]
    ensures First(p).Lit? ==> s[i] == First(p).text[0]
  {
    var m := SplitFirst(p, s, i, j);
    var text := First(p).text;
    assert First(p).Lit? ==> s[i + 0] == text[0];
    assert First(p).FoldLit? ==> ToLower(s[i + 0]) == text[0];
  }

  lemma FirstLetterOnce(p: Pattern, t: string, i: nat, m: nat, n: nat)
    requires Takes(First(p), t, i, m) && i < n < m
    ensures n < |t| && ToLower(t[n]) != First(p).text[0]
  {
    var text := First(p).text;
    assert First(p).Lit? ==> t[i + (n - i)] == text[n - i];
    assert First(p).FoldLit? ==> ToLower(t[i + (n - i)]) == text[n - i];
    LettersOnce(p, n - i);
  }

  lemma LettersOnce(p: Pattern, n: nat)
    requires 0 < n < |First(p).text|
    ensures First(p).text[n] != First(p).text[0] && ToLower(First(p).text[n]) != First(p).text[0]
  {
  }

  /** A match of `p` that reaches from before one secret of `p` into it reaches into any other. */
  lemma CrossSecret(p: Pattern, u: string, k': string, k: string, v: string, i: nat, j: nat) returns (e: nat)
    requires Occurs(p, k', 0, |k'|) && Occurs(p, k, 0, |k|)
    requires i < |u| < j && Occurs(p, u + k' + v, i, j)
    ensures |u| < e && Occurs(p, u + k + v, i, e)
  {
    StartOfMatch(p, k', 0, |k'|);
    var m := SplitFirst(p, u + k' + v, i, j);
    FirstEndsBefore(p, u, k', v, i, m);
    CopyTakes(First(p), u, k', k, v, i, m);
    if p == BearerToken {
      e := CrossBearer(u, k', k, v, m, j);
    } else {
      PatternResumes(p, k', k);
      e := Cross(Behind(p), u, k', k, v, m, j);
    }
    FirstAndBehind(p);
    Prepend(First(p), Behind(p), u + k + v, i, m, e);
  }

  lemma PatternResumes(p: Pattern, k': string, k: string)
    requires p != BearerToken && Occurs(p, k', 0, |k'|) && Occurs(p, k, 0, |k|)
    ensures k' != "" && Resumes(Behind(p), k'[0], k)
  {
    FirstLetter(p, k, 0, |k|);
    FirstLetter(p, k', 0, |k'|);
    match p
    case OpenAiKey => SkKeyResumes(p, k);
    case AnthropicKey => SkKeyResumes(p, k);
    case Jwt => JwtResumes(k);
    case PostgresDsn => DsnResumes(p, k);
    case RedisDsn => DsnResumes(p, k);
  }

  /** A token reaches into `bearer` and no further than the white space behind it. */
  lemma CrossBearer(u: string, k': string, k: string, v: string, m: nat, j: nat) returns (e: nat)
    requires Occurs(BearerToken, k', 0, |k'|) && Occurs(BearerToken, k, 0, |k|)
    requires m <= |u| < j && Derives(Behind(BearerToken), u + k' + v, m, j)
    ensures |u| < e && Derives(Behind(BearerToken), u + k + v, m, e)
  {
    var t', t := u + k' + v, u + k + v;
    var token := [AtLeast(TokenChar, 16)];
    BearerWord(k');
    BearerWord(k);
    var a: nat :| Takes(AtLeast(Space, 1), t', m, a) && Derives(Behind(BearerToken)[1..], t', a, j);
    assert Behind(BearerToken)[1..] == token && token[1..] == [];
    DerivesRange(token, t', a, j);
    assert Takes(AtLeast(TokenChar, 16), t', a, j);
    assert t'[|u|] == k'[0] && !In(Space, k'[0]);
    assert a <= |u|;
    CopyTakes(AtLeast(Space, 1), u, k', k, v, m, a);
    assert t'[|u| + 6] == k'[6];
    RunStops(TokenChar, t', a, j, |u| + 6);
    e := j;
    assert Takes(AtLeast(TokenChar, 16), t, a, e) by {
      forall n | a <= n < e ensures In(TokenChar, t[n]) {
        assert n < |u| ==> t[n] == t'[n];
        assert n >= |u| ==> t[n] == k[n - |u|];
      }
    }
    Prepend(AtLeast(TokenChar, 16), [], t, a, e, e);
    assert [AtLeast(TokenChar, 16)] + [] == token;
    Prepend(AtLeast(Space, 1), token, t, m, a, e);
    assert [AtLeast(Space, 1)] + token == Behind(BearerToken);
  }

  lemma RunStops(cls: CharClass, s: string, i: nat, j: nat, x: nat)
    requires AllIn(cls, s, i, j) && i <= x < |s| && !In(cls, s[x])
    ensures j <= x
  {
  }

  lemma BearerWord(k: string)
    requires Occurs(BearerToken, k, 0, |k|)
    ensures |k| > 6 && (forall n :: 0 <= n < 6 ==> In(TokenChar, k[n]) && !In(Space, k[n]))
    ensures In(Space, k[6]) && !In(TokenChar, k[6])
  {
    var m := SplitFirst(BearerToken, k, 0, |k|);
    var text := "bearer";
    forall n | 0 <= n < 6 ensures In(TokenChar, k[n]) && !In(Space, k[n]) {
      assert ToLower(k[0 + n]) == text[n];
      assert IsLetter(k[n]);
    }
    var a: nat :| Takes(AtLeast(Space, 1), k, m, a) && Derives(Behind(BearerToken)[1..], k, a, |k|);
    DerivesRange(Behind(BearerToken)[1..], k, a, |k|);
  }

  // ----- the pass -----------------------------------------------------------------------------

  /** What the pass makes of the text from `i` on. */
  function PassFrom(p: Pattern, s: string, i: nat): string
    requires i <= |s|
    decreases |s| - i
  {
    if i == |s| then ""
    else match FindAt(p, s, i)
      case Some(e) => REDACTED + PassFrom(p, s, e)
      case None => [s[i]] + PassFrom(p, s, i + 1)
  }

  lemma {:induction false} PassFromIsSplice(p: Pattern, s: string, i: nat)
    requires i <= |s|
    ensures PassFrom(p, s, i) == Splice(s, i, Spans(p, s, i))
    decreases |s| - i
  {
    hide FindAt;
    if i < |s| {
      match FindAt(p, s, i)
      case Some(e) =>
        PassFromIsSplice(p, s, e);
        SpliceMarker(s, i, e, Spans(p, s, e));
      case None =>
        PassFromIsSplice(p, s, i + 1);
        SpansStartBehind(p, s, i + 1);
        SpliceOne(s, i, Spans(p, s, i + 1));
    }
  }

  lemma SpliceMarker(s: string, i: nat, e: nat, spans: seq<Span>)
    requires i < e <= |s| && InOrder(s, e, spans)
    ensures InOrder(s, i, [Span(i, e)] + spans)
    ensures Splice(s, i, [Span(i, e)] + spans) == REDACTED + Splice(s, e, spans)
  {
    var all := [Span(i, e)] + spans;
    assert all[1..] == spans;
    assert s[i..i] + REDACTED == REDACTED;
  }

  lemma SpliceOne(s: string, i: nat, spans: seq<Span>)
    requires i < |s| && InOrder(s, i + 1, spans)
    ensures InOrder(s, i, spans) && Splice(s, i, spans) == [s[i]] + Splice(s, i + 1, spans)
  {
    SkipGap(s, i, spans, 1);
    var t := Splice(s, i, spans);
    assert t == t[..1] + t[1..];
    assert s[i..i + 1] == [s[i]];
  }

  lemma SpansStartBehind(p: Pattern, s: string, i: nat)
    requires i <= |s|
    ensures forall k :: 0 <= k < |Spans(p, s, i)| ==> i <= Spans(p, s, i)[k].start
  {
    forall k | 0 <= k < |Spans(p, s, i)| ensures i <= Spans(p, s, i)[k].start {
      StartsAreBehind(s, i, Spans(p, s, i), k);
    }
  }

  /** The engine's result is determined by the language alone. */
  lemma FindIs(p: Pattern, s: string, i: nat, e: nat)
    requires i <= |s| && Occurs(p, s, i, e)
    requires forall j: nat :: Occurs(p, s, i, j) ==> j <= e
    ensures FindAt(p, s, i) == Some(e)
  {
    PatternsAreDeterminate(p, s, i, e);
  }

  lemma FindsNothing(p: Pattern, s: string, i: nat)
    requires i <= |s| && forall j: nat :: !Occurs(p, s, i, j)
    ensures FindAt(p, s, i) == None
  {
    if FindAt(p, s, i).Some? {
      FoundIsSecret(p, s, i);
    }
  }

  lemma FoundIsLongest(p: Pattern, s: string, i: nat, j: nat)
    requires i <= |s| && Occurs(p, s, i, j)
    ensures FindAt(p, s, i).Some? && j <= FindAt(p, s, i).value && Occurs(p, s, i, FindAt(p, s, i).value)
  {
    PatternsAreDeterminate(p, s, i, j);
  }

  /** A secret in one text is a secret in another that has the same characters there. */
  lemma SameStretch(p: Pattern, a: string, i: nat, j: nat, b: string, i': nat)
    requires Occurs(p, a, i, j)
    requires i <= j <= |a| && i' + (j - i) <= |b| && a[i..j] == b[i'..i' + (j - i)]
    ensures Occurs(p, b, i', i' + (j - i))
  {
    Transfer(Expression(p), a, i, j, b, i');
  }

  lemma SuffixSecret(p: Pattern, a: string, i: nat, j: nat, b: string, i': nat)
    requires i <= |a| && i' <= |b| && a[i..] == b[i'..] && Occurs(p, a, i, j)
    ensures i <= j && Occurs(p, b, i', i' + (j - i))
  {
    StartOfMatch(p, a, i, j);
    assert a[i..j] == a[i..][..j - i] && b[i'..i' + (j - i)] == b[i'..][..j - i];
    SameStretch(p, a, i, j, b, i');
  }

  lemma SuffixFind(p: Pattern, a: string, i: nat, b: string, i': nat)
    requires i <= |a| && i' <= |b| && a[i..] == b[i'..]
    ensures FindAt(p, b, i') ==
            if FindAt(p, a, i).Some? then Some(i' + (FindAt(p, a, i).value - i)) else None
  {
    if FindAt(p, a, i).Some? {
      var e := FindAt(p, a, i).value;
      FoundIsSecret(p, a, i);
      SuffixSecret(p, a, i, e, b, i');
      forall j: nat | Occurs(p, b, i', j) ensures j <= i' + (e - i) {
        SuffixSecret(p, b, i', j, a, i);
        FoundIsLongest(p, a, i, i + (j - i'));
      }
      FindIs(p, b, i', i' + (e - i));
    } else {
      forall j: nat ensures !Occurs(p, b, i', j) {
        if Occurs(p, b, i', j) {
          SuffixSecret(p, b, i', j, a, i);
          FoundIsLongest(p, a, i, i + (j - i'));
        }
      }
      FindsNothing(p, b, i');
    }
  }

  lemma {:induction false} SuffixPass(p: Pattern, a: string, i: nat, b: string, i': nat)
    requires i <= |a| && i' <= |b| && a[i..] == b[i'..]
    ensures PassFrom(p, a, i) == PassFrom(p, b, i')
    decreases |a| - i
  {
    hide FindAt;
    SameSuffix(a, i, b, i', 0);
    if i < |a| {
      SuffixFind(p, a, i, b, i');
      var d := if FindAt(p, a, i).Some? then FindAt(p, a, i).value - i else 1;
      SameSuffix(a, i, b, i', d);
      SuffixPass(p, a, i + d, b, i' + d);
    }
  }

  lemma SameSuffix(a: string, i: nat, b: string, i': nat, d: nat)
    requires i + d <= |a| && i' <= |b| && a[i..] == b[i'..]
    ensures |a| - i == |b| - i' && a[i + d..] == b[i' + d..]
    ensures i < |a| ==> a[i] == b[i']
  {
    assert |a[i..]| == |b[i'..]|;
    assert i < |a| ==> a[i..][0] == b[i'..][0];
    assert a[i + d..] == a[i..][d..] && b[i' + d..] == b[i'..][d..];
  }

  /** Before the secret both texts have the same matches. */
  lemma SameFindBefore(p: Pattern, u: string, k: string, k': string, v: string, i: nat)
    requires Occurs(p, k, 0, |k|) && Occurs(p, k', 0, |k'|) && i < |u|
    requires forall j: nat :: Occurs(p, u + k + v, i, j) ==> j <= |u|
    ensures FindAt(p, u + k' + v, i) == FindAt(p, u + k + v, i)
  {
    var s, s' := u + k + v, u + k' + v;
    forall j: nat | Occurs(p, s', i, j) ensures j <= |u| && Occurs(p, s, i, j) {
      StartOfMatch(p, s', i, j);
      if j > |u| {
        var e := CrossSecret(p, u, k', k, v, i, j);
        assert false;
      }
      assert s'[i..j] == s[i..j];
      SameStretch(p, s', i, j, s, i);
    }
    if FindAt(p, s, i).Some? {
      var e := FindAt(p, s, i).value;
      FoundIsSecret(p, s, i);
      assert s[i..e] == s'[i..e];
      SameStretch(p, s, i, e, s', i);
      forall j: nat | Occurs(p, s', i, j) ensures j <= e { FoundIsLongest(p, s, i, j); }
      FindIs(p, s', i, e);
    } else {
      forall j: nat ensures !Occurs(p, s', i, j) {
        if Occurs(p, s', i, j) { FoundIsLongest(p, s, i, j); }
      }
      FindsNothing(p, s', i);
    }
  }

  /** If the other secret could be read on into what follows, so could this one. */
  lemma LongerAsWell(p: Pattern, u: string, k: string, k': string, v: string, j: nat)
    requires Occurs(p, u + k + v, |u|, |u| + |k|) && Occurs(p, u + k' + v, |u|, |u| + |k'|)
    requires Occurs(p, u + k' + v, |u|, j) && j > |u| + |k'|
    ensures Occurs(p, u + k + v, |u|, |u| + |k| + 1)
  {
    var s, s', re := u + k + v, u + k' + v, Expression(p);
    DeterminateExpression(p);
    TwoEnds(re, s', |u|, |u| + |k'|, j);
    assert s'[|u| + |k'|] == v[0] == s[|u| + |k|];
    ExtendRun(re, s, |u|, |u| + |k|);
  }

  /** At the place of the secret the other text has the other secret, and no more. */
  lemma OtherSecretFound(p: Pattern, u: string, k: string, k': string, v: string)
    requires Occurs(p, k', 0, |k'|) && Occurs(p, k, 0, |k|)
    requires forall j: nat :: Occurs(p, u + k + v, |u|, j) ==> j <= |u| + |k|
    ensures FindAt(p, u + k' + v, |u|) == Some(|u| + |k'|)
  {
    var s, s' := u + k + v, u + k' + v;
    assert k[0..|k|] == s[|u|..|u| + |k|] && k'[0..|k'|] == s'[|u|..|u| + |k'|];
    SameStretch(p, k, 0, |k|, s, |u|);
    SameStretch(p, k', 0, |k'|, s', |u|);
    forall j: nat | Occurs(p, s', |u|, j) ensures j <= |u| + |k'| {
      if j > |u| + |k'| {
        LongerAsWell(p, u, k, k', v, j);
      }
    }
    FindIs(p, s', |u|, |u| + |k'|);
  }

  lemma {:induction false} SwapFrom(p: Pattern, u: string, k: string, k': string, v: string, i: nat)
    requires Occurs(p, k, 0, |k|) && Occurs(p, k', 0, |k'|) && i <= |u|
    requires Span(|u|, |u| + |k|) in Spans(p, u + k + v, i)
    ensures PassFrom(p, u + k + v, i) == PassFrom(p, u + k' + v, i)
    decreases |u| - i
  {
    hide FindAt, Occurs, Spans;
    var s, s' := u + k + v, u + k' + v;
    StartOfMatch(p, k, 0, |k|);
    StartOfMatch(p, k', 0, |k'|);
    SecretIsNextOrLater(p, s, i, Span(|u|, |u| + |k|));
    forall j: nat | Occurs(p, s, i, j) ensures FindAt(p, s, i).Some? && j <= FindAt(p, s, i).value {
      FoundIsLongest(p, s, i, j);
    }
    if i == |u| {
      OtherSecretFound(p, u, k, k', v);
      Ends(u, k, v);
      Ends(u, k', v);
      SuffixPass(p, s, |u| + |k|, s', |u| + |k'|);
    } else {
      SameFindBefore(p, u, k, k', v, i);
      SwapFrom(p, u, k, k', v, if FindAt(p, s, i).Some? then FindAt(p, s, i).value else i + 1);
    }
  }

  lemma Ends(u: string, k: string, v: string)
    ensures (u + k + v)[|u|..|u| + |k|] == k && (u + k + v)[|u| + |k|..] == v
  {
  }

  lemma SecretIsNextOrLater(p: Pattern, s: string, i: nat, span: Span)
    requires i < |s| && span in Spans(p, s, i)
    ensures i <= span.start
    ensures match FindAt(p, s, i)
            case Some(e) => if span.start == i then span.end == e else e <= span.start && span in Spans(p, s, e)
            case None => i < span.start && span in Spans(p, s, i + 1)
  {
    SpansStartBehind(p, s, i);
    match FindAt(p, s, i)
    case Some(e) =>
      assert Spans(p, s, i) == [Span(i, e)] + Spans(p, s, e);
      SpansStartBehind(p, s, e);
    case None => SpansStartBehind(p, s, i + 1);
  }

  lemma SpanIsSecret(p: Pattern, s: string, spans: seq<Span>, span: Span)
    requires Fits(p, s, 0, spans) && span in spans
    ensures Occurs(p, s, span.start, span.end)
  {
  }

  /** `k` is one of the stretches that a pass replaces in `u + k + v`. Any other secret of the same
      pattern in its place gives the same text. */
  lemma SecretsAreInterchangeable(p: Pattern, u: string, k: string, k': string, v: string, spans: seq<Span>)
    requires Fits(p, u + k + v, 0, spans) && Span(|u|, |u| + |k|) in spans
    requires Occurs(p, k', 0, |k'|)
    ensures Sub(p, u + k + v) == Sub(p, u + k' + v)
  {
    hide FindAt, Fits, Spans, Occurs;
    var s := u + k + v;
    SpansAreUnique(p, s, 0, spans);
    SpanIsSecret(p, s, spans, Span(|u|, |u| + |k|));
    Ends(u, k, v);
    WholeSecret(p, s, |u|, |u| + |k|);
    SwapFrom(p, u, k, k', v, 0);
    PassFromIsSplice(p, s, 0);
    PassFromIsSplice(p, u + k' + v, 0);
  }

  // ----- the passes together ------------------------------------------------------------------

  /** Two texts of which the passes up to the n-th leave the same but for the content of one secret
      of its pattern come out of the scrubber as one. */
  lemma SecretContentIsHidden(n: nat, s: string, s': string, u: string, k: string, k': string, v: string,
      spans: seq<Span>)
    requires n < |VALUE_PATTERNS|
    requires Apply(VALUE_PATTERNS[..n], s) == u + k + v && Apply(VALUE_PATTERNS[..n], s') == u + k' + v
    requires Fits(VALUE_PATTERNS[n], u + k + v, 0, spans) && Span(|u|, |u| + |k|) in spans
    requires Occurs(VALUE_PATTERNS[n], k', 0, |k'|)
    ensures ScrubText(s) == ScrubText(s')
  {
    var p := VALUE_PATTERNS[n];
    SecretsAreInterchangeable(p, u, k, k', v, spans);
    ScrubInStages(n, s);
    ScrubInStages(n, s');
  }

  /** In particular where the patterns before the n-th do not occur at all. */
  lemma LoneSecretIsHidden(n: nat, u: string, k: string, k': string, v: string, spans: seq<Span>)
    requires n < |VALUE_PATTERNS|
    requires forall q :: q in VALUE_PATTERNS[..n] ==> NoMatch(q, u + k + v) && NoMatch(q, u + k' + v)
    requires Fits(VALUE_PATTERNS[n], u + k + v, 0, spans) && Span(|u|, |u| + |k|) in spans
    requires Occurs(VALUE_PATTERNS[n], k', 0, |k'|)
    ensures ScrubText(u + k + v) == ScrubText(u + k' + v)
  {
    PassesKeepPlain(VALUE_PATTERNS[..n], u + k + v);
    PassesKeepPlain(VALUE_PATTERNS[..n], u + k' + v);
    SecretContentIsHidden(n, u + k + v, u + k' + v, u, k, k', v, spans);
  }
}
