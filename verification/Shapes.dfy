/** The six shapes of a secret written out as texts: which words they begin with, which characters
    they consist of, how long they are. None of this refers to the expressions or to the engine. */
module Shapes {
  import opened Regex
  import opened Redactor
  import opened NoResidue

  // ----- the alphabets ----------------------------------------------------------------------

  predicate IsWordChar(c: char) {
    c in "ABCDEFGHIJKLMNOPQRSTUVWXYZ" || c in "abcdefghijklmnopqrstuvwxyz" || c in "0123456789" || c in "_-"
  }

  /** Matching without regard to case lets four letters in that are not ASCII. */
  predicate IsTokenChar(c: char) {
    c in "ABCDEFGHIJKLMNOPQRSTUVWXYZ" || c in "abcdefghijklmnopqrstuvwxyz" || c in "0123456789" || c in "._-" ||
    c in "\U{0130}\U{0131}\U{017F}\U{212A}"
  }

  predicate IsWhiteSpace(c: char) {
    c in "\t\n\U{0B}\U{0C}\r\U{1C}\U{1D}\U{1E}\U{1F} \U{85}\U{A0}\U{1680}\U{2028}\U{2029}\U{202F}\U{205F}\U{3000}" ||
    c in "\U{2000}\U{2001}\U{2002}\U{2003}\U{2004}\U{2005}\U{2006}\U{2007}\U{2008}\U{2009}\U{200A}"
  }

  lemma WordCharIff(c: char)
    ensures In(Word, c) <==> IsWordChar(c)
  {
  }

  lemma TokenCharIff(c: char)
    ensures In(TokenChar, c) <==> IsTokenChar(c)
  {
  }

  lemma WhiteSpaceIff(c: char)
    ensures In(Space, c) <==> IsWhiteSpace(c)
  {
  }

  // ----- the shapes -------------------------------------------------------------------------

  predicate IsWord(t: string, min: nat) {
    |t| >= min && forall c :: c in t ==> IsWordChar(c)
  }

  predicate IsToken(t: string, min: nat) {
    |t| >= min && forall c :: c in t ==> IsTokenChar(c)
  }

  predicate IsBlank(t: string) {
    t != "" && forall c :: c in t ==> IsWhiteSpace(c)
  }

  predicate IsBearer(t: string) {
    |t| == 6 && t[0] in "bB" && t[1] in "eE" && t[2] in "aA" && t[3] in "rR" && t[4] in "eE" && t[5] in "rR"
  }

  predicate IsUser(t: string, min: nat) {
    |t| >= min && ':' !in t
  }

  predicate IsPassword(t: string) {
    t != "" && '@' !in t
  }

  /** The whole text is a secret of shape `p`. */
  ghost predicate HasShape(p: Pattern, t: string) {
    match p
    case OpenAiKey => exists tail :: IsWord(tail, 16) && t == "sk-" + tail
    case AnthropicKey => exists tail :: IsWord(tail, 16) && t == "sk-ant-" + tail
    case BearerToken =>
      exists bearer, gap, token ::
        IsBearer(bearer) && IsBlank(gap) && IsToken(token, 16) && t == bearer + gap + token
    case Jwt =>
      exists x, y, z ::
        IsWord(x, 10) && IsWord(y, 10) && IsWord(z, 10) && t == "eyJ" + x + "." + y + "." + z
    case PostgresDsn =>
      exists user, password :: IsUser(user, 1) && IsPassword(password) &&
        (t == "postgres://" + user + ":" + password + "@" || t == "postgresql://" + user + ":" + password + "@")
    case RedisDsn =>
      exists user, password :: IsUser(user, 0) && IsPassword(password) &&
        t == "redis://" + user + ":" + password + "@"
  }

  /** Somewhere in the text stands a secret of shape `p`. */
  ghost predicate HoldsShape(p: Pattern, t: string) {
    exists i: nat, j: nat :: i <= j <= |t| && HasShape(p, t[i..j])
  }

  // ----- an expression matches one text per piece -------------------------------------------

  predicate Matches(piece: Piece, t: string) {
    match piece
    case Lit(text) => t == text
    case FoldLit(text) => |t| == |text| && FoldAt(text, t, 0)
    case Maybe(text) => t == "" || t == text
    case AtLeast(cls, min) => |t| >= min && forall c :: c in t ==> In(cls, c)
  }

  predicate MatchAll(re: seq<Piece>, parts: seq<string>) {
    |parts| == |re| && forall k {:trigger re[k]} :: 0 <= k < |re| ==> Matches(re[k], parts[k])
  }

  function Concat(parts: seq<string>): string {
    if parts == [] then "" else parts[0] + Concat(parts[1..])
  }

  lemma TakesIff(piece: Piece, s: string, i: nat, m: nat)
    requires i <= m <= |s|
    ensures Takes(piece, s, i, m) <==> Matches(piece, s[i..m])
  {
    var t := s[i..m];
    if !piece.AtLeast? && |t| == |piece.text| {
      forall k | 0 <= k < |t| ensures t[k] == s[i + k] {}
      if piece.Lit? || piece.Maybe? { AtIff(piece.text, s, i, m); }
    }
    if piece.AtLeast? {
      forall k | i <= k < m ensures s[k] == t[k - i] && s[k] in t {}
    }
  }

  lemma AtIff(text: string, s: string, i: nat, m: nat)
    requires i <= m <= |s| && m - i == |text|
    ensures At(text, s, i) <==> s[i..m] == text
  {
    if s[i..m] == text {
      forall k | 0 <= k < |text| ensures s[i + k] == text[k] { assert s[i..m][k] == text[k]; }
    }
  }

  lemma {:induction false} PartsOf(re: seq<Piece>, s: string, i: nat, j: nat) returns (parts: seq<string>)
    requires Derives(re, s, i, j)
    ensures i <= j <= |s| && MatchAll(re, parts) && Concat(parts) == s[i..j]
    decreases |re|
  {
    DerivesRange(re, s, i, j);
    if re == [] {
      parts := [];
    } else {
      var m: nat :| Takes(re[0], s, i, m) && Derives(re[1..], s, m, j);
      var rest := PartsOf(re[1..], s, m, j);
      TakesIff(re[0], s, i, m);
      parts := [s[i..m]] + rest;
      assert parts[1..] == rest && s[i..j] == s[i..m] + s[m..j];
      forall k {:trigger re[k]} | 0 <= k < |re| ensures Matches(re[k], parts[k]) {
        if k > 0 { assert re[k] == re[1..][k - 1] && parts[k] == rest[k - 1]; }
      }
    }
  }

  lemma {:induction false} PartsDerive(re: seq<Piece>, parts: seq<string>, s: string, i: nat, j: nat)
    requires i <= j <= |s| && MatchAll(re, parts) && Concat(parts) == s[i..j]
    ensures Derives(re, s, i, j)
    decreases |re|
  {
    if re != [] {
      var m := i + |parts[0]|;
      assert s[i..j] == parts[0] + Concat(parts[1..]);
      assert s[i..m] == s[i..j][..m - i] && s[m..j] == s[i..j][m - i..];
      assert Matches(re[0], parts[0]);
      TakesIff(re[0], s, i, m);
      forall k {:trigger re[1..][k]} | 0 <= k < |re| - 1 ensures Matches(re[1..][k], parts[1..][k]) {
        assert re[1..][k] == re[k + 1];
      }
      PartsDerive(re[1..], parts[1..], s, m, j);
    }
  }

  // ----- the expressions have these shapes --------------------------------------------------

  lemma WordIff(t: string, min: nat)
    ensures Matches(AtLeast(Word, min), t) <==> IsWord(t, min)
  {
    forall c ensures In(Word, c) <==> IsWordChar(c) { WordCharIff(c); }
  }

  lemma TokenIff(t: string, min: nat)
    ensures Matches(AtLeast(TokenChar, min), t) <==> IsToken(t, min)
  {
    forall c ensures In(TokenChar, c) <==> IsTokenChar(c) { TokenCharIff(c); }
  }

  lemma BlankIff(t: string)
    ensures Matches(AtLeast(Space, 1), t) <==> IsBlank(t)
  {
    forall c ensures In(Space, c) <==> IsWhiteSpace(c) { WhiteSpaceIff(c); }
  }

  lemma BearerIff(t: string)
    ensures Matches(FoldLit("bearer"), t) <==> IsBearer(t)
  {
    var word := "bearer";
    if |t| == 6 {
      assert FoldAt(word, t, 0) <==>
        (ToLower(t[0]) == word[0] && ToLower(t[1]) == word[1] && ToLower(t[2]) == word[2] &&
         ToLower(t[3]) == word[3] && ToLower(t[4]) == word[4] && ToLower(t[5]) == word[5]) by {
        if FoldAt(word, t, 0) {
          assert ToLower(t[0 + 0]) == word[0] && ToLower(t[0 + 1]) == word[1] && ToLower(t[0 + 2]) == word[2];
          assert ToLower(t[0 + 3]) == word[3] && ToLower(t[0 + 4]) == word[4] && ToLower(t[0 + 5]) == word[5];
        }
      }
    }
  }

  lemma Concat2(a: string, b: string)
    ensures Concat([a, b]) == a + b
  {
    assert [a, b][1..] == [b] && [b][1..] == [];
    assert Concat([b]) == b + "" == b;
  }

  lemma Concat3(a: string, b: string, c: string)
    ensures Concat([a, b, c]) == a + b + c
  {
    assert [a, b, c][1..] == [b, c];
    Concat2(b, c);
  }

  lemma Concat6(a: string, b: string, c: string, d: string, e: string, f: string)
    ensures Concat([a, b, c, d, e, f]) == a + b + c + d + e + f
  {
    assert [a, b, c, d, e, f][1..] == [b, c, d, e, f] && [b, c, d, e, f][1..] == [c, d, e, f];
    assert [c, d, e, f][1..] == [d, e, f];
    Concat3(d, e, f);
    assert Concat([c, d, e, f]) == c + (d + e + f);
    assert Concat([b, c, d, e, f]) == b + (c + (d + e + f));
  }

  lemma ConcatFirstTwo(a: string, b: string, rest: seq<string>)
    ensures Concat([a, b] + rest) == Concat([a + b] + rest)
  {
    assert ([a, b] + rest)[1..] == [b] + rest && ([b] + rest)[1..] == rest && ([a + b] + rest)[1..] == rest;
  }

  lemma KeyIff(p: Pattern, t: string)
    requires p == OpenAiKey || p == AnthropicKey
    ensures HasShape(p, t) <==> exists parts :: MatchAll(Expression(p), parts) && Concat(parts) == t
  {
    var prefix := if p == OpenAiKey then "sk-" else "sk-ant-";
    if parts :| MatchAll(Expression(p), parts) && Concat(parts) == t {
      assert parts == [parts[0], parts[1]];
      Concat2(parts[0], parts[1]);
      assert Matches(Expression(p)[0], parts[0]) && Matches(Expression(p)[1], parts[1]);
      WordIff(parts[1], 16);
      assert t == prefix + parts[1];
    }
    if tail :| IsWord(tail, 16) && t == prefix + tail {
      Concat2(prefix, tail);
      WordIff(tail, 16);
      assert MatchAll(Expression(p), [prefix, tail]);
    }
  }

  lemma BearerTokenIff(t: string)
    ensures HasShape(BearerToken, t) <==> exists parts :: MatchAll(Expression(BearerToken), parts) && Concat(parts) == t
  {
    var re := Expression(BearerToken);
    if parts :| MatchAll(re, parts) && Concat(parts) == t {
      var x, y, z := parts[0], parts[1], parts[2];
      assert parts == [x, y, z];
      Concat3(x, y, z);
      assert Matches(re[0], x) && Matches(re[1], y) && Matches(re[2], z);
      BearerIff(x);
      BlankIff(y);
      TokenIff(z, 16);
    }
    if x, y, z :| IsBearer(x) && IsBlank(y) && IsToken(z, 16) && t == x + y + z {
      Concat3(x, y, z);
      BearerIff(x);
      BlankIff(y);
      TokenIff(z, 16);
      assert MatchAll(re, [x, y, z]);
    }
  }

  lemma JwtIff(t: string)
    ensures HasShape(Jwt, t) <==> exists parts :: MatchAll(Expression(Jwt), parts) && Concat(parts) == t
  {
    var re := Expression(Jwt);
    if parts :| MatchAll(re, parts) && Concat(parts) == t {
      var x, y, z := parts[1], parts[3], parts[5];
      assert Matches(re[0], parts[0]) && Matches(re[1], x) && Matches(re[2], parts[2]) && Matches(re[3], y) &&
             Matches(re[4], parts[4]) && Matches(re[5], z);
      assert parts == ["eyJ", x, ".", y, ".", z];
      Concat6("eyJ", x, ".", y, ".", z);
      WordIff(x, 10);
      WordIff(y, 10);
      WordIff(z, 10);
    }
    if x, y, z :| IsWord(x, 10) && IsWord(y, 10) && IsWord(z, 10) && t == "eyJ" + x + "." + y + "." + z {
      Concat6("eyJ", x, ".", y, ".", z);
      WordIff(x, 10);
      WordIff(y, 10);
      WordIff(z, 10);
      assert MatchAll(re, ["eyJ", x, ".", y, ".", z]);
    }
  }

  lemma DsnParts(scheme: string, user: string, password: string)
    ensures Concat([scheme, "://", user, ":", password, "@"]) == scheme + "://" + user + ":" + password + "@"
  {
    Concat6(scheme, "://", user, ":", password, "@");
  }

  lemma RunAvoids(t: string, min: nat)
    ensures Matches(AtLeast(NotColon, min), t) <==> |t| >= min && ':' !in t
    ensures Matches(AtLeast(NotAt, min), t) <==> |t| >= min && '@' !in t
  {
  }

  lemma RedisFromParts(parts: seq<string>)
    requires MatchAll(Expression(RedisDsn), parts)
    ensures HasShape(RedisDsn, Concat(parts))
  {
    var re := Expression(RedisDsn);
    assert re == [Lit("redis"), Lit("://"), AtLeast(NotColon, 0), Lit(":"), AtLeast(NotAt, 1), Lit("@")];
    var user, password := parts[2], parts[4];
    assert Matches(re[0], parts[0]) && Matches(re[1], parts[1]) && Matches(re[2], user) &&
           Matches(re[3], parts[3]) && Matches(re[4], password) && Matches(re[5], parts[5]);
    assert parts == ["redis", "://", user, ":", password, "@"];
    DsnParts("redis", user, password);
    RunAvoids(user, 0);
    RunAvoids(password, 1);
    assert "redis" + "://" == "redis://";
    assert IsUser(user, 0) && IsPassword(password);
  }

  lemma RedisParts(user: string, password: string)
    requires IsUser(user, 0) && IsPassword(password)
    ensures MatchAll(Expression(RedisDsn), ["redis", "://", user, ":", password, "@"])
    ensures Concat(["redis", "://", user, ":", password, "@"]) == "redis://" + user + ":" + password + "@"
  {
    assert Expression(RedisDsn) ==
      [Lit("redis"), Lit("://"), AtLeast(NotColon, 0), Lit(":"), AtLeast(NotAt, 1), Lit("@")];
    DsnParts("redis", user, password);
    RunAvoids(user, 0);
    RunAvoids(password, 1);
    assert "redis" + "://" == "redis://";
  }

  lemma RedisIff(t: string)
    ensures HasShape(RedisDsn, t) <==> exists parts :: MatchAll(Expression(RedisDsn), parts) && Concat(parts) == t
  {
    if parts :| MatchAll(Expression(RedisDsn), parts) && Concat(parts) == t {
      RedisFromParts(parts);
    }
    if HasShape(RedisDsn, t) {
      var user, password :| IsUser(user, 0) && IsPassword(password) && t == "redis://" + user + ":" + password + "@";
      RedisParts(user, password);
    }
  }

  lemma PostgresFromParts(parts: seq<string>)
    requires MatchAll(Expression(PostgresDsn), parts)
    ensures HasShape(PostgresDsn, Concat(parts))
  {
    var re := Expression(PostgresDsn);
    assert re ==
      [Lit("postgres"), Maybe("ql"), Lit("://"), AtLeast(NotColon, 1), Lit(":"), AtLeast(NotAt, 1), Lit("@")];
    var ql, user, password := parts[1], parts[3], parts[5];
    assert Matches(re[0], parts[0]) && Matches(re[1], ql) && Matches(re[2], parts[2]) && Matches(re[3], user) &&
           Matches(re[4], parts[4]) && Matches(re[5], password) && Matches(re[6], parts[6]);
    assert parts == ["postgres", ql] + ["://", user, ":", password, "@"];
    PostgresConcat(ql, user, password);
    RunAvoids(user, 1);
    RunAvoids(password, 1);
    assert IsUser(user, 1) && IsPassword(password);
  }

  lemma PostgresConcat(ql: string, user: string, password: string)
    requires ql == "" || ql == "ql"
    ensures Concat(["postgres", ql] + ["://", user, ":", password, "@"]) ==
            (if ql == "" then "postgres://" else "postgresql://") + user + ":" + password + "@"
  {
    var rest, scheme := ["://", user, ":", password, "@"], "postgres" + ql;
    ConcatFirstTwo("postgres", ql, rest);
    assert [scheme] + rest == [scheme, "://", user, ":", password, "@"];
    DsnParts(scheme, user, password);
    assert scheme + "://" == if ql == "" then "postgres://" else "postgresql://";
  }

  lemma PostgresParts(ql: string, user: string, password: string)
    requires ql == "" || ql == "ql"
    requires IsUser(user, 1) && IsPassword(password)
    ensures MatchAll(Expression(PostgresDsn), ["postgres", ql] + ["://", user, ":", password, "@"])
  {
    assert Expression(PostgresDsn) ==
      [Lit("postgres"), Maybe("ql"), Lit("://"), AtLeast(NotColon, 1), Lit(":"), AtLeast(NotAt, 1), Lit("@")];
    RunAvoids(user, 1);
    RunAvoids(password, 1);
  }

  lemma PostgresIff(t: string)
    ensures HasShape(PostgresDsn, t) <==> exists parts :: MatchAll(Expression(PostgresDsn), parts) && Concat(parts) == t
  {
    if parts :| MatchAll(Expression(PostgresDsn), parts) && Concat(parts) == t {
      PostgresFromParts(parts);
    }
    if HasShape(PostgresDsn, t) {
      var user, password :| IsUser(user, 1) && IsPassword(password) &&
        (t == "postgres://" + user + ":" + password + "@" || t == "postgresql://" + user + ":" + password + "@");
      var ql := if t == "postgres://" + user + ":" + password + "@" then "" else "ql";
      PostgresParts(ql, user, password);
      PostgresConcat(ql, user, password);
    }
  }

  /** Each of the six expressions matches exactly the texts of its shape. */
  lemma ShapeIff(p: Pattern, s: string, i: nat, j: nat)
    ensures Occurs(p, s, i, j) <==> i <= j <= |s| && HasShape(p, s[i..j])
  {
    if Occurs(p, s, i, j) {
      var parts := PartsOf(Expression(p), s, i, j);
    }
    if i <= j <= |s| {
      TextIff(p, s[i..j]);
      if parts :| MatchAll(Expression(p), parts) && Concat(parts) == s[i..j] {
        PartsDerive(Expression(p), parts, s, i, j);
      }
    }
  }

  lemma TextIff(p: Pattern, t: string)
    ensures HasShape(p, t) <==> exists parts :: MatchAll(Expression(p), parts) && Concat(parts) == t
  {
    match p
    case OpenAiKey => KeyIff(p, t);
    case AnthropicKey => KeyIff(p, t);
    case BearerToken => BearerTokenIff(t);
    case Jwt => JwtIff(t);
    case PostgresDsn => PostgresIff(t);
    case RedisDsn => RedisIff(t);
  }

  // ----- what scrubbing does to secrets of these shapes -------------------------------------

  lemma HoldsIff(p: Pattern, t: string)
    ensures HoldsShape(p, t) <==> !NoMatch(p, t)
  {
    forall i: nat, j: nat ensures Occurs(p, t, i, j) <==> i <= j <= |t| && HasShape(p, t[i..j]) {
      ShapeIff(p, t, i, j);
    }
  }

  /** In scrubbed text stands nothing of any of the six shapes. */
  lemma ScrubbedHoldsNoShape(s: string, p: Pattern)
    ensures !HoldsShape(p, ScrubText(s))
  {
    ScrubLeavesNoResidue(s);
    HoldsIff(p, ScrubText(s));
  }

  /** A text that holds none of the shapes comes through, and no other. */
  lemma UnchangedIffNoShape(s: string)
    ensures ScrubText(s) == s <==> forall p: Pattern :: !HoldsShape(p, s)
  {
    UnchangedIffNoResidue(s);
    forall p: Pattern ensures HoldsShape(p, s) <==> !NoMatch(p, s) { HoldsIff(p, s); }
  }
}
