/** The fragment of Python's `re` that the redaction patterns are written in: literals, an
    optional literal, and greedy runs of a character class.

    `Derives` says which substrings belong to the language of an expression; it has no notion
    of search order. `MatchEnd` is the engine: greedy, backtracking, first success wins. */
module Regex {

  import opened Wrappers

  datatype CharClass = Word | TokenChar | Space | NotColon | NotAt

  datatype Piece =
    | Lit(text: string)
    | FoldLit(text: string)               // a lower-case literal under IGNORECASE
    | Maybe(text: string)                 // (?:text)?
    | AtLeast(cls: CharClass, min: nat)   // cls{min,}

  predicate IsAsciiAlnum(c: char) {
    'a' <= c <= 'z' || 'A' <= c <= 'Z' || '0' <= c <= '9'
  }

  /** `TokenChar` is `[A-Za-z0-9._\-]` under IGNORECASE, where the two letter ranges also
      admit four non-ASCII letters. `Space` is `\s` on text. */
  predicate In(cls: CharClass, c: char) {
    match cls
    case Word => IsAsciiAlnum(c) || c == '_' || c == '-'
    case TokenChar =>
      IsAsciiAlnum(c) || c == '.' || c == '_' || c == '-' ||
      c == '\U{0130}' || c == '\U{0131}' || c == '\U{017F}' || c == '\U{212A}'
    case Space =>
      '\U{9}' <= c <= '\U{D}' || '\U{1C}' <= c <= '\U{20}' || c == '\U{85}' || c == '\U{A0}' ||
      c == '\U{1680}' || '\U{2000}' <= c <= '\U{200A}' || c == '\U{2028}' || c == '\U{2029}' ||
      c == '\U{202F}' || c == '\U{205F}' || c == '\U{3000}'
    case NotColon => c != ':'
    case NotAt => c != '@'
  }

  function ToLower(c: char): char {
    if 'A' <= c <= 'Z' then c - 'A' + 'a' else c
  }

  /** `text` stands in `s` at position `i`. */
  predicate At(text: string, s: string, i: nat) {
    i + |text| <= |s| && forall k {:trigger text[k]} :: 0 <= k < |text| ==> s[i + k] == text[k]
  }

  predicate FoldAt(text: string, s: string, i: nat) {
    i + |text| <= |s| && forall k {:trigger text[k]} :: 0 <= k < |text| ==> ToLower(s[i + k]) == text[k]
  }

  predicate AllIn(cls: CharClass, s: string, i: nat, j: nat) {
    j <= |s| && forall k :: i <= k < j ==> In(cls, s[k])
  }

  /** Where the longest run of `cls` from `i` stops. */
  function RunEnd(cls: CharClass, s: string, i: nat): (e: nat)
    requires i <= |s|
    ensures i <= e <= |s| && AllIn(cls, s, i, e)
    ensures e < |s| ==> !In(cls, s[e])
    decreases |s| - i
  {
    if i < |s| && In(cls, s[i]) then RunEnd(cls, s, i + 1) else i
  }

  /** The piece can take the text from `i` to `m`. */
  ghost predicate Takes(piece: Piece, s: string, i: nat, m: nat) {
    match piece
    case Lit(text) => At(text, s, i) && m == i + |text|
    case FoldLit(text) => FoldAt(text, s, i) && m == i + |text|
    case Maybe(text) => m == i || (At(text, s, i) && m == i + |text|)
    case AtLeast(cls, min) => i + min <= m && AllIn(cls, s, i, m)
  }

  /** The declarative meaning: `s[i..j]` belongs to the language of `re`. */
  ghost predicate Derives(re: seq<Piece>, s: string, i: nat, j: nat)
    decreases |re|
  {
    if re == [] then i == j <= |s|
    else exists m: nat :: Takes(re[0], s, i, m) && Derives(re[1..], s, m, j)
  }

  predicate Within(ms: seq<nat>, lo: nat, hi: nat) {
    forall k :: 0 <= k < |ms| ==> lo <= ms[k] <= hi
  }

  /** From `hi` down to `lo`. */
  function Down(hi: nat, lo: nat): (ms: seq<nat>)
    ensures forall m :: m in ms <==> lo <= m <= hi
    ensures Within(ms, lo, hi)
    ensures ms != [] ==> ms[0] == hi
  {
    if hi < lo then []
    else if hi == 0 then [0]
    else [hi] + Down(hi - 1, lo)
  }

  /** Where `piece` can end when it begins at `i`, in the order the engine tries. */
  function Choices(piece: Piece, s: string, i: nat): (ms: seq<nat>)
    requires i <= |s|
    ensures Within(ms, i, |s|)
  {
    match piece
    case Lit(text) => if At(text, s, i) then [i + |text|] else []
    case FoldLit(text) => if FoldAt(text, s, i) then [i + |text|] else []
    case Maybe(text) => if At(text, s, i) then [i + |text|, i] else [i]
    case AtLeast(cls, min) => Down(RunEnd(cls, s, i), i + min)
  }

  /** The engine: where the match found at `i` ends. */
  function MatchEnd(re: seq<Piece>, s: string, i: nat): (r: Option<nat>)
    requires i <= |s|
    ensures r.Some? ==> i <= r.value <= |s|
    decreases |re|, 0
  {
    if re == [] then Some(i) else FirstSuccess(re[1..], s, i, Choices(re[0], s, i))
  }

  /** Try the choices in order and backtrack on failure. */
  function FirstSuccess(rest: seq<Piece>, s: string, i: nat, choices: seq<nat>): (r: Option<nat>)
    requires Within(choices, i, |s|)
    ensures r.Some? ==> i <= r.value <= |s|
    decreases |rest|, 1, |choices|
  {
    if choices == [] then None
    else
      var r := MatchEnd(rest, s, choices[0]);
      if r.Some? then r else FirstSuccess(rest, s, i, choices[1..])
  }

  lemma {:induction false} DerivesRange(re: seq<Piece>, s: string, i: nat, j: nat)
    requires Derives(re, s, i, j)
    ensures i <= j <= |s|
    decreases |re|
  {
    if re != [] {
      var m: nat :| Takes(re[0], s, i, m) && Derives(re[1..], s, m, j);
      DerivesRange(re[1..], s, m, j);
    }
  }

  lemma {:induction false} RunCovers(cls: CharClass, s: string, i: nat, k: nat)
    requires i <= k && AllIn(cls, s, i, k)
    ensures k <= RunEnd(cls, s, i)
    ensures k < |s| && !In(cls, s[k]) ==> k == RunEnd(cls, s, i)
    decreases k - i
  {
    if i < k {
      RunCovers(cls, s, i + 1, k);
    }
  }

  lemma ChoicesAreExact(piece: Piece, s: string, i: nat, m: nat)
    requires i <= |s| && m <= |s|
    ensures m in Choices(piece, s, i) <==> Takes(piece, s, i, m)
  {
    if piece.AtLeast? && i <= m && AllIn(piece.cls, s, i, m) {
      RunCovers(piece.cls, s, i, m);
    }
  }

  /** The engine finds only members of the language ... */
  lemma {:induction false} EngineIsSound(re: seq<Piece>, s: string, i: nat)
    requires i <= |s| && MatchEnd(re, s, i).Some?
    ensures Derives(re, s, i, MatchEnd(re, s, i).value)
    decreases |re|, 0
  {
    if re != [] {
      var m := SuccessIsSound(re[1..], s, i, Choices(re[0], s, i));
      ChoicesAreExact(re[0], s, i, m);
    }
  }

  lemma {:induction false} SuccessIsSound(rest: seq<Piece>, s: string, i: nat, choices: seq<nat>)
      returns (m: nat)
    requires Within(choices, i, |s|)
    requires FirstSuccess(rest, s, i, choices).Some?
    ensures m in choices && Derives(rest, s, m, FirstSuccess(rest, s, i, choices).value)
    decreases |rest|, 1, |choices|
  {
    if MatchEnd(rest, s, choices[0]).Some? {
      m := choices[0];
      EngineIsSound(rest, s, m);
    } else {
      m := SuccessIsSound(rest, s, i, choices[1..]);
    }
  }

  /** ... and finds one whenever one begins at `i`. */
  lemma {:induction false} EngineIsComplete(re: seq<Piece>, s: string, i: nat, j: nat)
    requires Derives(re, s, i, j)
    ensures i <= |s| && MatchEnd(re, s, i).Some?
    decreases |re|
  {
    DerivesRange(re, s, i, j);
    if re != [] {
      var m: nat :| Takes(re[0], s, i, m) && Derives(re[1..], s, m, j);
      EngineIsComplete(re[1..], s, m, j);
      ChoicesAreExact(re[0], s, i, m);
      SomeChoiceSucceeds(re[1..], s, i, Choices(re[0], s, i), m);
    }
  }

  lemma {:induction false} SomeChoiceSucceeds(rest: seq<Piece>, s: string, i: nat, choices: seq<nat>, m: nat)
    requires Within(choices, i, |s|)
    requires m in choices && MatchEnd(rest, s, m).Some?
    ensures FirstSuccess(rest, s, i, choices).Some?
    decreases |choices|
  {
    if m != choices[0] {
      SomeChoiceSucceeds(rest, s, i, choices[1..], m);
    }
  }

  lemma Prepend(piece: Piece, rest: seq<Piece>, s: string, i: nat, m: nat, j: nat)
    requires Takes(piece, s, i, m) && Derives(rest, s, m, j)
    ensures Derives([piece] + rest, s, i, j)
  {
    assert ([piece] + rest)[1..] == rest;
  }

  /** Membership looks at the characters of the substring only. */
  lemma {:induction false} Transfer(re: seq<Piece>, s: string, i: nat, j: nat, s': string, i': nat)
    requires Derives(re, s, i, j)
    requires i <= j <= |s| && i' + (j - i) <= |s'| && s[i..j] == s'[i'..i' + (j - i)]
    ensures Derives(re, s', i', i' + (j - i))
    decreases |re|
  {
    if re != [] {
      var m: nat :| Takes(re[0], s, i, m) && Derives(re[1..], s, m, j);
      DerivesRange(re[1..], s, m, j);
      forall k | i <= k < j ensures s[k] == s'[i' + (k - i)] {
        assert s[i..j][k - i] == s'[i'..i' + (j - i)][k - i];
      }
      var m' := i' + (m - i);
      TransferTakes(re[0], s, i, m, s', i');
      Transfer(re[1..], s, m, j, s', m');
    }
  }

  lemma TransferTakes(piece: Piece, s: string, i: nat, m: nat, s': string, i': nat)
    requires Takes(piece, s, i, m) && i <= m <= |s| && i' + (m - i) <= |s'|
    requires forall k :: i <= k < m ==> s[k] == s'[i' + (k - i)]
    ensures Takes(piece, s', i', i' + (m - i))
  {
    if piece.AtLeast? {
      forall k | i' <= k < i' + (m - i) ensures In(piece.cls, s'[k]) {
        assert s[i + (k - i')] == s'[i' + (i + (k - i') - i)];
      }
    } else {
      forall k {:trigger piece.text[k]} | 0 <= k < m - i ensures s'[i' + k] == s[i + k] {
        assert s[i + k] == s'[i' + (i + k - i)];
      }
    }
  }

  /** The engine's first choice for `piece` is final: what comes next cannot begin with a
      character that the piece could have taken or left. */
  predicate Committed(piece: Piece, next: Option<Piece>) {
    match piece
    case AtLeast(cls, _) =>
      next.None? ||
      (match next.value
       case Lit(text) => text != "" && !In(cls, text[0])
       case AtLeast(after, min) => min > 0 && cls == Space && after == TokenChar
       case _ => false)
    case Maybe(text) =>
      text != "" && next.Some? && next.value.Lit? &&
      next.value.text != "" && next.value.text[0] != text[0]
    case _ => true
  }

  predicate Determinate(re: seq<Piece>) {
    forall k {:trigger re[k]} :: 0 <= k < |re| ==>
      Committed(re[k], if k + 1 < |re| then Some(re[k + 1]) else None)
  }

  /** On a determinate expression the engine's match is the longest one in the language, so
      greedy-with-backtracking and leftmost-longest agree. */
  lemma {:induction false} EngineFindsLongest(re: seq<Piece>, s: string, i: nat, j: nat)
    requires Determinate(re) && Derives(re, s, i, j)
    ensures i <= |s| && MatchEnd(re, s, i).Some? && j <= MatchEnd(re, s, i).value
    decreases |re|
  {
    DerivesRange(re, s, i, j);
    if re != [] {
      var rest := re[1..];
      var m: nat :| Takes(re[0], s, i, m) && Derives(rest, s, m, j);
      DerivesRange(rest, s, m, j);
      assert Determinate(rest) by {
        forall k | 0 <= k < |rest| ensures rest[k] == re[k + 1] {}
      }
      EngineFindsLongest(rest, s, m, j);
      ChoicesAreExact(re[0], s, i, m);
      FirstChoiceIsBest(re, s, i, m, j);
      FirstDecides(rest, s, i, Choices(re[0], s, i));
    }
  }

  lemma FirstDecides(rest: seq<Piece>, s: string, i: nat, choices: seq<nat>)
    requires Within(choices, i, |s|)
    requires choices != [] && MatchEnd(rest, s, choices[0]).Some?
    ensures FirstSuccess(rest, s, i, choices) == MatchEnd(rest, s, choices[0])
  {
  }

  /** The first choice is the only one the rest can follow, or there is no rest and it is the
      longest. */
  lemma FirstChoiceIsBest(re: seq<Piece>, s: string, i: nat, m: nat, j: nat)
    requires Determinate(re) && re != [] && i <= m <= |s|
    requires m in Choices(re[0], s, i) && Derives(re[1..], s, m, j)
    ensures m == Choices(re[0], s, i)[0] || (re[1..] == [] && m <= Choices(re[0], s, i)[0])
  {
    ChoicesAreExact(re[0], s, i, m);
    match re[0]
    case Maybe(text) =>
      if m == i { MissesOptional(re, s, i, j); }
    case AtLeast(cls, min) =>
      RunCovers(cls, s, i, m);
      if re[1..] != [] {
        assert re[1..][0] == re[1];
        StopsAtOnce(cls, re[1..], s, m, j);
      }
    case _ =>
  }

  lemma MissesOptional(re: seq<Piece>, s: string, i: nat, j: nat)
    requires Determinate(re) && re != [] && re[0].Maybe? && Derives(re[1..], s, i, j)
    ensures !At(re[0].text, s, i)
  {
    assert re[1..][0] == re[1];
    assert s[i + 0] == re[1].text[0];
    assert re[0].text[0] != re[1].text[0];
  }

  lemma StopsAtOnce(cls: CharClass, rest: seq<Piece>, s: string, k: nat, j: nat)
    requires rest != [] && (exists min :: Committed(AtLeast(cls, min), Some(rest[0]))) && Derives(rest, s, k, j)
    ensures k < |s| && !In(cls, s[k])
  {
    var m: nat :| Takes(rest[0], s, k, m) && Derives(rest[1..], s, m, j);
    if rest[0].Lit? {
      assert s[k + 0] == rest[0].text[0];
    } else {
      assert In(rest[0].cls, s[k]);
    }
  }
}
