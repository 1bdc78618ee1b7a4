/** `str.lower` and `in` on strings. */
module Texts {
  import opened Regex

  /** `str.lower()`, exact on every character whose lower case contains an ASCII one. */
  function Lower(key: string): string {
    if key == "" then ""
    else
      (if key[0] == '\U{212A}' then "k"
       else if key[0] == '\U{0130}' then ['i', '\U{0307}']
       else [ToLower(key[0])]) + Lower(key[1..])
  }

  predicate Contains(hay: string, needle: string) {
    exists i :: 0 <= i <= |hay| && At(needle, hay, i)
  }

  lemma AtShows(needle: string, hay: string, i: nat, k: nat)
    requires At(needle, hay, i) && k < |needle|
    ensures i + k < |hay| && hay[i + k] == needle[k] && needle[k] in hay && needle[k] in needle
  {
    assert needle[k] == hay[i + k];
  }

  lemma LacksCharacter(hay: string, needle: string, k: nat)
    requires k < |needle| && needle[k] !in hay
    ensures !Contains(hay, needle)
  {
    forall i | 0 <= i <= |hay| ensures !At(needle, hay, i) {
      if At(needle, hay, i) { AtShows(needle, hay, i, k); }
    }
  }

  /** The needle has the same character at two places, the hay only at place `at`. */
  lemma LacksRepeat(hay: string, needle: string, k: nat, l: nat, at: nat)
    requires k < l < |needle| && needle[k] == needle[l]
    requires forall m :: 0 <= m < |hay| && m != at ==> hay[m] != needle[k]
    ensures !Contains(hay, needle)
  {
    forall i | 0 <= i <= |hay| ensures !At(needle, hay, i) {
      if At(needle, hay, i) { AtShows(needle, hay, i, k); AtShows(needle, hay, i, l); }
    }
  }

  lemma {:induction false} LowerKeepsLowerCase(key: string)
    requires forall k :: 0 <= k < |key| ==> 'a' <= key[k] <= 'z' || key[k] == '_'
    ensures Lower(key) == key
    decreases |key|
  {
    if key != "" {
      LowerKeepsLowerCase(key[1..]);
      assert Lower(key) == [key[0]] + Lower(key[1..]);
    }
  }

  // ----- what lower-casing and searching amount to ------------------------------------------

  /** `word` stands at place `i` of `text`. */
  predicate StandsAt(word: string, text: string, i: nat) {
    i + |word| <= |text| && text[i..i + |word|] == word
  }

  lemma StandsAtIff(word: string, text: string, i: nat)
    ensures StandsAt(word, text, i) <==> At(word, text, i)
  {
    if StandsAt(word, text, i) {
      forall k | 0 <= k < |word| ensures text[i + k] == word[k] { assert text[i + k] == text[i..i + |word|][k]; }
    }
  }

  lemma ContainsIff(text: string, word: string)
    ensures Contains(text, word) <==> exists i: nat :: StandsAt(word, text, i)
  {
    if i :| 0 <= i <= |text| && At(word, text, i) { StandsAtIff(word, text, i); }
    if i: nat :| StandsAt(word, text, i) { StandsAtIff(word, text, i); }
  }

  /** `c` is the letter `n`, or its capital; the Kelvin sign counts as a K. */
  predicate SameLetter(c: char, n: char) {
    c == n || ('A' <= c <= 'Z' && c as int + 32 == n as int) || (c == '\U{212A}' && n == 'k')
  }

  /** `word` stands at place `i` of `text`, in whatever case. */
  predicate SpelledAt(text: string, i: nat, word: string) {
    i + |word| <= |text| && forall k {:trigger word[k]} :: 0 <= k < |word| ==> SameLetter(text[i + k], word[k])
  }

  /** A word in lower case, without the one letter that some capital turns into two characters, at
      its end. */
  predicate PlainWord(word: string) {
    word != "" && word[|word| - 1] != 'i' &&
    forall k :: 0 <= k < |word| ==> 'a' <= word[k] <= 'z' || word[k] == '_' || word[k] == ' '
  }

  function LowerOne(c: char): string {
    if c == '\U{212A}' then "k" else if c == '\U{0130}' then ['i', '\U{0307}'] else [ToLower(c)]
  }

  lemma LowerCons(key: string)
    requires key != ""
    ensures Lower(key) == LowerOne(key[0]) + Lower(key[1..])
  {
  }

  lemma LetterIff(c: char, n: char)
    requires 'a' <= n <= 'z' || n == '_' || n == ' '
    ensures LowerOne(c) == [n] <==> SameLetter(c, n)
  {
  }

  /** A text contains a word after lower-casing exactly when it spells it, in whatever case. */
  lemma FoldedContainsIff(text: string, word: string)
    requires PlainWord(word)
    ensures Contains(Lower(text), word) <==> exists i: nat :: SpelledAt(text, i, word)
  {
    if q :| 0 <= q <= |Lower(text)| && At(word, Lower(text), q) {
      var i := WordWasSpelled(text, q, word);
    }
    if i: nat :| SpelledAt(text, i, word) {
      var q := SpelledWordIsFound(text, i, word);
      assert At(word, Lower(text), q);
    }
  }

  lemma {:induction false} SpelledWordIsFound(text: string, i: nat, word: string) returns (q: nat)
    requires PlainWord(word) && SpelledAt(text, i, word)
    ensures At(word, Lower(text), q) && q <= |Lower(text)|
    decreases i
  {
    if i == 0 {
      SpelledPrefix(text, word, 0);
      q := 0;
      assert Lower(text)[..|word|] == word;
      forall k | 0 <= k < |word| ensures Lower(text)[k] == word[k] { assert Lower(text)[..|word|][k] == word[k]; }
    } else {
      var rest := text[1..];
      forall k {:trigger word[k]} | 0 <= k < |word| ensures SameLetter(rest[i - 1 + k], word[k]) {
        assert rest[i - 1 + k] == text[i + k];
      }
      var q' := SpelledWordIsFound(rest, i - 1, word);
      LowerCons(text);
      q := q' + |LowerOne(text[0])|;
      forall k | 0 <= k < |word| ensures Lower(text)[q + k] == word[k] {
        assert Lower(text)[q + k] == Lower(rest)[q' + k];
      }
    }
  }

  lemma {:induction false} SpelledPrefix(text: string, word: string, n: nat)
    requires n <= |word| <= |text| && (word != "" ==> PlainWord(word)) && SpelledAt(text, 0, word)
    ensures word[n..] <= Lower(text[n..])
    decreases |word| - n
  {
    if n < |word| {
      SpelledPrefix(text, word, n + 1);
      LowerCons(text[n..]);
      assert text[n..][1..] == text[n + 1..] && text[n..][0] == text[0 + n];
      LetterIff(text[n], word[n]);
      assert word[n..] == [word[n]] + word[n + 1..];
      assert SameLetter(text[0 + n], word[n]);
    }
  }

  lemma {:induction false} WordWasSpelled(text: string, q: nat, word: string) returns (i: nat)
    requires PlainWord(word) && At(word, Lower(text), q)
    ensures SpelledAt(text, i, word)
    decreases |text|
  {
    AtShows(word, Lower(text), q, 0);
    LowerCons(text);
    var width := |LowerOne(text[0])|;
    if q == 0 {
      i := 0;
      forall k | 0 <= k < |word| ensures Lower(text)[k] == word[k] { assert Lower(text)[0 + k] == word[k]; }
      PrefixWasSpelled(text, word, 0);
    } else if q < width {
      assert false;
    } else {
      forall k | 0 <= k < |word| ensures Lower(text[1..])[q - width + k] == word[k] {
        assert Lower(text)[q + k] == word[k];
      }
      i := WordWasSpelled(text[1..], q - width, word);
      i := i + 1;
      forall k {:trigger word[k]} | 0 <= k < |word| ensures SameLetter(text[i + k], word[k]) {
        assert text[i + k] == text[1..][i - 1 + k];
      }
    }
  }

  lemma {:induction false} PrefixWasSpelled(text: string, word: string, n: nat)
    requires n < |word| && PlainWord(word) && n <= |text| && word[n..] <= Lower(text[n..])
    ensures |word| <= |text|
    ensures forall k {:trigger word[k]} :: n <= k < |word| ==> SameLetter(text[k], word[k])
    decreases |word| - n
  {
    var rest := text[n..];
    assert word[n..][0] == word[n] && rest != "";
    LowerCons(rest);
    assert rest[0] == text[n] && rest[1..] == text[n + 1..];
    assert Lower(rest)[0] == LowerOne(text[n])[0];
    if text[n] == '\U{0130}' {
      assert word[n] == 'i';
      assert word[n..][1] == word[n + 1] && Lower(rest)[1] == '\U{0307}';
      assert false;
    }
    LetterIff(text[n], word[n]);
    if n + 1 < |word| {
      assert word[n + 1..] == word[n..][1..] && Lower(rest)[1..] == Lower(text[n + 1..]);
      PrefixWasSpelled(text, word, n + 1);
    }
  }
}
