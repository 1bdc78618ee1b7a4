/** Key names whose values are never shown. */
module SensitiveKeys {
  import opened Texts

  const SENSITIVE_KEY_PATTERNS: seq<string> := [
    "password", "passwd", "secret", "token", "api_key", "apikey", "authorization",
    "auth_header", "credential", "private_key", "session_id", "cookie"]

  const PII_KEY_PATTERNS: seq<string> := [
    "email", "phone", "ssn", "tax_id", "address", "street", "donor_name", "full_name",
    "first_name", "last_name", "date_of_birth", "dob"]

  predicate IsSensitiveKey(key: string) {
    (exists p :: p in SENSITIVE_KEY_PATTERNS && Contains(Lower(key), p)) ||
    (exists p :: p in PII_KEY_PATTERNS && Contains(Lower(key), p))
  }

  // ----- which keys these are ---------------------------------------------------------------

  predicate IsSecretWord(word: string) {
    word == "password" || word == "passwd" || word == "secret" || word == "token" || word == "api_key" ||
    word == "apikey" || word == "authorization" || word == "auth_header" || word == "credential" ||
    word == "private_key" || word == "session_id" || word == "cookie"
  }

  predicate IsPersonalWord(word: string) {
    word == "email" || word == "phone" || word == "ssn" || word == "tax_id" || word == "address" ||
    word == "street" || word == "donor_name" || word == "full_name" || word == "first_name" ||
    word == "last_name" || word == "date_of_birth" || word == "dob"
  }

  /** Somewhere in the key stands one of the words, in whatever case. */
  ghost predicate NamesSecret(key: string) {
    exists word, i: nat :: (IsSecretWord(word) || IsPersonalWord(word)) && SpelledAt(key, i, word)
  }

  lemma SecretWordsArePlain(word: string)
    requires IsSecretWord(word)
    ensures PlainWord(word)
  {
  }

  lemma PersonalWordsArePlain(word: string)
    requires IsPersonalWord(word)
    ensures PlainWord(word)
  {
  }

  lemma PatternsAreTheWords(word: string)
    ensures word in SENSITIVE_KEY_PATTERNS <==> IsSecretWord(word)
    ensures word in PII_KEY_PATTERNS <==> IsPersonalWord(word)
  {
  }

  /** A key is sensitive exactly when it spells one of the words. */
  lemma SensitiveIff(key: string)
    ensures IsSensitiveKey(key) <==> NamesSecret(key)
  {
    forall word | IsSecretWord(word) || IsPersonalWord(word)
      ensures Contains(Lower(key), word) <==> exists i: nat :: SpelledAt(key, i, word)
    {
      if IsSecretWord(word) { SecretWordsArePlain(word); } else { PersonalWordsArePlain(word); }
      FoldedContainsIff(key, word);
    }
    forall word
      ensures word in SENSITIVE_KEY_PATTERNS <==> IsSecretWord(word)
      ensures word in PII_KEY_PATTERNS <==> IsPersonalWord(word)
    {
      PatternsAreTheWords(word);
    }
  }

  /** In particular every key that has one of the words in it, in capitals or not. */
  lemma WordInKeyIsSensitive(before: string, spelled: string, after: string, word: string)
    requires IsSecretWord(word) || IsPersonalWord(word)
    requires |spelled| == |word| && SpelledAt(spelled, 0, word)
    ensures IsSensitiveKey(before + spelled + after)
  {
    var key, i := before + spelled + after, |before|;
    forall k {:trigger word[k]} | 0 <= k < |word| ensures SameLetter(key[i + k], word[k]) {
      assert key[i + k] == spelled[0 + k];
    }
    assert SpelledAt(key, i, word);
    SensitiveIff(key);
  }
}
