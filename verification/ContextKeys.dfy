/** The names of the correlation fields, and that of the event itself, are not sensitive: what is
    logged under them is shown. */
module ContextKeys {
  import opened Regex
  import opened Texts
  import opened SensitiveKeys
  import opened CorrelationContext

  predicate InEvent(c: char) {
    c == 'e' || c == 'v' || c == 'n' || c == 't'
  }

  lemma NoKeyPatternInEvent(hay: string, p: string)
    requires forall c :: c in hay ==> InEvent(c)
    requires p in SENSITIVE_KEY_PATTERNS
    ensures !Contains(hay, p)
  {
    LacksCharacter(hay, p, if p == "token" then 1 else 0);
  }

  lemma NoPiiPatternInEvent(hay: string, p: string)
    requires forall c :: c in hay ==> InEvent(c)
    requires p in PII_KEY_PATTERNS
    ensures !Contains(hay, p)
  {
    LacksCharacter(hay, p, if p == "email" || p == "tax_id" then 1 else 0);
  }

  lemma LikeEvent(hay: string)
    requires forall c :: c in hay ==> InEvent(c)
    ensures !IsSensitiveKey(hay)
  {
    forall k | 0 <= k < |hay| ensures InEvent(hay[k]) { assert hay[k] in hay; }
    LowerKeepsLowerCase(hay);
    forall p | p in SENSITIVE_KEY_PATTERNS ensures !Contains(hay, p) { NoKeyPatternInEvent(hay, p); }
    forall p | p in PII_KEY_PATTERNS ensures !Contains(hay, p) { NoPiiPatternInEvent(hay, p); }
  }

  predicate InRequestId(c: char) {
    c == 'r' || c == 'e' || c == 'q' || c == 'u' || c == 's' || c == 't' || c == '_' || c == 'i' || c == 'd'
  }

  lemma NoKeyPatternInRequestId(hay: string, p: string)
    requires forall c :: c in hay ==> InRequestId(c)
    requires p in SENSITIVE_KEY_PATTERNS
    ensures !Contains(hay, p)
  {
    LacksCharacter(hay, p,
      if p == "secret" then 2 else if p == "token" then 1 else if p == "session_id" then 5 else 0);
  }

  lemma NoPiiPatternInRequestId(hay: string, p: string)
    requires forall c :: c in hay ==> InRequestId(c)
    requires p in PII_KEY_PATTERNS && p != "street"
    ensures !Contains(hay, p)
  {
    LacksCharacter(hay, p,
      if p == "ssn" then 2
      else if p == "email" || p == "tax_id" || p == "donor_name" || p == "date_of_birth" || p == "dob" then 1
      else 0);
  }

  lemma RequestIdIsNotSensitive()
    ensures !IsSensitiveKey("request_id")
  {
    LikeRequestId("request_id");
  }

  lemma LikeRequestId(hay: string)
    requires forall c :: c in hay ==> InRequestId(c)
    requires forall m :: 0 <= m < |hay| && m != 6 ==> hay[m] != 't'
    ensures !IsSensitiveKey(hay)
  {
    forall k | 0 <= k < |hay| ensures InRequestId(hay[k]) { assert hay[k] in hay; }
    LowerKeepsLowerCase(hay);
    forall p | p in SENSITIVE_KEY_PATTERNS ensures !Contains(hay, p) { NoKeyPatternInRequestId(hay, p); }
    forall p | p in PII_KEY_PATTERNS ensures !Contains(hay, p) {
      if p == "street" { LacksRepeat(hay, p, 1, 5, 6); } else { NoPiiPatternInRequestId(hay, p); }
    }
  }

  predicate InCorrelationId(c: char) {
    c == 'c' || c == 'o' || c == 'r' || c == 'e' || c == 'l' || c == 'a' || c == 't' || c == 'i' ||
    c == 'n' || c == '_' || c == 'd'
  }

  lemma NoKeyPatternInCorrelationId(hay: string, p: string)
    requires forall c :: c in hay ==> InCorrelationId(c)
    requires p in SENSITIVE_KEY_PATTERNS && p != "credential"
    ensures !Contains(hay, p)
  {
    LacksCharacter(hay, p,
      if p == "token" then 2 else if p == "cookie" then 3
      else if p == "api_key" || p == "apikey" || p == "authorization" || p == "auth_header" then 1 else 0);
  }

  lemma NoPiiPatternInCorrelationId(hay: string, p: string)
    requires forall c :: c in hay ==> InCorrelationId(c)
    requires p in PII_KEY_PATTERNS
    ensures !Contains(hay, p)
  {
    LacksCharacter(hay, p,
      if p == "email" then 1 else if p == "tax_id" || p == "last_name" || p == "dob" then 2
      else if p == "address" then 5 else if p == "date_of_birth" then 6 else if p == "donor_name" then 8 else 0);
  }

  lemma CorrelationIdIsNotSensitive()
    ensures !IsSensitiveKey("correlation_id")
  {
    LikeCorrelationId("correlation_id");
  }

  lemma LikeCorrelationId(hay: string)
    requires forall c :: c in hay ==> InCorrelationId(c)
    requires forall m :: 0 <= m < |hay| && m != 4 ==> hay[m] != 'e'
    ensures !IsSensitiveKey(hay)
  {
    forall k | 0 <= k < |hay| ensures InCorrelationId(hay[k]) { assert hay[k] in hay; }
    LowerKeepsLowerCase(hay);
    forall p | p in SENSITIVE_KEY_PATTERNS ensures !Contains(hay, p) {
      if p == "credential" { LacksRepeat(hay, p, 2, 4, 4); } else { NoKeyPatternInCorrelationId(hay, p); }
    }
    forall p | p in PII_KEY_PATTERNS ensures !Contains(hay, p) { NoPiiPatternInCorrelationId(hay, p); }
  }

  predicate InJobId(c: char) {
    c == 'j' || c == 'o' || c == 'b' || c == '_' || c == 'i' || c == 'd'
  }

  lemma NoKeyPatternInJobId(hay: string, p: string)
    requires forall c :: c in hay ==> InJobId(c)
    requires p in SENSITIVE_KEY_PATTERNS
    ensures !Contains(hay, p)
  {
    LacksCharacter(hay, p, 0);
  }

  lemma NoPiiPatternInJobId(hay: string, p: string)
    requires forall c :: c in hay ==> InJobId(c)
    requires p in PII_KEY_PATTERNS && p != "dob"
    ensures !Contains(hay, p)
  {
    LacksCharacter(hay, p, if p == "donor_name" then 2 else if p == "date_of_birth" then 1 else 0);
  }

  lemma LikeJobId(hay: string)
    requires forall c :: c in hay ==> InJobId(c)
    requires forall m :: 0 <= m < |hay| - 1 ==> hay[m] != 'd'
    ensures !IsSensitiveKey(hay)
  {
    forall k | 0 <= k < |hay| ensures InJobId(hay[k]) { assert hay[k] in hay; }
    LowerKeepsLowerCase(hay);
    forall p | p in SENSITIVE_KEY_PATTERNS ensures !Contains(hay, p) { NoKeyPatternInJobId(hay, p); }
    forall p | p in PII_KEY_PATTERNS ensures !Contains(hay, p) {
      if p == "dob" {
        forall i | 0 <= i <= |hay| ensures !At(p, hay, i) {
          if At(p, hay, i) { AtShows(p, hay, i, 0); }
        }
      } else {
        NoPiiPatternInJobId(hay, p);
      }
    }
  }

  predicate InWorkflowId(c: char) {
    c == 'w' || c == 'o' || c == 'r' || c == 'k' || c == 'f' || c == 'l' || c == '_' || c == 'i' || c == 'd'
  }

  lemma NoKeyPatternInWorkflowId(hay: string, p: string)
    requires forall c :: c in hay ==> InWorkflowId(c)
    requires p in SENSITIVE_KEY_PATTERNS
    ensures !Contains(hay, p)
  {
    LacksCharacter(hay, p, 0);
  }

  lemma NoPiiPatternInWorkflowId(hay: string, p: string)
    requires forall c :: c in hay ==> InWorkflowId(c)
    requires p in PII_KEY_PATTERNS
    ensures !Contains(hay, p)
  {
    LacksCharacter(hay, p,
      if p == "first_name" then 3 else if p == "donor_name" || p == "dob" then 2
      else if p == "full_name" || p == "last_name" || p == "date_of_birth" then 1 else 0);
  }

  lemma LikeWorkflowId(hay: string)
    requires forall c :: c in hay ==> InWorkflowId(c)
    ensures !IsSensitiveKey(hay)
  {
    forall k | 0 <= k < |hay| ensures InWorkflowId(hay[k]) { assert hay[k] in hay; }
    LowerKeepsLowerCase(hay);
    forall p | p in SENSITIVE_KEY_PATTERNS ensures !Contains(hay, p) { NoKeyPatternInWorkflowId(hay, p); }
    forall p | p in PII_KEY_PATTERNS ensures !Contains(hay, p) { NoPiiPatternInWorkflowId(hay, p); }
  }

  predicate InAgent(c: char) {
    c == 'a' || c == 'g' || c == 'e' || c == 'n' || c == 't'
  }

  lemma NoKeyPatternInAgent(hay: string, p: string)
    requires forall c :: c in hay ==> InAgent(c)
    requires p in SENSITIVE_KEY_PATTERNS
    ensures !Contains(hay, p)
  {
    LacksCharacter(hay, p,
      if p == "token" || p == "api_key" || p == "apikey" || p == "authorization" || p == "auth_header" then 1 else 0);
  }

  lemma NoPiiPatternInAgent(hay: string, p: string)
    requires forall c :: c in hay ==> InAgent(c)
    requires p in PII_KEY_PATTERNS
    ensures !Contains(hay, p)
  {
    LacksCharacter(hay, p, if p == "tax_id" then 2 else if p == "email" || p == "address" then 1 else 0);
  }

  lemma LikeAgent(hay: string)
    requires forall c :: c in hay ==> InAgent(c)
    ensures !IsSensitiveKey(hay)
  {
    forall k | 0 <= k < |hay| ensures InAgent(hay[k]) { assert hay[k] in hay; }
    LowerKeepsLowerCase(hay);
    forall p | p in SENSITIVE_KEY_PATTERNS ensures !Contains(hay, p) { NoKeyPatternInAgent(hay, p); }
    forall p | p in PII_KEY_PATTERNS ensures !Contains(hay, p) { NoPiiPatternInAgent(hay, p); }
  }

  lemma EventKeyIsOpen()
    ensures !IsSensitiveKey("event")
  {
    LikeEvent("event");
  }

  /** Under none of its own names does a correlation field fall victim to redaction by key. */
  lemma FieldNameIsOpen(f: Field)
    ensures !IsSensitiveKey(FieldName(f))
  {
    match f
    case RequestId => RequestIdIsNotSensitive();
    case CorrelationId => CorrelationIdIsNotSensitive();
    case JobId => LikeJobId("job_id");
    case WorkflowId => LikeWorkflowId("workflow_id");
    case Agent => LikeAgent("agent");
  }
}
