/** Reading a Content-Length: Python's `int` on the text of the header. */
module ContentLength {
  import opened Wrappers

  predicate IsDigit(c: char) { '0' <= c <= '9' }

  function Digit(c: char): nat
    requires IsDigit(c)
  {
    (c - '0') as nat
  }

  /** What `int` strips from Latin-1 text. Unlike `\s`, it does not include the separators
      U+001C to U+001F. */
  predicate IsIntSpace(c: char) {
    '\t' <= c <= '\r' || c == ' ' || c == '\U{85}' || c == '\U{A0}'
  }

  function StripLeft(s: string): string {
    if s != "" && IsIntSpace(s[0]) then StripLeft(s[1..]) else s
  }

  function StripRight(s: string): string {
    if s != "" && IsIntSpace(s[|s| - 1]) then StripRight(s[..|s| - 1]) else s
  }

  /** Digits after a digit, single underscores allowed between them. */
  function MoreDigits(s: string, acc: nat): Option<nat>
    decreases |s|
  {
    if s == "" then Some(acc)
    else if IsDigit(s[0]) then MoreDigits(s[1..], acc * 10 + Digit(s[0]))
    else if s[0] == '_' && |s| > 1 && IsDigit(s[1]) then MoreDigits(s[2..], acc * 10 + Digit(s[1]))
    else None
  }

  function CountDigits(s: string): nat {
    if s == "" then 0 else (if IsDigit(s[0]) then 1 else 0) + CountDigits(s[1..])
  }

  /** CPython refuses longer decimal texts with a ValueError. */
  const MAX_STR_DIGITS: nat := 4300

  /** The digits behind the sign. */
  function ReadNumber(digits: string): Option<nat> {
    if digits == "" || !IsDigit(digits[0]) || CountDigits(digits) > MAX_STR_DIGITS then None
    else MoreDigits(digits[1..], Digit(digits[0]))
  }

  /** What stands between the white space: a sign, if any, and digits. */
  function ReadSigned(body: string): Option<int> {
    var signed := body != "" && (body[0] == '-' || body[0] == '+');
    match ReadNumber(if signed then body[1..] else body)
    case None => None
    case Some(n) => Some(if signed && body[0] == '-' then 0 - n else n as int)
  }

  /** `int(text)` on Latin-1 text; None stands for ValueError. */
  function ParseInt(text: string): Option<int> {
    ReadSigned(StripRight(StripLeft(text)))
  }

  predicate AllDigits(s: string) {
    forall k :: 0 <= k < |s| ==> IsDigit(s[k])
  }

  /** The number that a row of digits denotes. */
  function Decimal(s: string): nat
    requires AllDigits(s)
  {
    if s == "" then 0 else Decimal(s[..|s| - 1]) * 10 + Digit(s[|s| - 1])
  }

  lemma {:induction false} MoreDigitsSnoc(s: string, acc: nat)
    requires AllDigits(s) && s != ""
    ensures var n := |s| - 1;
      MoreDigits(s, acc).Some? && MoreDigits(s[..n], acc).Some? &&
      MoreDigits(s, acc).value == MoreDigits(s[..n], acc).value * 10 + Digit(s[n])
    decreases |s|
  {
    if |s| == 1 {
      assert s[1..] == "" && s[..0] == "";
    } else {
      var acc' := acc * 10 + Digit(s[0]);
      MoreDigitsSnoc(s[1..], acc');
      assert s[..|s| - 1][1..] == s[1..][..|s| - 2];
    }
  }

  lemma {:induction false} MoreDigitsIsDecimal(s: string)
    requires AllDigits(s)
    ensures MoreDigits(s, 0) == Some(Decimal(s))
    decreases |s|
  {
    if s != "" {
      MoreDigitsSnoc(s, 0);
      MoreDigitsIsDecimal(s[..|s| - 1]);
    }
  }

  lemma {:induction false} CountsAll(s: string)
    requires AllDigits(s)
    ensures CountDigits(s) == |s|
    decreases |s|
  {
    if s != "" {
      CountsAll(s[1..]);
    }
  }

  /** A Content-Length as section 8.6 of RFC 9110 has it, digits only, is read as its value. */
  lemma ParsesContentLength(text: string)
    requires AllDigits(text) && text != ""
    ensures ParseInt(text) == if |text| <= MAX_STR_DIGITS then Some(Decimal(text)) else None
  {
    assert StripLeft(text) == text && StripRight(text) == text;
    CountsAll(text);
    MoreDigitsIsDecimal(text);
    assert MoreDigits(text, 0) == MoreDigits(text[1..], Digit(text[0]));
  }

  // ----- which texts are read, and as what --------------------------------------------------

  predicate IsBlank(t: string) {
    forall c :: c in t ==> c in "\t\n\U{0B}\U{0C}\r \U{85}\U{A0}"
  }

  /** Digits, with single underscores between them. */
  predicate IsGrouped(t: string) {
    t != "" && t[0] != '_' && t[|t| - 1] != '_' &&
    (forall k :: 0 <= k < |t| ==> t[k] in "0123456789_") &&
    forall k :: 0 < k < |t| ==> t[k - 1] != '_' || t[k] != '_'
  }

  /** The number that the digits denote, underscores left out. */
  function Reading(t: string): int {
    if t == "" then 0
    else
      var n := |t| - 1;
      if t[n] == '_' then Reading(t[..n]) else Reading(t[..n]) * 10 + (t[n] as int - 48)
  }

  /** `text` is an integer literal and denotes `n`: white space, a sign or none, at most 4300 digits,
      white space. */
  ghost predicate Denotes(text: string, n: int) {
    exists before, sign, digits, after ::
      IsLiteral(text, before, sign, digits, after) &&
      n == (if sign == "-" then -Reading(digits) else Reading(digits))
  }

  predicate IsLiteral(text: string, before: string, sign: string, digits: string, after: string) {
    text == before + sign + digits + after && IsBlank(before) && IsBlank(after) &&
    IsSign(sign) &&
    IsGrouped(digits) && |digits| - multiset(digits)['_'] <= 4300
  }

  lemma IntSpaceIff(c: char)
    ensures IsIntSpace(c) <==> c in "\t\n\U{0B}\U{0C}\r \U{85}\U{A0}"
  {
  }

  lemma {:induction false} StripLeftIs(before: string, rest: string)
    requires IsBlank(before) && (rest != "" ==> !IsIntSpace(rest[0]))
    ensures StripLeft(before + rest) == rest
    decreases |before|
  {
    if before == "" {
      assert before + rest == rest;
    } else {
      assert before[0] in before;
      IntSpaceIff(before[0]);
      assert (before + rest)[1..] == before[1..] + rest;
      StripLeftIs(before[1..], rest);
    }
  }

  lemma {:induction false} StripRightIs(rest: string, after: string)
    requires IsBlank(after) && (rest != "" ==> !IsIntSpace(rest[|rest| - 1]))
    ensures StripRight(rest + after) == rest
    decreases |after|
  {
    if after == "" {
      assert rest + after == rest;
    } else {
      var n := |after| - 1;
      assert after[n] in after;
      IntSpaceIff(after[n]);
      assert (rest + after)[..|rest| + n] == rest + after[..n];
      StripRightIs(rest, after[..n]);
    }
  }

  lemma {:induction false} StrippedLeft(text: string) returns (before: string)
    ensures text == before + StripLeft(text) && IsBlank(before)
    decreases |text|
  {
    if text != "" && IsIntSpace(text[0]) {
      IntSpaceIff(text[0]);
      var more := StrippedLeft(text[1..]);
      before := [text[0]] + more;
      assert text == [text[0]] + text[1..];
    } else {
      before := "";
    }
  }

  lemma {:induction false} StrippedRight(text: string) returns (after: string)
    ensures text == StripRight(text) + after && IsBlank(after)
    decreases |text|
  {
    if text != "" && IsIntSpace(text[|text| - 1]) {
      var n := |text| - 1;
      IntSpaceIff(text[n]);
      var more := StrippedRight(text[..n]);
      after := more + [text[n]];
      assert text == text[..n] + [text[n]];
    } else {
      after := "";
    }
  }

  lemma DigitIff(c: char)
    ensures IsDigit(c) <==> c in "0123456789"
    ensures IsDigit(c) ==> Digit(c) == c as int - 48
  {
  }

  lemma {:induction false} CountIs(t: string)
    requires forall k :: 0 <= k < |t| ==> t[k] in "0123456789_"
    ensures CountDigits(t) == |t| - multiset(t)['_']
    decreases |t|
  {
    if t != "" {
      DigitIff(t[0]);
      assert t == [t[0]] + t[1..];
      CountIs(t[1..]);
    }
  }

  /** One more digit, with an underscore before it or without. */
  lemma GroupedDigit(seen: string, gap: string, c: char)
    requires IsGrouped(seen) && Reading(seen) >= 0 && (gap == "" || gap == "_") && IsDigit(c)
    ensures IsGrouped(seen + gap + [c])
    ensures Reading(seen + gap + [c]) == Reading(seen) * 10 + Digit(c)
  {
    DigitIff(c);
    var n := |seen|;
    assert (seen + gap + [c])[..n + |gap|] == seen + gap;
    assert seen + "" == seen && (seen + "_")[..n] == seen;
  }

  /** What cannot follow a digit. */
  lemma NotGrouped(seen: string, rest: string)
    requires rest != "" && !IsDigit(rest[0]) && !(rest[0] == '_' && |rest| > 1 && IsDigit(rest[1]))
    ensures !IsGrouped(seen + rest)
  {
    var all, n := seen + rest, |seen|;
    assert all[n] == rest[0];
    DigitIff(rest[0]);
    if |rest| > 1 {
      assert all[n + 1] == rest[1];
      DigitIff(rest[1]);
    }
  }

  /** Behind the digits read so far, the rest is accepted exactly when the whole is grouped. */
  lemma {:induction false} MoreDigitsIff(seen: string, rest: string)
    requires IsGrouped(seen) && Reading(seen) >= 0
    ensures MoreDigits(rest, Reading(seen)).Some? <==> IsGrouped(seen + rest)
    ensures IsGrouped(seen + rest) ==> MoreDigits(rest, Reading(seen)).value == Reading(seen + rest)
    decreases |rest|
  {
    hide IsGrouped, Reading, IsDigit, Digit;
    if rest == "" {
      assert seen + rest == seen;
    } else if IsDigit(rest[0]) {
      GroupedDigit(seen, "", rest[0]);
      assert seen + "" + [rest[0]] + rest[1..] == seen + rest;
      MoreDigitsIff(seen + "" + [rest[0]], rest[1..]);
    } else if rest[0] == '_' && |rest| > 1 && IsDigit(rest[1]) {
      GroupedDigit(seen, "_", rest[1]);
      assert seen + "_" + [rest[1]] + rest[2..] == seen + rest;
      MoreDigitsIff(seen + "_" + [rest[1]], rest[2..]);
    } else {
      NotGrouped(seen, rest);
    }
  }

  lemma OneDigit(c: char)
    requires IsDigit(c)
    ensures IsGrouped([c]) && Reading([c]) == Digit(c)
  {
    DigitIff(c);
    assert [c][..0] == "";
  }

  lemma GroupedCount(digits: string)
    requires IsGrouped(digits)
    ensures IsDigit(digits[0]) && CountDigits(digits) == |digits| - multiset(digits)['_']
  {
    DigitIff(digits[0]);
    CountIs(digits);
  }

  lemma ReadNumberIff(digits: string)
    ensures ReadNumber(digits).Some? <==> IsGrouped(digits) && |digits| - multiset(digits)['_'] <= 4300
    ensures ReadNumber(digits).Some? ==> ReadNumber(digits).value == Reading(digits)
  {
    if IsGrouped(digits) { GroupedCount(digits); }
    if digits != "" && IsDigit(digits[0]) {
      OneDigit(digits[0]);
      JoinDigit(digits);
    }
  }

  lemma JoinDigit(digits: string)
    requires digits != "" && IsDigit(digits[0]) && IsGrouped([digits[0]]) && Reading([digits[0]]) == Digit(digits[0])
    ensures var more := MoreDigits(digits[1..], Digit(digits[0]));
      (more.Some? <==> IsGrouped(digits)) && (more.Some? ==> more.value == Reading(digits))
  {
    hide IsGrouped, Reading;
    assert [digits[0]] + digits[1..] == digits;
    MoreDigitsIff([digits[0]], digits[1..]);
  }

  lemma GroupedHasNoSpace(digits: string, k: nat)
    requires IsGrouped(digits) && k < |digits|
    ensures !IsIntSpace(digits[k]) && digits[k] != '-' && digits[k] != '+'
  {
  }

  predicate IsSign(sign: string) { sign == "" || sign == "+" || sign == "-" }

  lemma SignedIsRead(sign: string, digits: string)
    requires IsSign(sign) && IsGrouped(digits) && |digits| - multiset(digits)['_'] <= 4300
    ensures ReadSigned(sign + digits) == Some(if sign == "-" then -Reading(digits) else Reading(digits))
  {
    hide IsGrouped, Reading, ReadNumber;
    GroupedStarts(digits);
    ReadNumberIff(digits);
    if sign == "" {
      assert sign + digits == digits;
    } else {
      assert (sign + digits)[1..] == digits;
    }
  }

  lemma GroupedStarts(digits: string)
    requires IsGrouped(digits)
    ensures digits != "" && digits[0] != '-' && digits[0] != '+'
    ensures !IsIntSpace(digits[0]) && !IsIntSpace(digits[|digits| - 1])
  {
    GroupedHasNoSpace(digits, 0);
    GroupedHasNoSpace(digits, |digits| - 1);
  }

  lemma LiteralIsRead(text: string, before: string, sign: string, digits: string, after: string)
    requires IsLiteral(text, before, sign, digits, after)
    ensures ParseInt(text) == Some(if sign == "-" then -Reading(digits) else Reading(digits))
  {
    hide IsGrouped, Reading, ReadSigned;
    var body := sign + digits;
    GroupedStarts(digits);
    assert body[|body| - 1] == digits[|digits| - 1] && body[0] == if sign == "" then digits[0] else sign[0];
    assert text == before + (body + after);
    StripLeftIs(before, body + after);
    StripRightIs(body, after);
    SignedIsRead(sign, digits);
  }

  lemma ReadIsSigned(body: string) returns (sign: string, digits: string)
    requires ReadSigned(body).Some?
    ensures body == sign + digits && IsSign(sign) && IsGrouped(digits) && |digits| - multiset(digits)['_'] <= 4300
  {
    hide IsGrouped, Reading, ReadNumber;
    sign := if body != "" && (body[0] == '-' || body[0] == '+') then [body[0]] else "";
    digits := body[|sign|..];
    ReadNumberIff(digits);
  }

  lemma ReadIsLiteral(text: string) returns (before: string, sign: string, digits: string, after: string)
    requires ParseInt(text).Some?
    ensures IsLiteral(text, before, sign, digits, after)
  {
    hide IsGrouped, Reading, ReadSigned, IsBlank, IsIntSpace, StripLeft, StripRight;
    before := StrippedLeft(text);
    var rest := StripLeft(text);
    after := StrippedRight(rest);
    sign, digits := ReadIsSigned(StripRight(rest));
    FourParts(before, sign, digits, after);
  }

  lemma FourParts(a: string, b: string, c: string, d: string)
    ensures a + (b + c + d) == a + b + c + d
  {
  }

  /** A header is read as a number exactly when it is an integer literal for it; all other texts are
      refused. */
  lemma ParseIntIff(text: string, n: int)
    ensures ParseInt(text) == Some(n) <==> Denotes(text, n)
  {
    hide ParseInt, IsLiteral, Reading;
    if ParseInt(text).Some? {
      var before, sign, digits, after := ReadIsLiteral(text);
      LiteralIsRead(text, before, sign, digits, after);
    }
    if Denotes(text, n) {
      var before, sign, digits, after :| IsLiteral(text, before, sign, digits, after) &&
        n == (if sign == "-" then -Reading(digits) else Reading(digits));
      LiteralIsRead(text, before, sign, digits, after);
    }
  }
}
