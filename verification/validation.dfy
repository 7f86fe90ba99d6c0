/** The two input checks of sign-up: the e-mail pattern
    `/^[^\s@]+@[^\s@]+\.[^\s@]+$/` and the strong-password pattern
    `/^(?=.*[a-z])(?=.*[A-Z])(?=.*\d).{8,}$/`, each written twice: once as
    the language the pattern denotes and once as a direct check, with a
    lemma that the two agree. */
module Validation {
  import opened Wrappers
  import opened Text

  /** A character of the class `[^\s@]`. */
  predicate IsEmailChar(c: char) {
    !IsWhitespace(c) && c != '@'
  }

  predicate IsAtSign(c: char) {
    c == '@'
  }

  /** A match of `[^\s@]+`. */
  predicate IsEmailField(x: string) {
    |x| > 0 && forall i :: 0 <= i < |x| ==> IsEmailChar(x[i])
  }

  /** The language of the anchored e-mail pattern: the string splits as
      field `@` field `.` field, the `.` being any dot after the `@`. */
  predicate EmailLanguage(s: string) {
    exists at, dot :: 0 < at < dot < |s| && s[at] == '@' && s[dot] == '.'
      && IsEmailField(s[..at]) && IsEmailField(s[at + 1..dot]) && IsEmailField(s[dot + 1..])
  }

  /** `EmailRegex.test(s)` as a direct check: no whitespace, exactly one
      `@` and not in first place, and a dot strictly inside the part after
      it. */
  predicate EmailRegex(s: string) {
    && (forall i :: 0 <= i < |s| ==> !IsWhitespace(s[i]))
    && match FirstIndex(s, IsAtSign)
       case None => false
       case Some(at) =>
         && at > 0
         && (forall j :: at < j < |s| ==> s[j] != '@')
         && exists dot :: at + 1 < dot < |s| - 1 && s[dot] == '.'
  }

  /** The direct check accepts exactly the language of the pattern. */
  lemma EmailRegexCorrect(s: string)
    ensures EmailRegex(s) <==> EmailLanguage(s)
  {
    if EmailRegex(s) {
      EmailRegexSound(s);
    }
    if EmailLanguage(s) {
      EmailRegexComplete(s);
    }
  }

  lemma EmailRegexSound(s: string)
    requires EmailRegex(s)
    ensures EmailLanguage(s)
  {
    var at := FirstIndex(s, IsAtSign).value;
    var dot :| at + 1 < dot < |s| - 1 && s[dot] == '.';
    FieldOfSlice(s, 0, at);
    FieldOfSlice(s, at + 1, dot);
    FieldOfSlice(s, dot + 1, |s|);
    assert s[dot + 1..] == s[dot + 1..|s|];
    assert s[..at] == s[0..at];
  }

  lemma EmailRegexComplete(s: string)
    requires EmailLanguage(s)
    ensures EmailRegex(s)
  {
    var at, dot :| 0 < at < dot < |s| && s[at] == '@' && s[dot] == '.'
      && IsEmailField(s[..at]) && IsEmailField(s[at + 1..dot]) && IsEmailField(s[dot + 1..]);
    FieldsCoverString(s, at, dot);
    SingleAtSign(s, at);
    assert |s[at + 1..dot]| > 0 && |s[dot + 1..]| > 0;
  }

  /** A string whose only non-e-mail character is one `@` has no
      whitespace, and that `@` is its first. */
  lemma SingleAtSign(s: string, at: nat)
    requires at < |s| && s[at] == '@'
    requires forall i :: 0 <= i < |s| && i != at ==> IsEmailChar(s[i])
    ensures forall i :: 0 <= i < |s| ==> !IsWhitespace(s[i])
    ensures FirstIndex(s, IsAtSign) == Some(at)
  {
    assert !IsWhitespace('@');
    assert forall j :: 0 <= j < at ==> !IsAtSign(s[j]);
  }

  /** Every character of field `@` field `.` field other than the `@` is an
      e-mail character. */
  lemma FieldsCoverString(s: string, at: nat, dot: nat)
    requires 0 < at < dot < |s| && s[dot] == '.'
    requires IsEmailField(s[..at]) && IsEmailField(s[at + 1..dot]) && IsEmailField(s[dot + 1..])
    ensures forall i :: 0 <= i < |s| && i != at ==> IsEmailChar(s[i])
  {
    forall i | 0 <= i < |s| && i != at
      ensures IsEmailChar(s[i])
    {
      if i < at {
        assert s[i] == s[..at][i];
      } else if at < i < dot {
        assert s[i] == s[at + 1..dot][i - at - 1];
      } else if dot < i {
        assert s[i] == s[dot + 1..][i - dot - 1];
      }
    }
  }

  lemma FieldOfSlice(s: string, lo: nat, hi: nat)
    requires lo < hi <= |s|
    requires forall i :: lo <= i < hi ==> IsEmailChar(s[i])
    ensures IsEmailField(s[lo..hi])
  {
    forall i | 0 <= i < hi - lo
      ensures IsEmailChar(s[lo..hi][i])
    {
      assert s[lo..hi][i] == s[lo + i];
    }
  }

  /** Any three fields joined as field `@` field `.` field pass the
      pattern. */
  lemma EmailOfFields(local: string, host: string, tld: string)
    requires IsEmailField(local) && IsEmailField(host) && IsEmailField(tld)
    ensures EmailRegex(local + "@" + host + "." + tld)
  {
    var s := local + "@" + host + "." + tld;
    var at, dot := |local|, |local| + 1 + |host|;
    assert s[..at] == local;
    assert s[at + 1..dot] == host;
    assert s[dot + 1..] == tld;
    assert s[at] == '@' && s[dot] == '.';
    EmailRegexComplete(s);
  }

  /** Any string holding two `@` signs is rejected. */
  lemma EmailRejectsSecondAt(s: string, i: nat, j: nat)
    requires i < j < |s| && s[i] == '@' && s[j] == '@'
    ensures !EmailRegex(s)
  {
    assert IsAtSign(s[i]);
    var first := FirstIndex(s, IsAtSign);
    assert first.Some? && first.value <= i;
  }

  /** The lookahead `(?=.*C)` at the start of the string: some character of
      class C occurs before any line terminator (`.` does not match one). */
  predicate LookaheadFinds(p: string, charClass: char -> bool) {
    exists i :: 0 <= i < |p| && charClass(p[i])
      && forall j :: 0 <= j < i ==> !IsLineTerminator(p[j])
  }

  /** The language of the strong-password pattern, read operator by
      operator: three lookaheads, then `.{8,}$` — at least eight characters,
      none of them a line terminator. */
  predicate PasswordLanguage(p: string) {
    && LookaheadFinds(p, IsAsciiLower)
    && LookaheadFinds(p, IsAsciiUpper)
    && LookaheadFinds(p, IsAsciiDigit)
    && |p| >= 8
    && forall j :: 0 <= j < |p| ==> !IsLineTerminator(p[j])
  }

  predicate HasChar(p: string, charClass: char -> bool) {
    exists i :: 0 <= i < |p| && charClass(p[i])
  }

  /** `IsStrongPassword(p)`: eight or more characters, no line break, and at
      least one ASCII lower-case letter, upper-case letter and digit. */
  predicate IsStrongPassword(p: string) {
    && |p| >= 8
    && (forall j :: 0 <= j < |p| ==> !IsLineTerminator(p[j]))
    && HasChar(p, IsAsciiLower)
    && HasChar(p, IsAsciiUpper)
    && HasChar(p, IsAsciiDigit)
  }

  /** The direct check accepts exactly the language of the pattern. */
  lemma StrongPasswordCorrect(p: string)
    ensures IsStrongPassword(p) <==> PasswordLanguage(p)
  {
  }

  /** A line terminator anywhere makes an otherwise strong password weak,
      because the pattern's `.` does not match it. */
  lemma LineBreakMakesPasswordWeak(p: string, k: nat)
    requires k < |p| && IsLineTerminator(p[k])
    ensures !IsStrongPassword(p)
  {
  }
}
