/**
 * The input validators: the e-mail format check, and the password strength
 * policy with its ordered failure messages.
 */
module Validation {
  import opened GoStrings
  import GoStrconv

  // ---------------------------------------------------------------------------
  // E-mail addresses: `^[a-zA-Z0-9._%+\-]+@[a-zA-Z0-9.\-]+\.[a-zA-Z]{2,}$`
  // ---------------------------------------------------------------------------

  predicate IsAsciiLetter(c: char) {
    'a' <= c <= 'z' || 'A' <= c <= 'Z'
  }

  /** The class `[a-zA-Z0-9._%+\-]` of the local part. */
  predicate IsLocalChar(c: char) {
    IsAsciiLetter(c) || GoStrconv.IsDigit(c) || c == '.' || c == '_' || c == '%' || c == '+' || c == '-'
  }

  /** The class `[a-zA-Z0-9.\-]` of the domain part. */
  predicate IsDomainChar(c: char) {
    IsAsciiLetter(c) || GoStrconv.IsDigit(c) || c == '.' || c == '-'
  }

  /**
   * The pattern matches `s` with its '@' at index `at` and the '.' before the
   * top-level label at index `dot`: one or more local characters, '@', one or
   * more domain characters, '.', and two or more letters up to the end.
   */
  ghost predicate EmailSplitAt(s: string, at: int, dot: int) {
    && 1 <= at && at + 2 <= dot && dot + 3 <= |s|
    && s[at] == '@' && s[dot] == '.'
    && (forall k :: 0 <= k < at ==> IsLocalChar(s[k]))
    && (forall k :: at < k < dot ==> IsDomainChar(s[k]))
    && (forall k :: dot < k < |s| ==> IsAsciiLetter(s[k]))
  }

  /** What the anchored regular expression accepts. */
  ghost predicate MatchesEmailPattern(s: string) {
    exists at, dot :: EmailSplitAt(s, at, dot)
  }

  predicate All(s: string, p: char -> bool) {
    forall k :: 0 <= k < |s| ==> p(s[k])
  }

  /** The index of the first `c` in `s`, or `|s|` when there is none. */
  function IndexOf(s: string, c: char): (i: nat)
    ensures i <= |s| && (i < |s| ==> s[i] == c)
    ensures forall k :: 0 <= k < i ==> s[k] != c
  {
    if s == [] then 0
    else if s[0] == c then 0
    else 1 + IndexOf(s[1..], c)
  }

  /** The index of the last `c` in `s`, or -1 when there is none. */
  function LastIndexOf(s: string, c: char): (i: int)
    ensures -1 <= i < |s| && (0 <= i ==> s[i] == c)
    ensures forall k :: i < k < |s| ==> s[k] != c
  {
    if s == [] then -1
    else if s[|s| - 1] == c then |s| - 1
    else LastIndexOf(s[..|s| - 1], c)
  }

  /**
   * A hand-written matcher for the pattern: the local part runs up to the first
   * '@' (the local class has no '@'), the rest is all domain characters (the
   * domain class has no '@' either), and the top-level label is what follows
   * its last '.' (letters have no '.').
   */
  function MatchEmail(s: string): bool {
    var at := IndexOf(s, '@');
    if at == 0 || at == |s| || !All(s[..at], IsLocalChar) then false
    else
      var domain := s[at + 1..];
      var dot := LastIndexOf(domain, '.');
      && All(domain, IsDomainChar)
      && 1 <= dot && dot + 3 <= |domain|
      && All(domain[dot + 1..], IsAsciiLetter)
  }

  lemma {:induction false} MatchEmailSound(s: string)
    requires MatchEmail(s)
    ensures MatchesEmailPattern(s)
  {
    var at := IndexOf(s, '@');
    var domain := s[at + 1..];
    var dot := LastIndexOf(domain, '.');
    var d := at + 1 + dot;
    assert s[d] == domain[dot];
    forall k | 0 <= k < at ensures IsLocalChar(s[k]) {
      assert s[k] == s[..at][k];
    }
    forall k | at < k < d ensures IsDomainChar(s[k]) {
      assert s[k] == domain[k - at - 1];
    }
    forall k | d < k < |s| ensures IsAsciiLetter(s[k]) {
      assert s[k] == domain[dot + 1..][k - d - 1];
    }
    assert EmailSplitAt(s, at, d);
  }

  lemma {:induction false} MatchEmailComplete(s: string, a: int, d: int)
    requires EmailSplitAt(s, a, d)
    ensures MatchEmail(s)
  {
    LocalBeforeAt(s, a, d);
    DomainAfterAt(s, a, d);
    LabelAfterLastDot(s, a, d);
  }

  lemma LocalBeforeAt(s: string, a: int, d: int)
    requires EmailSplitAt(s, a, d)
    ensures IndexOf(s, '@') == a && All(s[..a], IsLocalChar)
  {
    forall k | 0 <= k < a ensures IsLocalChar(s[..a][k]) {
      assert s[..a][k] == s[k];
    }
  }

  lemma LabelAfterLastDot(s: string, a: int, d: int)
    requires EmailSplitAt(s, a, d)
    ensures var domain := s[a + 1..];
      && LastIndexOf(domain, '.') == d - a - 1
      && All(domain[d - a..], IsAsciiLetter)
  {
    var domain := s[a + 1..];
    assert domain[d - a - 1] == s[d];
    var tld := domain[d - a..];
    forall k | 0 <= k < |tld| ensures IsAsciiLetter(tld[k]) {
      assert tld[k] == s[d + 1 + k];
    }
  }

  lemma DomainAfterAt(s: string, a: int, d: int)
    requires EmailSplitAt(s, a, d)
    ensures All(s[a + 1..], IsDomainChar)
  {
    var domain := s[a + 1..];
    forall k | 0 <= k < |domain| ensures IsDomainChar(domain[k]) {
      assert domain[k] == s[a + 1 + k];
      if a + 1 + k > d {
        assert IsAsciiLetter(s[a + 1 + k]);
      }
    }
  }

  /** The matcher accepts exactly the strings the regular expression matches. */
  lemma MatchEmailCorrect(s: string)
    ensures MatchEmail(s) <==> MatchesEmailPattern(s)
  {
    if MatchEmail(s) {
      MatchEmailSound(s);
    }
    if MatchesEmailPattern(s) {
      var a, d :| EmailSplitAt(s, a, d);
      MatchEmailComplete(s, a, d);
    }
  }

  /** `IsValidEmail`: trims surrounding white space, then matches the pattern. */
  function IsValidEmail(email: string): (r: bool)
    ensures r <==> MatchesEmailPattern(TrimSpace(email))
  {
    var trimmed := TrimSpace(email);
    MatchEmailCorrect(trimmed);
    MatchEmail(trimmed)
  }

  /** White space around an address never changes the verdict. */
  lemma {:induction false} EmailIgnoresSurroundingSpace(w1: string, email: string, w2: string)
    requires AllSpace(w1) && AllSpace(w2)
    ensures IsValidEmail(w1 + email + w2) == IsValidEmail(email)
  {
    TrimSpaceAbsorbsPadding(w1, email, w2);
  }

  /** A string the pattern matches holds its '@' exactly once. */
  lemma {:induction false} SingleAtSign(t: string, a: int, d: int)
    requires EmailSplitAt(t, a, d)
    ensures multiset(t)['@'] == 1
  {
    var pre, post := t[..a], t[a + 1..];
    assert t == pre + [t[a]] + post;
    assert '@' !in pre by {
      forall k | 0 <= k < |pre| ensures pre[k] != '@' {
        assert pre[k] == t[k];
      }
    }
    assert '@' !in post by {
      forall k | 0 <= k < |post| ensures post[k] != '@' {
        assert post[k] == t[a + 1 + k];
      }
    }
    assert multiset(t) == multiset(pre) + multiset{t[a]} + multiset(post);
  }

  /**
   * An accepted address, once trimmed, has exactly one '@', a non-empty local
   * part of local characters, and ends in '.' and at least two letters.
   */
  lemma {:induction false} AcceptedEmailShape(email: string)
    requires IsValidEmail(email)
    ensures var t := TrimSpace(email);
      && |t| >= 6
      && multiset(t)['@'] == 1
      && 1 <= IndexOf(t, '@') < |t|
      && (forall k :: 0 <= k < IndexOf(t, '@') ==> IsLocalChar(t[k]))
      && (exists dot :: 0 <= dot < |t| - 2 && t[dot] == '.' && forall k :: dot < k < |t| ==> IsAsciiLetter(t[k]))
  {
    var t := TrimSpace(email);
    var a, d :| EmailSplitAt(t, a, d);
    assert IndexOf(t, '@') == a;
    SingleAtSign(t, a, d);
  }

  /** A string without surrounding blanks that splits as the pattern demands is accepted. */
  lemma AcceptedWhenSplit(s: string, at: int, dot: int)
    requires Trimmed(s) && EmailSplitAt(s, at, dot)
    ensures IsValidEmail(s)
  {
    assert [] + s + [] == s;
    TrimSpaceOfPadded([], s, []);
  }

  /** A string without surrounding blanks is accepted exactly when the pattern matches it. */
  lemma RejectedUnlessPattern(s: string)
    requires Trimmed(s) && !MatchesEmailPattern(s)
    ensures !IsValidEmail(s)
  {
    assert [] + s + [] == s;
    TrimSpaceOfPadded([], s, []);
  }

  /** The address of the registration test is accepted. */
  lemma RegisteredEmailAccepted(registered: string)
    requires registered == "tester@example.com"
    ensures IsValidEmail(registered)
  {
    AcceptedWhenSplit(registered, 6, 14);
  }

  /** With blanks around it, the same address is still accepted. */
  lemma PaddedEmailAccepted(registered: string, padded: string)
    requires registered == "tester@example.com" && padded == " " + registered + "\t"
    ensures IsValidEmail(padded)
  {
    RegisteredEmailAccepted(registered);
    EmailIgnoresSurroundingSpace(" ", registered, "\t");
  }

  /** The domain class includes '.', so the pattern lets through a doubled dot. */
  lemma DoubledDotAccepted(doubleDot: string)
    requires doubleDot == "a@b..co"
    ensures IsValidEmail(doubleDot)
  {
    AcceptedWhenSplit(doubleDot, 1, 4);
  }

  /** The domain class includes '-', so the pattern lets through a domain that is a bare hyphen. */
  lemma HyphenDomainAccepted(hyphen: string)
    requires hyphen == "a@-.co"
    ensures IsValidEmail(hyphen)
  {
    AcceptedWhenSplit(hyphen, 1, 3);
  }

  /** A one-letter top-level label, a missing '@' and an empty domain label are rejected. */
  lemma EmailRejectsExamples(shortTld: string, noAt: string, emptyLabel: string)
    requires shortTld == "a@b.c" && noAt == "ab.co" && emptyLabel == "a@.co"
    ensures !IsValidEmail(shortTld) && !IsValidEmail(noAt) && !IsValidEmail(emptyLabel)
  {
    RejectedUnlessPattern(shortTld);
    assert forall at :: 0 <= at < 5 ==> noAt[at] != '@';
    RejectedUnlessPattern(noAt);
    RejectedUnlessPattern(emptyLabel);
  }

  // ---------------------------------------------------------------------------
  // Password strength
  // ---------------------------------------------------------------------------

  const MinPasswordBytes := 8
  const MaxPasswordBytes := 128

  const PasswordTooShort := "password must be at least 8 characters"
  const PasswordTooLong := "password must not exceed 128 characters"
  const PasswordNoUpper := "password must contain at least one uppercase letter"
  const PasswordNoLower := "password must contain at least one lowercase letter"
  const PasswordNoNumber := "password must contain at least one number"
  const PasswordNoSpecial := "password must contain at least one special character"

  /** The arm of the per-character switch that a character takes. */
  datatype CharClass = Upper | Lower | Number | Special | Unclassified

  /** ASCII punctuation and symbols: every printable ASCII character that is not a letter, a digit or a blank. */
  predicate IsAsciiPunctOrSymbol(c: char) {
    ('!' <= c <= '/') || (':' <= c <= '@') || ('[' <= c <= '`') || ('{' <= c <= '~')
  }

  /**
   * The switch over `unicode.IsUpper`, `IsLower`, `IsNumber` and
   * `IsPunct || IsSymbol`, tried in that order, on ASCII characters.
   */
  function Classify(c: char): CharClass {
    if 'A' <= c <= 'Z' then Upper
    else if 'a' <= c <= 'z' then Lower
    else if '0' <= c <= '9' then Number
    else if IsAsciiPunctOrSymbol(c) then Special
    else Unclassified
  }

  /**
   * On ASCII the switch leaves out exactly the blank and the control
   * characters: every printable character is a letter, a digit, punctuation
   * or a symbol.
   */
  lemma AsciiClassification(c: char)
    requires c as int < 0x80
    ensures Classify(c) == Unclassified <==> c as int <= 0x20 || c as int == 0x7F
    ensures Classify(c) == Upper <==> 'A' <= c <= 'Z'
    ensures Classify(c) == Lower <==> 'a' <= c <= 'z'
    ensures Classify(c) == Number <==> '0' <= c <= '9'
    ensures Classify(c) == Special <==> IsAsciiPunctOrSymbol(c)
  {
  }

  /** Some character of `p` falls in class `cls`. */
  ghost predicate HasClass(p: string, cls: CharClass) {
    exists i :: 0 <= i < |p| && Classify(p[i]) == cls
  }

  /** The number of bytes of the UTF-8 encoding of `c`. */
  function RuneLen(c: char): (n: nat)
    ensures 1 <= n <= 4
    ensures n == 1 <==> c as int < 0x80
  {
    if c as int < 0x80 then 1
    else if c as int < 0x800 then 2
    else if c as int < 0x1_0000 then 3
    else 4
  }

  /** Go's `len` of a string: the length of its UTF-8 encoding in bytes. */
  function ByteLength(s: string): (n: nat)
    ensures |s| <= n <= 4 * |s|
    ensures n == |s| <==> forall k :: 0 <= k < |s| ==> s[k] as int < 0x80
  {
    if s == [] then 0
    else
      var n := ByteLength(s[..|s| - 1]) + RuneLen(s[|s| - 1]);
      assert forall k :: 0 <= k < |s| - 1 ==> s[k] == s[..|s| - 1][k];
      n
  }

  /** The length bound counts bytes, not characters: four two-byte characters are long enough. */
  lemma ByteLengthIsNotCharacterCount()
    ensures |"\U{E9}\U{E9}\U{E9}\U{E9}"| == 4 && ByteLength("\U{E9}\U{E9}\U{E9}\U{E9}") == 8
  {
    var s := "\U{E9}\U{E9}\U{E9}\U{E9}";
    assert ByteLength(s[..1]) == 2 by { assert s[..1][..0] == []; }
    assert ByteLength(s[..2]) == 4 by { assert s[..2][..1] == s[..1]; }
    assert ByteLength(s[..3]) == 6 by { assert s[..3][..2] == s[..2]; }
    assert s[..4] == s && s[..4][..3] == s[..3];
  }

  /**
   * `IsStrongPassword`: the byte length must lie in [8, 128], and among the
   * characters there must be an upper-case letter, a lower-case letter, a
   * number and a punctuation or symbol character. The first rule broken, in
   * that order, gives the message; the message is empty exactly on success.
   */
  method IsStrongPassword(password: string) returns (ok: bool, msg: string)
    ensures ok <==> && MinPasswordBytes <= ByteLength(password) <= MaxPasswordBytes
                    && HasClass(password, Upper) && HasClass(password, Lower)
                    && HasClass(password, Number) && HasClass(password, Special)
    ensures ok <==> msg == ""
    ensures ByteLength(password) < MinPasswordBytes ==> msg == PasswordTooShort
    ensures MinPasswordBytes <= ByteLength(password) && MaxPasswordBytes < ByteLength(password) ==> msg == PasswordTooLong
    ensures MinPasswordBytes <= ByteLength(password) <= MaxPasswordBytes ==>
      && (!HasClass(password, Upper) ==> msg == PasswordNoUpper)
      && (HasClass(password, Upper) && !HasClass(password, Lower) ==> msg == PasswordNoLower)
      && (HasClass(password, Upper) && HasClass(password, Lower) && !HasClass(password, Number) ==> msg == PasswordNoNumber)
      && ((HasClass(password, Upper) && HasClass(password, Lower) && HasClass(password, Number)
          && !HasClass(password, Special)) ==> msg == PasswordNoSpecial)
  {
    var n := ByteLength(password);
    if n < MinPasswordBytes {
      return false, PasswordTooShort;
    }
    if n > MaxPasswordBytes {
      return false, PasswordTooLong;
    }

    var hasUpper, hasLower, hasNumber, hasSpecial := false, false, false, false;
    for i := 0 to |password|
      invariant hasUpper <==> exists j :: 0 <= j < i && Classify(password[j]) == Upper
      invariant hasLower <==> exists j :: 0 <= j < i && Classify(password[j]) == Lower
      invariant hasNumber <==> exists j :: 0 <= j < i && Classify(password[j]) == Number
      invariant hasSpecial <==> exists j :: 0 <= j < i && Classify(password[j]) == Special
    {
      match Classify(password[i]) {
        case Upper => hasUpper := true;
        case Lower => hasLower := true;
        case Number => hasNumber := true;
        case Special => hasSpecial := true;
        case Unclassified =>
      }
    }

    if !hasUpper {
      return false, PasswordNoUpper;
    }
    if !hasLower {
      return false, PasswordNoLower;
    }
    if !hasNumber {
      return false, PasswordNoNumber;
    }
    if !hasSpecial {
      return false, PasswordNoSpecial;
    }
    return true, "";
  }
}
