/**
 * The part of Go's `strings` and `unicode` packages that the handlers use:
 * `strings.TrimSpace`, `strings.ToLower`, `strings.HasPrefix` and
 * `strings.TrimPrefix`, over strings as sequences of Unicode scalar values.
 */
module GoStrings {

  /** `unicode.IsSpace`: the characters with the Unicode White_Space property. */
  predicate IsSpace(c: char) {
    ('\t' <= c <= '\r') || c == ' ' || c == '\U{0085}' || c == '\U{00A0}' || c == '\U{1680}'
    || ('\U{2000}' <= c <= '\U{200A}') || c == '\U{2028}' || c == '\U{2029}'
    || c == '\U{202F}' || c == '\U{205F}' || c == '\U{3000}'
  }

  ghost predicate AllSpace(s: string) {
    forall k :: 0 <= k < |s| ==> IsSpace(s[k])
  }

  lemma AllSpaceConcat(a: string, b: string)
    requires AllSpace(a) && AllSpace(b)
    ensures AllSpace(a + b)
  {
    forall k | 0 <= k < |a + b| ensures IsSpace((a + b)[k]) {
      if k < |a| { assert (a + b)[k] == a[k]; } else { assert (a + b)[k] == b[k - |a|]; }
    }
  }

  lemma Regroup(w1: string, p: string, q: string, r: string, w2: string)
    ensures w1 + (p + q + r) + w2 == (w1 + p) + q + (r + w2)
  {
  }

  /** Neither end of `s` is white space. */
  ghost predicate Trimmed(s: string) {
    s == [] || (!IsSpace(s[0]) && !IsSpace(s[|s| - 1]))
  }

  /** Drops the leading white space. */
  function TrimLeft(s: string): string {
    if |s| > 0 && IsSpace(s[0]) then TrimLeft(s[1..]) else s
  }

  /** Drops the trailing white space. */
  function TrimRight(s: string): string {
    if |s| > 0 && IsSpace(s[|s| - 1]) then TrimRight(s[..|s| - 1]) else s
  }

  /** TrimLeft keeps a suffix of `s` that does not start with white space, and drops only white space. */
  lemma {:induction false} TrimLeftSuffix(s: string)
    ensures var r := TrimLeft(s);
      && |r| <= |s| && r == s[|s| - |r|..]
      && AllSpace(s[..|s| - |r|])
      && (r == [] || !IsSpace(r[0]))
  {
    if |s| > 0 && IsSpace(s[0]) {
      TrimLeftSuffix(s[1..]);
      var r := TrimLeft(s);
      var m := |s| - |r|;
      forall k | 0 <= k < m ensures IsSpace(s[..m][k]) {
        if k > 0 {
          assert s[..m][k] == s[1..][..m - 1][k - 1];
        }
      }
    }
  }

  /** TrimRight keeps a prefix of `s` that does not end in white space, and drops only white space. */
  lemma {:induction false} TrimRightPrefix(s: string)
    ensures var r := TrimRight(s);
      && |r| <= |s| && r == s[..|r|]
      && AllSpace(s[|r|..])
      && (r == [] || !IsSpace(r[|r| - 1]))
  {
    if |s| > 0 && IsSpace(s[|s| - 1]) {
      var u := s[..|s| - 1];
      TrimRightPrefix(u);
      var r := TrimRight(s);
      forall k | 0 <= k < |s| - |r| ensures IsSpace(s[|r|..][k]) {
        if k < |u| - |r| {
          assert s[|r|..][k] == u[|r|..][k];
        }
      }
    }
  }

  /** `strings.TrimSpace`: removes all leading and trailing white space. */
  function TrimSpace(s: string): (r: string)
    ensures |r| <= |s|
    ensures Trimmed(r)
  {
    TrimLeftSuffix(s);
    TrimRightPrefix(TrimLeft(s));
    TrimRight(TrimLeft(s))
  }

  /** TrimSpace keeps a contiguous slice of its input, and drops only white space around it. */
  lemma TrimSpaceSplit(s: string) returns (i: nat, j: nat)
    ensures i <= j <= |s|
    ensures TrimSpace(s) == s[i..j]
    ensures AllSpace(s[..i]) && AllSpace(s[j..])
  {
    TrimLeftSuffix(s);
    var l := TrimLeft(s);
    i := |s| - |l|;
    TrimRightPrefix(l);
    var r := TrimRight(l);
    j := i + |r|;
    assert s[j..] == l[|r|..];
  }

  lemma TrimLeftOfPadded(w: string, u: string)
    requires AllSpace(w)
    requires u == [] || !IsSpace(u[0])
    ensures TrimLeft(w + u) == u
  {
    if w != [] {
      assert (w + u)[1..] == w[1..] + u;
      TrimLeftOfPadded(w[1..], u);
    }
  }

  lemma TrimRightOfPadded(u: string, w: string)
    requires AllSpace(w)
    requires u == [] || !IsSpace(u[|u| - 1])
    ensures TrimRight(u + w) == u
  {
    if w != [] {
      assert (u + w)[..|u + w| - 1] == u + w[..|w| - 1];
      TrimRightOfPadded(u, w[..|w| - 1]);
    }
  }

  /** A string with no white space at its ends, padded with white space, trims back to itself. */
  lemma {:induction false} TrimSpaceOfPadded(w1: string, t: string, w2: string)
    requires AllSpace(w1) && AllSpace(w2) && Trimmed(t)
    ensures TrimSpace(w1 + t + w2) == t
  {
    if t == [] {
      assert w1 + t + w2 == (w1 + w2) + [];
      TrimLeftOfPadded(w1 + w2, []);
    } else {
      assert w1 + t + w2 == w1 + (t + w2);
      TrimLeftOfPadded(w1, t + w2);
      TrimRightOfPadded(t, w2);
    }
  }

  /** Surrounding white space makes no difference to TrimSpace; in particular it is idempotent. */
  lemma {:induction false} TrimSpaceAbsorbsPadding(w1: string, s: string, w2: string)
    requires AllSpace(w1) && AllSpace(w2)
    ensures TrimSpace(w1 + s + w2) == TrimSpace(s)
    ensures TrimSpace(TrimSpace(s)) == TrimSpace(s)
  {
    var i, j := TrimSpaceSplit(s);
    var t := TrimSpace(s);
    var a, b := w1 + s[..i], s[j..] + w2;
    AllSpaceConcat(w1, s[..i]);
    AllSpaceConcat(s[j..], w2);
    assert s == s[..i] + t + s[j..];
    Regroup(w1, s[..i], t, s[j..], w2);
    TrimSpaceOfPadded(a, t, b);
    assert [] + t + [] == t;
    TrimSpaceOfPadded([], t, []);
  }

  /**
   * Go's `unicode.ToLower` on the runes whose lower case is an ASCII letter:
   * 'A'..'Z', U+0130 (capital I with dot above, to 'i') and U+212A (Kelvin sign,
   * to 'k'). Other runes are left as they are.
   */
  function LowerRune(c: char): char {
    if 'A' <= c <= 'Z' then (c as int + 32) as char
    else if c == '\U{0130}' then 'i'
    else if c == '\U{212A}' then 'k'
    else c
  }

  /**
   * The runes that lower-case to an ASCII letter are exactly the ASCII letters,
   * U+0130 and U+212A; and lower-casing never creates or removes white space.
   */
  lemma LowerRuneProperties(c: char)
    ensures ('a' <= LowerRune(c) <= 'z') <==> ('a' <= c <= 'z' || 'A' <= c <= 'Z' || c == '\U{0130}' || c == '\U{212A}')
    ensures IsSpace(LowerRune(c)) <==> IsSpace(c)
  {
  }

  /** `strings.ToLower`: lower-cases rune by rune and keeps the length. */
  function ToLower(s: string): (r: string)
    ensures |r| == |s|
    ensures forall k :: 0 <= k < |s| ==> r[k] == LowerRune(s[k])
  {
    if s == [] then [] else [LowerRune(s[0])] + ToLower(s[1..])
  }

  lemma ToLowerConcat(a: string, b: string)
    ensures ToLower(a + b) == ToLower(a) + ToLower(b)
  {
    assert forall k :: 0 <= k < |a + b| ==> ToLower(a + b)[k] == (ToLower(a) + ToLower(b))[k];
  }

  /** Lower-casing twice is lower-casing once. */
  lemma ToLowerIdempotent(s: string)
    ensures ToLower(ToLower(s)) == ToLower(s)
  {
  }

  lemma ToLowerKeepsSpace(w: string, t: string)
    ensures AllSpace(w) ==> AllSpace(ToLower(w))
    ensures Trimmed(t) ==> Trimmed(ToLower(t))
  {
    forall k | 0 <= k < |w| {
      LowerRuneProperties(w[k]);
    }
    if t != [] {
      LowerRuneProperties(t[0]);
      LowerRuneProperties(t[|t| - 1]);
    }
  }

  /** Lower-casing and trimming commute, as in `strings.ToLower(strings.TrimSpace(p))`. */
  lemma {:induction false} ToLowerTrimSpaceCommute(s: string)
    ensures ToLower(TrimSpace(s)) == TrimSpace(ToLower(s))
  {
    var i, j := TrimSpaceSplit(s);
    var a, m, b := ToLower(s[..i]), ToLower(s[i..j]), ToLower(s[j..]);
    assert s == s[..i] + s[i..j] + s[j..];
    ToLowerConcat(s[..i], s[i..j]);
    ToLowerConcat(s[..i] + s[i..j], s[j..]);
    ToLowerKeepsSpace(s[..i], s[i..j]);
    ToLowerKeepsSpace(s[j..], s[i..j]);
    TrimSpaceOfPadded(a, m, b);
  }

  /** Every character is a lower-case ASCII letter. */
  predicate LowerLetters(s: string) {
    forall k :: 0 <= k < |s| ==> 'a' <= s[k] <= 'z'
  }

  /** Lower-casing leaves a string of lower-case letters as it is. */
  lemma LowerLettersFixed(s: string)
    requires LowerLetters(s)
    ensures ToLower(s) == s
  {
  }

  /** A capitalised word lower-cases to its first letter lowered, followed by the rest unchanged. */
  lemma CapitalisedLowered(s: string)
    requires s != [] && LowerLetters(s[1..])
    ensures ToLower(s) == [LowerRune(s[0])] + s[1..]
  {
    LowerLettersFixed(s[1..]);
  }

  /** `strings.HasPrefix`. */
  predicate HasPrefix(s: string, prefix: string) {
    |prefix| <= |s| && s[..|prefix|] == prefix
  }

  /** `strings.TrimPrefix`: removes `prefix` once if `s` starts with it. */
  function TrimPrefix(s: string, prefix: string): (r: string)
    ensures HasPrefix(s, prefix) ==> s == prefix + r
    ensures !HasPrefix(s, prefix) ==> r == s
  {
    if HasPrefix(s, prefix) then s[|prefix|..] else s
  }
}
