/** The character tables of Python's `string` module that both utilities use
    (`string.ascii_lowercase`, `string.ascii_uppercase`, `string.ascii_letters`,
    `string.digits`, `string.punctuation`), and the character predicates of
    `str` (`islower`, `isupper`, `isdigit`, `isspace`) restricted as described
    in README.md. */
module Ascii {

  const Lowercase: string := "abcdefghijklmnopqrstuvwxyz"
  const Uppercase: string := "ABCDEFGHIJKLMNOPQRSTUVWXYZ"
  const Letters: string := Lowercase + Uppercase
  const Digits: string := "0123456789"
  /** The 32 ASCII punctuation characters, in code-point order. */
  const Punctuation: string := "!\"#$%&'()*+,-./:;<=>?@[\\]^_`{|}~"

  /** `str.islower` on one character, restricted to ASCII. */
  predicate IsLower(c: char) { 'a' <= c <= 'z' }

  /** `str.isupper` on one character, restricted to ASCII. */
  predicate IsUpper(c: char) { 'A' <= c <= 'Z' }

  /** `str.isdigit` on one character, restricted to ASCII. */
  predicate IsDigit(c: char) { '0' <= c <= '9' }

  /** `str.isspace` on one character: the characters whose Unicode general
      category is Zs or whose bidirectional class is WS, B or S. This is the
      set that `str.strip()` removes. */
  predicate IsSpace(c: char) {
    || '\t' <= c <= '\r'
    || '\U{1C}' <= c <= ' '
    || c == '\U{85}' || c == '\U{A0}' || c == '\U{1680}'
    || '\U{2000}' <= c <= '\U{200A}'
    || c == '\U{2028}' || c == '\U{2029}' || c == '\U{202F}'
    || c == '\U{205F}' || c == '\U{3000}'
  }

  predicate StrictlyIncreasing(s: string) {
    forall i :: 0 <= i < |s| - 1 ==> s[i] < s[i + 1]
  }

  predicate NoDuplicates(s: string) {
    forall i, j :: 0 <= i < j < |s| ==> s[i] != s[j]
  }

  /** Adjacent order extends to every pair of positions. */
  lemma {:induction false} IncreasingIsOrdered(s: string, i: nat, j: nat)
    requires StrictlyIncreasing(s)
    requires i < j < |s|
    ensures s[i] < s[j]
    decreases j - i
  {
    if i + 1 < j {
      IncreasingIsOrdered(s, i + 1, j);
    }
  }

  lemma IncreasingHasNoDuplicates(s: string)
    requires StrictlyIncreasing(s)
    ensures NoDuplicates(s)
  {
    forall i, j | 0 <= i < j < |s| ensures s[i] != s[j] {
      IncreasingIsOrdered(s, i, j);
    }
  }

  /** Two duplicate-free strings with no character in common concatenate to a
      duplicate-free string. */
  lemma NoDuplicatesConcat(a: string, b: string)
    requires NoDuplicates(a) && NoDuplicates(b)
    requires forall c :: c in a ==> c !in b
    ensures NoDuplicates(a + b)
  {
    forall i, j | 0 <= i < j < |a + b| ensures (a + b)[i] != (a + b)[j] {
      if j >= |a| && i < |a| {
        assert (a + b)[i] in a && (a + b)[j] == b[j - |a|];
      }
    }
  }

  lemma LowercaseMembership(c: char)
    ensures c in Lowercase <==> IsLower(c)
  {}

  lemma UppercaseMembership(c: char)
    ensures c in Uppercase <==> IsUpper(c)
  {}

  lemma DigitsMembership(c: char)
    ensures c in Digits <==> IsDigit(c)
  {}

  /** Membership in `string.punctuation`: the four runs of ASCII
      punctuation around the digits and the letters. */
  predicate IsPunctuation(c: char) {
    || '!' <= c <= '/' || ':' <= c <= '@' || '[' <= c <= '`' || '{' <= c <= '~'
  }

  lemma PunctuationInRuns()
    ensures forall i :: 0 <= i < |Punctuation| ==> IsPunctuation(Punctuation[i])
  {}

  /** The position of each run in the table. */
  lemma PunctuationRunPositions(c: char)
    ensures '!' <= c <= '/' ==> Punctuation[c as int - 33] == c
    ensures ':' <= c <= '@' ==> Punctuation[c as int - 43] == c
    ensures '[' <= c <= '`' ==> Punctuation[c as int - 69] == c
    ensures '{' <= c <= '~' ==> Punctuation[c as int - 95] == c
  {}

  lemma PunctuationMembership(c: char)
    ensures c in Punctuation <==> IsPunctuation(c)
  {
    PunctuationInRuns();
    PunctuationRunPositions(c);
  }

  /** Punctuation is disjoint from the other three classes and from
      whitespace. */
  lemma PunctuationIsolated(c: char)
    requires IsPunctuation(c)
    ensures !IsLower(c) && !IsUpper(c) && !IsDigit(c) && !IsSpace(c)
  {}

  lemma LowercaseIncreasing() ensures StrictlyIncreasing(Lowercase) {}
  lemma UppercaseIncreasing() ensures StrictlyIncreasing(Uppercase) {}
  lemma DigitsIncreasing() ensures StrictlyIncreasing(Digits) {}
  lemma PunctuationIncreasing() ensures StrictlyIncreasing(Punctuation) {}

  /** The sizes of the tables, and that none of them repeats a character. */
  lemma TableShapes()
    ensures |Lowercase| == 26 && |Uppercase| == 26 && |Letters| == 52
    ensures |Digits| == 10 && |Punctuation| == 32
    ensures NoDuplicates(Lowercase) && NoDuplicates(Uppercase)
    ensures NoDuplicates(Letters) && NoDuplicates(Digits)
    ensures NoDuplicates(Punctuation)
  {
    LowercaseIncreasing();
    UppercaseIncreasing();
    DigitsIncreasing();
    PunctuationIncreasing();
    IncreasingHasNoDuplicates(Lowercase);
    IncreasingHasNoDuplicates(Uppercase);
    IncreasingHasNoDuplicates(Digits);
    IncreasingHasNoDuplicates(Punctuation);
    forall c | c in Lowercase ensures c !in Uppercase {
      LowercaseMembership(c);
      UppercaseMembership(c);
    }
    NoDuplicatesConcat(Lowercase, Uppercase);
  }
}
