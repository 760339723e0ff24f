/** Character classes and constants of the validator.

    The platform's letter-or-digit test (Java's `Character.isLetterOrDigit`,
    which follows the Unicode letter and digit categories) is not given a
    body here: every operation takes it as a parameter `isLetterOrDigit`, and
    `IsLetterOrDigitClass` states the only facts about it the model relies on.
 */
module CharClass {

  /** The punctuation allowed in a local part besides letters and digits.
      The slash appears twice, as in the Java validator's
      constant; only membership matters. */
  const PrintableChar: string := "!#$%&'*+-/=?^_`{|}~/"
  const Dot: char := '.'
  const Hyphen: char := '-'
  const At: char := '@'

  predicate IsAsciiLetterOrDigit(c: char) {
    ('a' <= c <= 'z') || ('A' <= c <= 'Z') || ('0' <= c <= '9')
  }

  /** The letter-or-digit test rejects the three separators of the grammar.
      This is all the scan's correctness depends on. */
  predicate ExcludesSeparators(isLetterOrDigit: char -> bool) {
    !isLetterOrDigit(Dot) && !isLetterOrDigit(At) && !isLetterOrDigit(Hyphen)
  }

  /** A description of Java's `Character.isLetterOrDigit` on the characters
      that matter here: it accepts every ASCII letter and digit, and rejects
      the dot, the at sign, the hyphen and every character of `PrintableChar`.
      The example addresses rely on the first two conjuncts only; the last
      one records what the platform's test does and no lemma uses it. */
  predicate IsLetterOrDigitClass(isLetterOrDigit: char -> bool) {
    ExcludesSeparators(isLetterOrDigit)
    && (forall c :: IsAsciiLetterOrDigit(c) ==> isLetterOrDigit(c))
    && (forall c :: IsPrintableChar(c) ==> !isLetterOrDigit(c))
  }

  /** Membership in `PrintableChar`, written out character by character. */
  predicate IsPrintableChar(c: char) {
    c == '!' || c == '#' || c == '$' || c == '%' || c == '&' || c == '\'' || c == '*'
    || c == '+' || c == '-' || c == '/' || c == '=' || c == '?' || c == '^' || c == '_'
    || c == '`' || c == '{' || c == '|' || c == '}' || c == '~'
  }

  /** `IsPrintableChar` accepts exactly the characters of `PrintableChar`. */
  lemma PrintableCharMembers()
    ensures forall c :: c in PrintableChar <==> IsPrintableChar(c)
  {
    forall c | c in PrintableChar
      ensures IsPrintableChar(c)
    {
      var j :| 0 <= j < |PrintableChar| && PrintableChar[j] == c;
    }
  }

  /** A character that may appear in a local part between dots. */
  predicate IsValidLocalChar(isLetterOrDigit: char -> bool, c: char) {
    isLetterOrDigit(c) || IsPrintableChar(c)
  }

  /** The ASCII-only classifier is one that meets the assumptions. */
  lemma AsciiIsLetterOrDigitClass()
    ensures IsLetterOrDigitClass(IsAsciiLetterOrDigit)
  {
  }

  /** The dot and the at sign separate the parts of an address and are never
      local characters; the hyphen is one. */
  lemma SeparatorsAsLocalChars(isLetterOrDigit: char -> bool)
    requires ExcludesSeparators(isLetterOrDigit)
    ensures !IsValidLocalChar(isLetterOrDigit, Dot)
    ensures !IsValidLocalChar(isLetterOrDigit, At)
    ensures IsValidLocalChar(isLetterOrDigit, Hyphen)
  {
  }

  /** Every ASCII letter and digit is a local character. */
  lemma AsciiLocalChars(isLetterOrDigit: char -> bool)
    requires IsLetterOrDigitClass(isLetterOrDigit)
    ensures forall c :: IsAsciiLetterOrDigit(c) ==> IsValidLocalChar(isLetterOrDigit, c)
  {
  }
}
