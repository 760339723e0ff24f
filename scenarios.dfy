/** The validator on example addresses: by the contract of `IsEmailValid`,
    it returns true on each address shown accepted here and false on each
    one shown rejected. Each address is written as the concatenation of its
    pieces, so that `"user" + "@" + "example.com"` reads `user@example.com`.
 */
module EmailScenarios {
  import opened CharClass
  import opened EmailSyntax

  /** `w[i..]` holds ASCII letters and digits only. */
  predicate AsciiFrom(w: string, i: nat)
    decreases |w| - i
  {
    i >= |w| || (IsAsciiLetterOrDigit(w[i]) && AsciiFrom(w, i + 1))
  }

  /** `w[i..]` holds ASCII letters, digits and `PrintableChar` characters only. */
  predicate LocalFrom(w: string, i: nat)
    decreases |w| - i
  {
    i >= |w| || ((IsAsciiLetterOrDigit(w[i]) || IsPrintableChar(w[i])) && LocalFrom(w, i + 1))
  }

  lemma {:induction false} AsciiFromAll(w: string, i: nat)
    requires AsciiFrom(w, i)
    ensures forall j | i <= j < |w| :: IsAsciiLetterOrDigit(w[j])
    decreases |w| - i
  {
    if i < |w| {
      AsciiFromAll(w, i + 1);
    }
  }

  lemma {:induction false} LocalFromAll(w: string, i: nat)
    requires LocalFrom(w, i)
    ensures forall j | i <= j < |w| :: IsAsciiLetterOrDigit(w[j]) || IsPrintableChar(w[j])
    decreases |w| - i
  {
    if i < |w| {
      LocalFromAll(w, i + 1);
    }
  }

  /** A non-empty word of ASCII letters, digits and `PrintableChar`
      characters is a local part. */
  lemma WordLocalPart(isLetterOrDigit: char -> bool, w: string)
    requires IsLetterOrDigitClass(isLetterOrDigit) && w != [] && LocalFrom(w, 0)
    ensures IsAtom(isLetterOrDigit, w) && IsLocalPart(isLetterOrDigit, w)
    ensures Dot !in w && At !in w
  {
    LocalFromAll(w, 0);
    assert forall j | 0 <= j < |w| :: IsValidLocalChar(isLetterOrDigit, w[j]);
    AtomLocalPart(isLetterOrDigit, w);
  }

  /** Two such words joined by a dot are a local part. */
  lemma WordsLocalPart(isLetterOrDigit: char -> bool, a: string, b: string)
    requires IsLetterOrDigitClass(isLetterOrDigit) && a != [] && LocalFrom(a, 0)
    requires b != [] && LocalFrom(b, 0)
    ensures IsLocalPart(isLetterOrDigit, a + "." + b) && At !in a + "." + b
  {
    WordLocalPart(isLetterOrDigit, a);
    WordLocalPart(isLetterOrDigit, b);
    LocalPartCons(isLetterOrDigit, a, b);
  }

  /** A non-empty word of ASCII letters and digits is a domain. */
  lemma WordDomain(isLetterOrDigit: char -> bool, w: string)
    requires IsLetterOrDigitClass(isLetterOrDigit) && w != [] && AsciiFrom(w, 0)
    ensures IsLabel(isLetterOrDigit, w) && IsDomainPart(isLetterOrDigit, w) && Dot !in w
  {
    AsciiFromAll(w, 0);
    LabelDomainPart(isLetterOrDigit, w);
  }

  /** Such a word, a dot and a domain are a domain with a dot. */
  lemma WordsDomain(isLetterOrDigit: char -> bool, a: string, r: string)
    requires IsLetterOrDigitClass(isLetterOrDigit) && a != [] && AsciiFrom(a, 0)
    requires IsDomainPart(isLetterOrDigit, r)
    ensures IsDomainPart(isLetterOrDigit, a + "." + r) && Dot in a + "." + r
  {
    WordDomain(isLetterOrDigit, a);
    DomainPartCons(isLetterOrDigit, a, r);
    assert (a + "." + r)[|a|] == Dot;
  }

  lemma AcceptsPlainAddress(isLetterOrDigit: char -> bool)
    requires IsLetterOrDigitClass(isLetterOrDigit)
    ensures Accepts(isLetterOrDigit, Some("user" + "@" + ("example" + "." + "com")))
  {
    WordLocalPart(isLetterOrDigit, "user");
    WordDomain(isLetterOrDigit, "com");
    WordsDomain(isLetterOrDigit, "example", "com");
    WellFormedParts(isLetterOrDigit, "user", "example" + "." + "com");
  }

  lemma AcceptsDottedTaggedAddress(isLetterOrDigit: char -> bool)
    requires IsLetterOrDigitClass(isLetterOrDigit)
    ensures Accepts(isLetterOrDigit,
                    Some(("user" + "." + "name+tag") + "@" + ("example" + "." + ("co" + "." + "uk"))))
  {
    WordsLocalPart(isLetterOrDigit, "user", "name+tag");
    WordDomain(isLetterOrDigit, "uk");
    WordsDomain(isLetterOrDigit, "co", "uk");
    WordsDomain(isLetterOrDigit, "example", "co" + "." + "uk");
    WellFormedParts(isLetterOrDigit, "user" + "." + "name+tag", "example" + "." + ("co" + "." + "uk"));
  }

  lemma AcceptsLocalhost(isLetterOrDigit: char -> bool)
    requires IsLetterOrDigitClass(isLetterOrDigit)
    ensures Accepts(isLetterOrDigit, Some("user" + "@" + "localhost"))
  {
    WordLocalPart(isLetterOrDigit, "user");
    WordDomain(isLetterOrDigit, "localhost");
    WellFormedParts(isLetterOrDigit, "user", "localhost");
  }

  lemma RejectsEmptyLocalPart(isLetterOrDigit: char -> bool)
    ensures !Accepts(isLetterOrDigit, Some("" + "@" + "example.com"))
  {
    WellFormedParts(isLetterOrDigit, "", "example.com");
  }

  lemma RejectsEmptyDomain(isLetterOrDigit: char -> bool)
    ensures !Accepts(isLetterOrDigit, Some("user" + "@" + ""))
  {
    WellFormedParts(isLetterOrDigit, "user", "");
  }

  lemma RejectsLeadingHyphenInDomain(isLetterOrDigit: char -> bool)
    requires ExcludesSeparators(isLetterOrDigit)
    ensures !Accepts(isLetterOrDigit, Some("user" + "@" + "-example.com"))
  {
    WellFormedParts(isLetterOrDigit, "user", "-example.com");
  }

  lemma RejectsHyphenEndingLabel(isLetterOrDigit: char -> bool)
    requires ExcludesSeparators(isLetterOrDigit)
    ensures !Accepts(isLetterOrDigit, Some("user" + "@" + ("example-" + "." + "com")))
  {
    WellFormedParts(isLetterOrDigit, "user", "example-" + "." + "com");
    DomainPartCons(isLetterOrDigit, "example-", "com");
  }

  lemma RejectsDoubleDot(isLetterOrDigit: char -> bool)
    requires ExcludesSeparators(isLetterOrDigit)
    ensures !Accepts(isLetterOrDigit, Some(("user" + "." + ".name") + "@" + "example.com"))
  {
    WellFormedParts(isLetterOrDigit, "user" + "." + ".name", "example.com");
    LocalPartCons(isLetterOrDigit, "user", ".name");
  }

  lemma RejectsDotlessDomain(isLetterOrDigit: char -> bool)
    ensures !Accepts(isLetterOrDigit, Some("user" + "@" + "example"))
  {
    WellFormedParts(isLetterOrDigit, "user", "example");
  }

  lemma RejectsSecondAt(isLetterOrDigit: char -> bool)
    requires ExcludesSeparators(isLetterOrDigit)
    ensures !Accepts(isLetterOrDigit, Some("a" + "@" + "b@c.com"))
  {
    WellFormedParts(isLetterOrDigit, "a", "b@c.com");
    assert !IsDomainChar(isLetterOrDigit, "b@c.com"[1]);
  }
}
