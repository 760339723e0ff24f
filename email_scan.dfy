/** The finite-state machine of the validator as a step function, what the
    scan knows after each step, and the proof that every step keeps that
    knowledge and rejects only addresses outside the grammar.
 */
module EmailScan {
  import opened CharClass
  import opened EmailSyntax

  /** Where in the grammar the scan is. `Invalid` is declared by the Java
      validator but never entered: a transition with no next state rejects at once. */
  datatype State = Start | Local | DotLocal | AtSymbol | Domain | DotDomain | Invalid

  /** The variables of the scan other than the position: the state, the
      number of non-dot characters of the local part, of the domain and of
      the current domain label, and whether an at sign and a dot in the
      domain have been read. */
  datatype Scan = Scan(state: State, localLength: int, domainLength: int, labelLength: int,
                       hasAtSymbol: bool, hasDotInDomain: bool)

  /** The variables before the first character. */
  const Initial: Scan := Scan(Start, 0, 0, 0, false, false)

  /** One iteration of the scan: the variables after reading `s[i]`, or
      `None` where the validator rejects the address at once. A state with
      no case in the Java validator's switch leaves the variables as they are. */
  function Step(isLetterOrDigit: char -> bool, s: string, i: nat, sc: Scan): (r: Option<Scan>)
    requires i < |s|
  {
    var ch := s[i];
    match sc.state
    case Start =>
      if IsValidLocalChar(isLetterOrDigit, ch) then
        Some(sc.(state := Local, localLength := sc.localLength + 1))
      else None
    case Local =>
      if sc.localLength >= 64 then None
      else if ch == Dot then
        if i == 0 || s[i - 1] == Dot then None else Some(sc.(state := DotLocal))
      else if ch == At then
        if i == 0 || s[i - 1] == Dot then None
        else Some(sc.(state := AtSymbol, hasAtSymbol := true))
      else if !IsValidLocalChar(isLetterOrDigit, ch) then None
      else Some(sc.(localLength := sc.localLength + 1))
    case DotLocal =>
      if IsValidLocalChar(isLetterOrDigit, ch) then
        Some(sc.(state := Local, localLength := sc.localLength + 1))
      else None
    case AtSymbol =>
      if isLetterOrDigit(ch) then Some(sc.(state := Domain, domainLength := 1, labelLength := 1))
      else None
    case Domain =>
      if sc.domainLength >= 255 then None
      else if ch == Dot then
        if sc.labelLength == 0 || (0 < i && s[i - 1] == Hyphen) then None
        else Some(sc.(state := DotDomain, labelLength := 0, hasDotInDomain := true))
      else if isLetterOrDigit(ch) || ch == Hyphen then
        if sc.labelLength == 0 && ch == Hyphen then None
        else Some(sc.(domainLength := sc.domainLength + 1, labelLength := sc.labelLength + 1))
      else None
    case DotDomain =>
      if isLetterOrDigit(ch) then
        Some(sc.(state := Domain, domainLength := sc.domainLength + 1, labelLength := 1))
      else None
    case Invalid => Some(sc)
  }

  /** The variables after the loop has read `s[..n]`, or `None` where it has
      rejected the address on the way. */
  function Run(isLetterOrDigit: char -> bool, s: string, n: nat): (r: Option<Scan>)
    requires n <= |s|
    ensures n == 0 ==> r == Some(Initial)
    decreases n, 0
  {
    if n == 0 then Some(Initial) else Advance(isLetterOrDigit, s, n - 1)
  }

  /** One more iteration of the loop, from the variables after `s[..j]`. */
  function Advance(isLetterOrDigit: char -> bool, s: string, j: nat): (r: Option<Scan>)
    requires j < |s|
    decreases j, 1
  {
    match Run(isLetterOrDigit, s, j)
    case None => None
    case Some(sc) => Step(isLetterOrDigit, s, j, sc)
  }

  // -----------------------------------------------------------------------
  // What the scan knows about the input it has read

  /** `s[..i]` is a non-empty beginning of a local part with no at sign, and
      `localLength` counts its non-dot characters. */
  ghost predicate LocalScanned(isLetterOrDigit: char -> bool, s: string, i: int, localLength: int) {
    0 < i <= |s| && At !in s[..i] && IsLocalShape(isLetterOrDigit, s[..i])
    && localLength == NonDotCount(s[..i])
  }

  /** The first at sign of `s` is at `k`, and the text before it is a local
      part of at most 63 non-dot characters. */
  ghost predicate LocalComplete(isLetterOrDigit: char -> bool, s: string, k: int) {
    0 < k < |s| && IndexOf(s, At) == k
    && IsLocalPart(isLetterOrDigit, s[..k]) && NonDotCount(s[..k]) <= MaxLocalLength
  }

  /** `s[k + 1..i]` is a non-empty beginning of a domain; `domainLength`
      counts its non-dot characters, `labelLength` the characters of its last
      label, and `hasDotInDomain` says whether it holds a dot. */
  ghost predicate DomainScanned(isLetterOrDigit: char -> bool, s: string, k: int, i: int,
                                domainLength: int, labelLength: int, hasDotInDomain: bool) {
    0 <= k && k + 1 < i <= |s| && IsDomainShape(isLetterOrDigit, s[k + 1..i])
    && domainLength == NonDotCount(s[k + 1..i])
    && labelLength == TrailingLabelLength(s[k + 1..i])
    && hasDotInDomain == (Dot in s[k + 1..i])
  }

  /** The loop invariant of the scan: after reading `s[..i]`, the variables
      `sc` have these meanings in each state. */
  ghost predicate ScanInvariant(isLetterOrDigit: char -> bool, s: string, i: int, sc: Scan) {
    0 <= i <= |s| &&
    match sc.state
    case Start =>
      i == 0 && sc == Initial
    case Local =>
      LocalScanned(isLetterOrDigit, s, i, sc.localLength) && s[i - 1] != Dot && sc.localLength <= 64
      && sc.domainLength == 0 && sc.labelLength == 0 && !sc.hasAtSymbol && !sc.hasDotInDomain
    case DotLocal =>
      LocalScanned(isLetterOrDigit, s, i, sc.localLength) && s[i - 1] == Dot && sc.localLength < 64
      && sc.domainLength == 0 && sc.labelLength == 0 && !sc.hasAtSymbol && !sc.hasDotInDomain
    case AtSymbol =>
      0 < i && LocalComplete(isLetterOrDigit, s, i - 1)
      && sc.domainLength == 0 && sc.labelLength == 0 && sc.hasAtSymbol && !sc.hasDotInDomain
    case Domain =>
      LocalComplete(isLetterOrDigit, s, IndexOf(s, At)) && sc.hasAtSymbol
      && DomainScanned(isLetterOrDigit, s, IndexOf(s, At), i, sc.domainLength, sc.labelLength,
                       sc.hasDotInDomain)
      && s[i - 1] != Dot && sc.domainLength <= MaxDomainLength && sc.labelLength >= 1
    case DotDomain =>
      LocalComplete(isLetterOrDigit, s, IndexOf(s, At)) && sc.hasAtSymbol
      && DomainScanned(isLetterOrDigit, s, IndexOf(s, At), i, sc.domainLength, sc.labelLength,
                       sc.hasDotInDomain)
      && s[i - 1] == Dot && sc.domainLength < MaxDomainLength && sc.labelLength == 0
    case Invalid => false
  }

  /** A step from a state the invariant describes either keeps the invariant
      or rejects an address outside the grammar. */
  ghost predicate StepSound(isLetterOrDigit: char -> bool, s: string, i: nat, sc: Scan)
    requires i < |s|
  {
    match Step(isLetterOrDigit, s, i, sc)
    case None => !IsWellFormed(isLetterOrDigit, s)
    case Some(next) => ScanInvariant(isLetterOrDigit, s, i + 1, next)
  }

  // -----------------------------------------------------------------------
  // Every step keeps the invariant, and every rejection is right

  /** The loop body of the validator keeps its invariant, and rejects only
      addresses outside the grammar. */
  lemma StepKeepsInvariant(isLetterOrDigit: char -> bool, s: string, i: nat, sc: Scan)
    requires ExcludesSeparators(isLetterOrDigit) && i < |s|
    requires ScanInvariant(isLetterOrDigit, s, i, sc)
    ensures Step(isLetterOrDigit, s, i, sc).None? ==> !IsWellFormed(isLetterOrDigit, s)
    ensures Step(isLetterOrDigit, s, i, sc).Some? ==>
      ScanInvariant(isLetterOrDigit, s, i + 1, Step(isLetterOrDigit, s, i, sc).value)
  {
    match sc.state
    case Start => StartStep(isLetterOrDigit, s, i, sc);
    case Local => LocalStep(isLetterOrDigit, s, i, sc);
    case DotLocal => DotLocalStep(isLetterOrDigit, s, i, sc);
    case AtSymbol => AtSymbolStep(isLetterOrDigit, s, i, sc);
    case Domain => DomainStep(isLetterOrDigit, s, i, sc);
    case DotDomain => DotDomainStep(isLetterOrDigit, s, i, sc);
    case Invalid => assert false;
  }

  /** Every state the loop reaches meets the invariant. */
  lemma {:induction false} RunKeepsInvariant(isLetterOrDigit: char -> bool, s: string, n: nat)
    requires ExcludesSeparators(isLetterOrDigit) && n <= |s|
    ensures Run(isLetterOrDigit, s, n).Some? ==>
      ScanInvariant(isLetterOrDigit, s, n, Run(isLetterOrDigit, s, n).value)
  {
    if n > 0 {
      RunKeepsInvariant(isLetterOrDigit, s, n - 1);
      if Run(isLetterOrDigit, s, n - 1).Some? {
        StepKeepsInvariant(isLetterOrDigit, s, n - 1, Run(isLetterOrDigit, s, n - 1).value);
      }
    }
  }

  /** What the loop body may rely on at position `i`: the next iteration is
      one `Step`, a rejection there rejects only addresses outside the
      grammar, the redundant guards of LOCAL and DOMAIN stay false, and the
      INVALID state is never reached. */
  lemma RunStep(isLetterOrDigit: char -> bool, s: string, i: nat)
    requires ExcludesSeparators(isLetterOrDigit) && i < |s| && Run(isLetterOrDigit, s, i).Some?
    ensures Run(isLetterOrDigit, s, i + 1) == Step(isLetterOrDigit, s, i, Run(isLetterOrDigit, s, i).value)
    ensures Run(isLetterOrDigit, s, i + 1).None? ==> !IsWellFormed(isLetterOrDigit, s)
    ensures Run(isLetterOrDigit, s, i).value.state == Local ==> !(i == 0 || s[i - 1] == Dot)
    ensures Run(isLetterOrDigit, s, i).value.state == Domain ==>
      0 < i && Run(isLetterOrDigit, s, i).value.labelLength != 0
    ensures Run(isLetterOrDigit, s, i).value.state != Invalid
  {
    RunKeepsInvariant(isLetterOrDigit, s, i);
    assert Run(isLetterOrDigit, s, i + 1) == Advance(isLetterOrDigit, s, i);
    StepKeepsInvariant(isLetterOrDigit, s, i, Run(isLetterOrDigit, s, i).value);
    GuardsNeverFire(isLetterOrDigit, s, i, Run(isLetterOrDigit, s, i).value);
  }

  /** In LOCAL and DOMAIN, the tests `EmailValidator.isEmailValid` makes
      against an empty or dot-ending local part, a leading dot, two dots in a
      row, an empty label and a hyphen at the start of a label never reject. */
  lemma GuardsNeverFire(isLetterOrDigit: char -> bool, s: string, i: nat, sc: Scan)
    requires ScanInvariant(isLetterOrDigit, s, i, sc)
    ensures sc.state == Local ==> !(i == 0 || s[i - 1] == Dot)
    ensures sc.state == Domain ==> 0 < i && sc.labelLength != 0
  {
  }

  /** START: a local character starts the local part; anything else cannot
      start an address. */
  lemma StartStep(isLetterOrDigit: char -> bool, s: string, i: nat, sc: Scan)
    requires ExcludesSeparators(isLetterOrDigit) && i < |s|
    requires sc.state == Start && ScanInvariant(isLetterOrDigit, s, i, sc)
    ensures StepSound(isLetterOrDigit, s, i, sc)
  {
    if IsValidLocalChar(isLetterOrDigit, s[i]) {
      ExtendLocal(isLetterOrDigit, s, i, sc.localLength);
      SeparatorsAsLocalChars(isLetterOrDigit);
    } else {
      var k := IndexOf(s, At);
      assert k > 0 ==> s[..k][0] == s[0];
    }
  }

  /** LOCAL: after 64 non-dot characters the local part is too long; a dot
      or the at sign ends a non-empty run of local characters; any other
      character must be a local character. */
  lemma LocalStep(isLetterOrDigit: char -> bool, s: string, i: nat, sc: Scan)
    requires ExcludesSeparators(isLetterOrDigit) && i < |s|
    requires sc.state == Local && ScanInvariant(isLetterOrDigit, s, i, sc)
    ensures StepSound(isLetterOrDigit, s, i, sc)
  {
    if sc.localLength >= 64 {
      IndexOfAfter(s, At, i);
      NonDotCountPrefix(s, i, IndexOf(s, At));
    } else if s[i] == At {
      IndexOfIs(s, At, i);
    } else if s[i] == Dot || IsValidLocalChar(isLetterOrDigit, s[i]) {
      ExtendLocal(isLetterOrDigit, s, i, sc.localLength);
    } else {
      IndexOfAfter(s, At, i);
      var k := IndexOf(s, At);
      assert k > i ==> s[..k][i] == s[i];
    }
  }

  /** DOT_LOCAL: a dot must be followed by a local character. */
  lemma DotLocalStep(isLetterOrDigit: char -> bool, s: string, i: nat, sc: Scan)
    requires ExcludesSeparators(isLetterOrDigit) && i < |s|
    requires sc.state == DotLocal && ScanInvariant(isLetterOrDigit, s, i, sc)
    ensures StepSound(isLetterOrDigit, s, i, sc)
  {
    SeparatorsAsLocalChars(isLetterOrDigit);
    if IsValidLocalChar(isLetterOrDigit, s[i]) {
      ExtendLocal(isLetterOrDigit, s, i, sc.localLength);
    } else {
      IndexOfAfter(s, At, i);
      var k := IndexOf(s, At);
      assert k > i ==> s[..k][i] == s[i] && s[..k][i - 1] == s[i - 1];
      assert k == i ==> s[..k][k - 1] == s[i - 1];
    }
  }

  /** AT_SYMBOL: the domain must start with a letter or digit. */
  lemma AtSymbolStep(isLetterOrDigit: char -> bool, s: string, i: nat, sc: Scan)
    requires ExcludesSeparators(isLetterOrDigit) && i < |s|
    requires sc.state == AtSymbol && ScanInvariant(isLetterOrDigit, s, i, sc)
    ensures StepSound(isLetterOrDigit, s, i, sc)
  {
    if isLetterOrDigit(s[i]) {
      ExtendDomain(isLetterOrDigit, s, i - 1, i, sc.domainLength, sc.labelLength, sc.hasDotInDomain);
    } else {
      assert s[i..][0] == s[i];
    }
  }

  /** DOMAIN: after 255 non-dot characters the domain is too long; a dot
      ends a label, which may not end with a hyphen; letters, digits and
      hyphens extend the label; nothing else may appear. */
  lemma DomainStep(isLetterOrDigit: char -> bool, s: string, i: nat, sc: Scan)
    requires ExcludesSeparators(isLetterOrDigit) && i < |s|
    requires sc.state == Domain && ScanInvariant(isLetterOrDigit, s, i, sc)
    ensures StepSound(isLetterOrDigit, s, i, sc)
  {
    var k := IndexOf(s, At);
    if sc.domainLength >= 255 {
      LongDomain(isLetterOrDigit, s, k, i);
    } else if !IsDomainChar(isLetterOrDigit, s[i]) {
      assert s[k + 1..][i - k - 1] == s[i];
    } else if s[i] == Dot && s[i - 1] == Hyphen {
      var d := s[k + 1..];
      assert d[i - k - 1] == s[i] && d[i - k - 2] == s[i - 1];
    } else {
      ExtendDomain(isLetterOrDigit, s, k, i, sc.domainLength, sc.labelLength, sc.hasDotInDomain);
    }
  }

  /** DOT_DOMAIN: a dot must be followed by a letter or digit. */
  lemma DotDomainStep(isLetterOrDigit: char -> bool, s: string, i: nat, sc: Scan)
    requires ExcludesSeparators(isLetterOrDigit) && i < |s|
    requires sc.state == DotDomain && ScanInvariant(isLetterOrDigit, s, i, sc)
    ensures StepSound(isLetterOrDigit, s, i, sc)
  {
    var k := IndexOf(s, At);
    if isLetterOrDigit(s[i]) {
      ExtendDomain(isLetterOrDigit, s, k, i, sc.domainLength, sc.labelLength, sc.hasDotInDomain);
    } else {
      var d := s[k + 1..];
      assert d[i - k - 1] == s[i] && d[i - k - 2] == s[i - 1];
    }
  }

  /** After the scan: an address that ends with a dot or a hyphen is
      rejected; otherwise the final test of the scan decides exactly the
      grammar, and its length and label tests never fail in DOMAIN. */
  lemma FinalVerdict(isLetterOrDigit: char -> bool, s: string, sc: Scan)
    requires ExcludesSeparators(isLetterOrDigit) && 0 < |s| <= MaxAddressLength
    requires ScanInvariant(isLetterOrDigit, s, |s|, sc)
    ensures s[|s| - 1] == Dot || s[|s| - 1] == Hyphen ==> !IsWellFormed(isLetterOrDigit, s)
    ensures sc.state == Domain ==>
      sc.hasAtSymbol && sc.labelLength > 0 && sc.domainLength <= MaxDomainLength
    ensures s[|s| - 1] != Dot && s[|s| - 1] != Hyphen ==>
      (IsWellFormed(isLetterOrDigit, s) <==>
         sc.state == Domain && (sc.hasDotInDomain || EndsWith(s, AtLocalhost)))
  {
    var k := IndexOf(s, At);
    assert k + 1 < |s| ==> s[k + 1..][|s| - k - 2] == s[|s| - 1];
    if sc.state == Domain {
      var d := s[k + 1..];
      assert s[k + 1..|s|] == d;
      assert forall j | 0 <= j < |d| :: IsDomainChar(isLetterOrDigit, d[j]);
      LocalhostSuffix(s, k);
    } else if sc.state == AtSymbol {
      assert s[k + 1..] == [];
    } else if sc.state == Local || sc.state == DotLocal {
      assert s[..|s|] == s;
    }
  }

  // -----------------------------------------------------------------------
  // How one character extends the part being read

  /** A local character, or a dot after a non-dot, extends the local part;
      `localLength` grows by one unless the character is a dot. */
  lemma ExtendLocal(isLetterOrDigit: char -> bool, s: string, i: int, n: int)
    requires ExcludesSeparators(isLetterOrDigit)
    requires 0 <= i < |s| && s[i] != At
    requires i == 0 ==> n == 0 && IsValidLocalChar(isLetterOrDigit, s[i])
    requires i > 0 ==> LocalScanned(isLetterOrDigit, s, i, n)
    requires i > 0 ==> IsValidLocalChar(isLetterOrDigit, s[i]) || (s[i] == Dot && s[i - 1] != Dot)
    ensures LocalScanned(isLetterOrDigit, s, i + 1, if s[i] == Dot then n else n + 1)
  {
    SeparatorsAsLocalChars(isLetterOrDigit);
    var p := s[..i];
    assert s[..i + 1] == p + [s[i]];
    NonDotCountSnoc(p, s[i]);
    assert i > 0 ==> p[|p| - 1] == s[i - 1];
    LocalShapeSnoc(isLetterOrDigit, p, s[i]);
  }

  /** A letter, digit or hyphen, or a dot after a character other than a
      hyphen, extends the domain; the first character must be a letter or
      digit, and so must the character after a dot. */
  lemma ExtendDomain(isLetterOrDigit: char -> bool, s: string, k: int, i: int,
                     domainLength: int, labelLength: int, hasDotInDomain: bool)
    requires ExcludesSeparators(isLetterOrDigit)
    requires 0 <= k < i < |s|
    requires i == k + 1 ==> isLetterOrDigit(s[i]) && domainLength == 0 && labelLength == 0 && !hasDotInDomain
    requires i > k + 1 ==>
      DomainScanned(isLetterOrDigit, s, k, i, domainLength, labelLength, hasDotInDomain)
    requires i > k + 1 ==> IsDomainChar(isLetterOrDigit, s[i])
    requires i > k + 1 && s[i - 1] == Dot ==> isLetterOrDigit(s[i])
    requires i > k + 1 && s[i] == Dot ==> s[i - 1] != Hyphen
    ensures DomainScanned(isLetterOrDigit, s, k, i + 1,
                          if s[i] == Dot then domainLength else domainLength + 1,
                          if s[i] == Dot then 0 else labelLength + 1,
                          hasDotInDomain || s[i] == Dot)
  {
    var p := s[k + 1..i];
    assert s[k + 1..i + 1] == p + [s[i]];
    assert i == k + 1 ==> p == [];
    assert i > k + 1 ==> p[|p| - 1] == s[i - 1];
    NonDotCountSnoc(p, s[i]);
    TrailingLabelLengthSnoc(p, s[i]);
    DomainShapeSnoc(isLetterOrDigit, p, s[i]);
  }

  /** A domain that already holds 255 non-dot characters before position `i`
      of `s`, with more input to come, is too long. */
  lemma LongDomain(isLetterOrDigit: char -> bool, s: string, k: nat, i: nat)
    requires IndexOf(s, At) == k && k + 1 < i < |s|
    requires NonDotCount(s[k + 1..i]) >= MaxDomainLength
    ensures !IsWellFormed(isLetterOrDigit, s)
  {
    LongDomainPart(isLetterOrDigit, s, k, i);
  }

  /** The last character of a domain is not a dot, so it adds one more
      non-dot character to the 255 before position `i`. */
  lemma LongDomainPart(isLetterOrDigit: char -> bool, s: string, k: nat, i: nat)
    requires k + 1 < i < |s|
    requires NonDotCount(s[k + 1..i]) >= MaxDomainLength
    ensures !(IsDomainPart(isLetterOrDigit, s[k + 1..]) && NonDotCount(s[k + 1..]) <= MaxDomainLength)
  {
    var d := s[k + 1..];
    assert d[..i - k - 1] == s[k + 1..i];
    NonDotCountPrefix(d, i - k - 1, |d| - 1);
  }
}
