/** The validator: one left-to-right pass of a finite-state machine over the
    address, proved to accept exactly the addresses of module EmailSyntax.
 */
module EmailValidator {
  import opened CharClass
  import opened EmailSyntax
  import opened EmailScan

  /** Classifies `address` in one pass. `isLetterOrDigit` stands for the
      platform's letter-or-digit test. */
  method IsEmailValid(address: Option<string>, isLetterOrDigit: char -> bool) returns (valid: bool)
    requires ExcludesSeparators(isLetterOrDigit)
    ensures valid == Accepts(isLetterOrDigit, address)
    ensures address.None? || |address.value| == 0 || |address.value| > MaxAddressLength ==> !valid
  {
    if address.None? || |address.value| == 0 || |address.value| > MaxAddressLength {
      return false;
    }
    var s := address.value;

    var state := Start;
    var domainLength, labelLength, localLength := 0, 0, 0;
    var hasAtSymbol := false;
    var hasDotInDomain := false;

    var i := 0;
    while i < |s|
      invariant i <= |s|
      invariant Run(isLetterOrDigit, s, i) ==
                Some(Scan(state, localLength, domainLength, labelLength, hasAtSymbol, hasDotInDomain))
    {
      RunStep(isLetterOrDigit, s, i);
      var ch := s[i];
      match state {
        case Start =>
          if IsValidLocalChar(isLetterOrDigit, ch) {
            state := Local;
            localLength := localLength + 1;
          } else {
            return false;
          }

        case Local =>
          if localLength >= 64 {
            return false;
          }
          if ch == Dot {
            // no leading dot, no two dots in a row: never true in this state
            if i == 0 || s[i - 1] == Dot {
              assert false;
              return false;
            }
            state := DotLocal;
          } else if ch == At {
            // no empty local part, none ending with a dot: never true in this state
            if i == 0 || s[i - 1] == Dot {
              assert false;
              return false;
            }
            state := AtSymbol;
            hasAtSymbol := true;
          } else if !IsValidLocalChar(isLetterOrDigit, ch) {
            return false;
          } else {
            localLength := localLength + 1;
          }

        case DotLocal =>
          if IsValidLocalChar(isLetterOrDigit, ch) {
            state := Local;
            localLength := localLength + 1;
          } else {
            return false;
          }

        case AtSymbol =>
          if isLetterOrDigit(ch) {
            state := Domain;
            domainLength := 1;
            labelLength := 1;
          } else {
            return false;
          }

        case Domain =>
          if domainLength >= 255 {
            return false;
          }
          if ch == Dot {
            // labelLength is never 0 in this state: only the hyphen test can reject
            if labelLength == 0 || s[i - 1] == Hyphen {
              return false;
            }
            state := DotDomain;
            labelLength := 0;
            hasDotInDomain := true;
          } else if isLetterOrDigit(ch) || ch == Hyphen {
            // no leading hyphen in a label: never true in this state
            if labelLength == 0 && ch == Hyphen {
              assert false;
              return false;
            }
            domainLength := domainLength + 1;
            labelLength := labelLength + 1;
          } else {
            return false;
          }

        case DotDomain =>
          if isLetterOrDigit(ch) {
            state := Domain;
            domainLength := domainLength + 1;
            labelLength := 1;
          } else {
            return false;
          }

        case Invalid =>
          assert false;
      }
      i := i + 1;
    }

    RunKeepsInvariant(isLetterOrDigit, s, |s|);
    FinalVerdict(isLetterOrDigit, s, Run(isLetterOrDigit, s, |s|).value);
    // the domain ends neither with a hyphen nor with a dot
    var lastChar := s[|s| - 1];
    if lastChar == Dot || lastChar == Hyphen {
      return false;
    }

    var isLocalhost := EndsWith(s, AtLocalhost);
    valid := state == Domain && hasAtSymbol && (hasDotInDomain || isLocalhost)
             && labelLength > 0 && domainLength <= 255;
  }
}
