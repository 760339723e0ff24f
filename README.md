# EmailValidator in Dafny

A model of `EmailValidator.isEmailValid`, a syntax check for e-mail
addresses that makes one left-to-right pass over the address with a
finite-state machine. The machine has the states START, LOCAL, DOT_LOCAL,
AT_SYMBOL, DOMAIN, DOT_DOMAIN and INVALID. It also keeps three counters,
`localLength`, `domainLength` and `labelLength`, and two flags,
`hasAtSymbol` and `hasDotInDomain`. A character with no transition rejects
the address at once. After the pass, the last character and a final
condition decide.

The model has five modules:

- `CharClass` (`char_class.dfy`): the constants `PRINTABLE_CHAR`, `DOT`,
  `HYPHEN` and `AT`, and the local-character test. The platform's
  letter-or-digit test is a parameter `isLetterOrDigit` of every operation.
  The method needs only `ExcludesSeparators` (it rejects `.`, `@` and `-`).
  The example addresses also use `IsLetterOrDigitClass`, which describes
  Java's classifier: ASCII letters and digits are accepted, and the
  punctuation of `PRINTABLE_CHAR` is not. No lemma uses that last conjunct;
  it is there only to describe Java's test.
- `EmailSyntax` (`email_syntax.dfy`): the accepted language, stated
  declaratively, and lemmas about it.
  - `IsWellFormed`: a local part, the at sign, and a domain. The domain
    either has a dot or is `localhost`. The length limits hold.
  - `Accepts`: the same test for a possibly absent address. The Java `null`
    is `None`.
  - The lemmas: exactly one at sign, the local part is dot-separated atoms,
    the domain is dot-separated labels, the length bounds, and how an
    address is assembled from its parts.
- `EmailScan` (`email_scan.dfy`): the machine itself.
  - `State` and the variables `Scan`.
  - `Step`: one iteration of the loop's `switch`.
  - `Run`: the variables after any prefix.
  - `ScanInvariant`: what the variables mean in each state.
  - Lemmas: every iteration keeps the invariant and rejects only addresses
    outside the language, the source's redundant guards never fire, and
    the final test decides exactly the language.
- `EmailValidator` (`email_validator.dfy`): `IsEmailValid`, a method with
  the source's loop, branches, early `return false` exits and final test.
  Its contract is `valid == Accepts(isLetterOrDigit, address)`.
- `EmailScenarios` (`scenarios.dfy`): example addresses proved accepted or
  rejected by the language. Through the method's contract, these are the
  method's results.

Both length limits count non-dot characters only, as the source's counters
do. A local part may therefore be up to 125 characters long (63 non-dot
characters with a dot between each pair), and a domain may exceed 255
characters when it has dots. The model follows the code here, not the
reading of the limits as plain character counts.

## Model

| member | source | states |
|---|---|---|
| EmailValidator.IsEmailValid | src/main/java/EmailValidator.java:12-103 | returns true exactly when the address is present and in the language `IsWellFormed`; a null, empty or over-320-character address gives false |
| EmailScan.State | src/main/java/EmailValidator.java:8-10 | the seven states of the enum; no contract of its own: RunStep proves `Invalid` is never reached |
| EmailScan.Step | src/main/java/EmailValidator.java:24-94 | one iteration of the `switch`, `None` at each `return false`; no contract of its own: StepKeepsInvariant (and the six per-state lemmas) state what it does |
| EmailScan.Run | src/main/java/EmailValidator.java:21-95 | the variables after the `for` loop has read a prefix, `None` once it has returned false; its ensures gives the initial variables of lines 15-18, and RunKeepsInvariant states the invariant of every prefix |
| EmailScan.Advance | src/main/java/EmailValidator.java:21-95 | one more iteration of the `for` loop; no contract of its own: RunStep states that the next prefix is one Step on and that its rejection is sound |
| CharClass.IsValidLocalChar | src/main/java/EmailValidator.java:109-111 | `isValidLocalChar`; no contract of its own: SeparatorsAsLocalChars and AsciiLocalChars state its values |
| CharClass.IsPrintableChar | src/main/java/EmailValidator.java:110 | the `PRINTABLE_CHAR.indexOf(ch) != -1` test over the constant of line 2; no contract of its own: PrintableCharMembers proves it is membership in the constant |
| EmailSyntax.EndsWith | src/main/java/EmailValidator.java:101 | `address.endsWith`; no contract of its own: LocalhostSuffix states what it decides after the only at sign |
| EmailSyntax.IsWellFormed | src/main/java/EmailValidator.java:12-103 | the language the validator accepts; no contract of its own: IsEmailValid is proved to decide it, and ExactlyOneAt, PartLengths, LocalPartAtoms, DomainPartLabels, LocalhostSuffix and WellFormedParts state its shape |
| EmailSyntax.Accepts | src/main/java/EmailValidator.java:13 | the language for a possibly null address (`None` is never accepted); no contract of its own: IsEmailValid's ensures is stated with it |
| EmailSyntax.JoinSplit | src/main/java/EmailValidator.java:71-75 | splitting a text at its dots and joining the pieces with dots gives the text back, so the pieces LocalPartAtoms and DomainPartLabels speak of make up the whole text |
| EmailScan.StepKeepsInvariant | src/main/java/EmailValidator.java:21-94 | one iteration of the switch from a state meeting the invariant either reaches a state meeting it for the next prefix, or rejects an address outside the language |
| EmailScan.StartStep | src/main/java/EmailValidator.java:25-32 | START: a local character opens the local part; anything else, a dot or an at sign included, cannot start an address |
| EmailScan.LocalStep | src/main/java/EmailValidator.java:34-48 | LOCAL: with 64 non-dot characters already read the local part is too long; a dot or the at sign closes a run of local characters; any other non-local character is outside the language |
| EmailScan.DotLocalStep | src/main/java/EmailValidator.java:50-57 | DOT_LOCAL: a dot must be followed by a local character, so no two dots in a row and no dot before the at sign |
| EmailScan.AtSymbolStep | src/main/java/EmailValidator.java:59-67 | AT_SYMBOL: the domain must begin with a letter or digit |
| EmailScan.DomainStep | src/main/java/EmailValidator.java:69-83 | DOMAIN: a domain of 255 non-dot characters cannot grow; a dot after a hyphen ends a label badly; letters, digits and hyphens extend the label; anything else is outside the language |
| EmailScan.DotDomainStep | src/main/java/EmailValidator.java:85-93 | DOT_DOMAIN: a dot in the domain must be followed by a letter or digit |
| EmailScan.RunKeepsInvariant | src/main/java/EmailValidator.java:21-95 | every combination of variables the loop reaches after a prefix meets the invariant for that prefix |
| EmailScan.RunStep | src/main/java/EmailValidator.java:21-95 | at each position the next iteration is one `Step`; its rejection rejects only addresses outside the language; INVALID is never reached |
| EmailScan.GuardsNeverFire | src/main/java/EmailValidator.java:37-77 | the tests `i == 0 \|\| charAt(i - 1) == DOT` in LOCAL (lines 37 and 40), `labelLength == 0` at line 72 and `labelLength == 0 && ch == HYPHEN` at line 77 are false whenever they are evaluated |
| EmailScan.FinalVerdict | src/main/java/EmailValidator.java:97-102 | an address ending with a dot or hyphen is outside the language; in DOMAIN the tests `hasAtSymbol`, `labelLength > 0` and `domainLength <= 255` hold; otherwise the final test holds exactly for addresses in the language |
| EmailScan.ExtendLocal | src/main/java/EmailValidator.java:26-53 | a local character, or a dot not after a dot, extends the local-part prefix, and `localLength` grows by one exactly for a non-dot |
| EmailScan.ExtendDomain | src/main/java/EmailValidator.java:60-89 | a letter, digit, hyphen or well-placed dot extends the domain prefix, `domainLength` counts its non-dot characters, `labelLength` the characters since its last dot, and `hasDotInDomain` whether it has a dot |
| EmailScan.LongDomain | src/main/java/EmailValidator.java:70 | a domain that holds 255 non-dot characters with input still to come is outside the language |
| CharClass.PrintableCharMembers | src/main/java/EmailValidator.java:2 | the character-by-character test `IsPrintableChar` accepts exactly the characters of `PRINTABLE_CHAR` (the `indexOf(ch) != -1` test) |
| CharClass.SeparatorsAsLocalChars | src/main/java/EmailValidator.java:109-111 | the dot and the at sign are never local characters and the hyphen always is |
| CharClass.AsciiLocalChars | src/main/java/EmailValidator.java:109-111 | every ASCII letter and digit is a local character |
| CharClass.AsciiIsLetterOrDigitClass | src/main/java/EmailValidator.java:105-107 | an ASCII-only letter-or-digit test meets the whole description `IsLetterOrDigitClass`, so the example lemmas are not vacuous |
| EmailSyntax.ExactlyOneAt | src/main/java/EmailValidator.java:39-42 | an accepted address holds the at sign exactly once |
| EmailSyntax.PartLengths | src/main/java/EmailValidator.java:35-40 | in an accepted address the at sign is preceded by 1 to 125 characters and followed by at least one |
| EmailSyntax.LocalPartAtoms | src/main/java/EmailValidator.java:25-57 | a text is a local part exactly when every piece of `Split` (the pieces between its dots, which `JoinSplit` joins back into the text) is a non-empty run of local characters (no leading, trailing or doubled dot) |
| EmailSyntax.LocalPartSplitsAt | src/main/java/EmailValidator.java:36-38 | a local part with its first dot at `j` is an atom, the dot, and a local part again, and conversely |
| EmailSyntax.DomainPartLabels | src/main/java/EmailValidator.java:59-93 | a text is a domain exactly when every piece of `Split` (the pieces between its dots, which `JoinSplit` joins back into the text) is a label: non-empty, letters, digits and hyphens, starting with a letter or digit, not ending with a hyphen |
| EmailSyntax.DomainPartSplitsAt | src/main/java/EmailValidator.java:71-75 | a domain with its first dot at `j` is a label, the dot, and a domain again, and conversely |
| EmailSyntax.LocalhostSuffix | src/main/java/EmailValidator.java:101 | after the only at sign, the address ends with `@localhost` exactly when the domain is `localhost` |
| EmailSyntax.WellFormedParts | src/main/java/EmailValidator.java:12-103 | text without an at sign, the at sign and a rest form an accepted address exactly when the text is a local part of at most 63 non-dot characters, the rest a domain of at most 255 with a dot or equal to `localhost`, and the whole is at most 320 characters |
| EmailScenarios.AcceptsPlainAddress | src/main/java/EmailValidator.java:12-103 | `user@example.com` is accepted |
| EmailScenarios.AcceptsDottedTaggedAddress | src/main/java/EmailValidator.java:12-103 | `user.name+tag@example.co.uk` is accepted |
| EmailScenarios.AcceptsLocalhost | src/main/java/EmailValidator.java:101-102 | `user@localhost` is accepted though its domain has no dot |
| EmailScenarios.RejectsEmptyLocalPart | src/main/java/EmailValidator.java:25-31 | `@example.com` is rejected |
| EmailScenarios.RejectsEmptyDomain | src/main/java/EmailValidator.java:102 | `user@` is rejected |
| EmailScenarios.RejectsLeadingHyphenInDomain | src/main/java/EmailValidator.java:59-67 | `user@-example.com` is rejected |
| EmailScenarios.RejectsHyphenEndingLabel | src/main/java/EmailValidator.java:72 | `user@example-.com` is rejected |
| EmailScenarios.RejectsDoubleDot | src/main/java/EmailValidator.java:50-57 | `user..name@example.com` is rejected |
| EmailScenarios.RejectsDotlessDomain | src/main/java/EmailValidator.java:101-102 | `user@example` is rejected: no dot in the domain and not `localhost` |
| EmailScenarios.RejectsSecondAt | src/main/java/EmailValidator.java:76-81 | `a@b@c.com` is rejected: the domain may not hold an at sign |

## Left out

- `Character.isLetterOrDigit` (lines 105-107 and 110) is not given a body: it is the parameter `isLetterOrDigit`. The method assumes only `ExcludesSeparators`; the example addresses assume the first two conjuncts of `IsLetterOrDigitClass`. The Unicode letter and digit categories are not modelled.
- Java strings are sequences of UTF-16 code units. Here an address is a `seq<char>`, and its length is the number of `char`s. Surrogate pairs are not modelled.
- `String.indexOf` and `String.endsWith` are library calls. Here they are `IsPrintableChar`, proved equal to membership in `PRINTABLE_CHAR` by `PrintableCharMembers`, and `EndsWith`.
- The INVALID state is declared but never entered, because a transition with no next state returns at once. `Step` leaves the variables unchanged in it, as the source's `switch`, which has no case for it, would. The invariant, and so the method, proves it unreachable.
- `Step` guards the read of `charAt(i - 1)` in DOMAIN with `0 < i`. The source reads it unguarded. It cannot fail there, because `GuardsNeverFire` proves `0 < i` in DOMAIN.
- The counters are unbounded integers. Java's 32-bit `int` cannot overflow here, because no counter exceeds the 320-character bound.
