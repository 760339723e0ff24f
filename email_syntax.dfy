/** The language of addresses the validator accepts, stated declaratively:
    a local part, one at sign, and a domain of dot-separated labels (or the
    single label `localhost`), within the length limits. The finite-state
    scan of modules EmailScan and EmailValidator is proved to accept exactly
    this language.
 */
module EmailSyntax {
  import opened CharClass

  /** The Java `String` parameter, which may be `null`. */
  datatype Option<T> = None | Some(value: T)

  /** Longest address, in characters. */
  const MaxAddressLength: nat := 320
  /** Most non-dot characters a local part may hold. */
  const MaxLocalLength: nat := 63
  /** Most non-dot characters a domain may hold. */
  const MaxDomainLength: nat := 255
  const Localhost: string := "localhost"
  const AtLocalhost: string := "@localhost"

  // ---------------------------------------------------------------------
  // Sequence helpers

  /** Position of the first `c` in `s`, or `|s|` when there is none. */
  function IndexOf(s: string, c: char): (k: nat)
    ensures k <= |s|
    ensures k < |s| ==> s[k] == c
    ensures c !in s[..k]
  {
    if s == [] then 0
    else if s[0] == c then 0
    else
      var k := 1 + IndexOf(s[1..], c);
      assert s[..k] == [s[0]] + s[1..][..k - 1];
      k
  }

  /** `s` ends with `suffix` (Java's `String.endsWith`). */
  predicate EndsWith(s: string, suffix: string) {
    |suffix| <= |s| && s[|s| - |suffix|..] == suffix
  }

  /** Number of characters of `s` that are not dots. */
  function NonDotCount(s: string): (n: nat)
    ensures n <= |s|
  {
    if s == [] then 0
    else NonDotCount(s[..|s| - 1]) + (if s[|s| - 1] == Dot then 0 else 1)
  }

  /** Number of characters after the last dot of `s` (all of `s` when it has
      no dot): the length of the label being read. */
  function TrailingLabelLength(s: string): (n: nat)
    ensures n <= |s|
    ensures forall j | |s| - n <= j < |s| :: s[j] != Dot
    ensures n < |s| ==> s[|s| - 1 - n] == Dot
  {
    if s == [] || s[|s| - 1] == Dot then 0
    else
      var n := 1 + TrailingLabelLength(s[..|s| - 1]);
      assert forall j | 0 <= j < |s| - 1 :: s[..|s| - 1][j] == s[j];
      n
  }

  /** The pieces of `s` between dots, in order. */
  function Split(s: string): (parts: seq<string>)
    ensures |parts| > 0
    ensures forall part <- parts :: Dot !in part
    decreases |s|
  {
    var j := IndexOf(s, Dot);
    if j == |s| then [s] else [s[..j]] + Split(s[j + 1..])
  }

  /** The pieces joined back with dots between them. */
  function Join(parts: seq<string>): (r: string)
    requires |parts| > 0
  {
    if |parts| == 1 then parts[0] else parts[0] + [Dot] + Join(parts[1..])
  }

  // ---------------------------------------------------------------------
  // The grammar

  /** A non-empty beginning of a local part: no leading dot, no two dots in
      a row, only local characters and dots. */
  predicate IsLocalShape(isLetterOrDigit: char -> bool, p: string) {
    |p| > 0 && p[0] != Dot
    && (forall j | 0 <= j < |p| :: IsValidLocalChar(isLetterOrDigit, p[j]) || p[j] == Dot)
    && (forall i, j | 0 <= i < |p| && 0 <= j < |p| && j == i + 1 :: p[j] == Dot ==> p[i] != Dot)
  }

  /** A complete local part: a local shape that does not end with a dot. */
  predicate IsLocalPart(isLetterOrDigit: char -> bool, l: string) {
    IsLocalShape(isLetterOrDigit, l) && l[|l| - 1] != Dot
  }

  predicate IsDomainChar(isLetterOrDigit: char -> bool, c: char) {
    isLetterOrDigit(c) || c == Hyphen || c == Dot
  }

  /** A non-empty beginning of a domain: it starts with a letter or digit,
      holds only letters, digits, hyphens and dots, every dot is followed by
      a letter or digit, and no hyphen comes right before a dot. */
  predicate IsDomainShape(isLetterOrDigit: char -> bool, p: string) {
    |p| > 0 && isLetterOrDigit(p[0])
    && (forall j | 0 <= j < |p| :: IsDomainChar(isLetterOrDigit, p[j]))
    && (forall i, j | 0 <= i < |p| && 0 <= j < |p| && j == i + 1 :: p[i] == Dot ==> isLetterOrDigit(p[j]))
    && (forall i, j | 0 <= i < |p| && 0 <= j < |p| && j == i + 1 :: p[j] == Dot ==> p[i] != Hyphen)
  }

  /** A complete domain: a domain shape that ends neither with a dot nor
      with a hyphen. */
  predicate IsDomainPart(isLetterOrDigit: char -> bool, d: string) {
    IsDomainShape(isLetterOrDigit, d) && d[|d| - 1] != Dot && d[|d| - 1] != Hyphen
  }

  /** An address the validator accepts: at most 320 characters; the part
      before the first at sign is a local part of at most 63 non-dot
      characters; the part after it is a domain of at most 255 non-dot
      characters that has a dot or is exactly `localhost`. */
  predicate IsWellFormed(isLetterOrDigit: char -> bool, s: string) {
    var k := IndexOf(s, At);
    |s| <= MaxAddressLength && k < |s|
    && IsLocalPart(isLetterOrDigit, s[..k]) && NonDotCount(s[..k]) <= MaxLocalLength
    && IsDomainPart(isLetterOrDigit, s[k + 1..]) && NonDotCount(s[k + 1..]) <= MaxDomainLength
    && (Dot in s[k + 1..] || s[k + 1..] == Localhost)
  }

  /** The classification of a possibly absent address. */
  predicate Accepts(isLetterOrDigit: char -> bool, address: Option<string>) {
    address.Some? && IsWellFormed(isLetterOrDigit, address.value)
  }

  /** A piece of a local part between dots. */
  predicate IsAtom(isLetterOrDigit: char -> bool, a: string) {
    |a| > 0 && forall j | 0 <= j < |a| :: IsValidLocalChar(isLetterOrDigit, a[j])
  }

  /** A domain label: letters, digits and hyphens, starting with a letter or
      digit and not ending with a hyphen. */
  predicate IsLabel(isLetterOrDigit: char -> bool, a: string) {
    |a| > 0 && isLetterOrDigit(a[0]) && a[|a| - 1] != Hyphen
    && forall j | 0 <= j < |a| :: isLetterOrDigit(a[j]) || a[j] == Hyphen
  }

  // ---------------------------------------------------------------------
  // Lemmas about the helpers

  /** `IndexOf` is the first occurrence, so it is pinned down by any
      occurrence with none before it. */
  lemma IndexOfIs(s: string, c: char, k: nat)
    requires k < |s| && s[k] == c && c !in s[..k]
    ensures IndexOf(s, c) == k
  {
    var m := IndexOf(s, c);
    assert forall j | 0 <= j < k :: s[..k][j] == s[j];
    assert forall j | 0 <= j < m :: s[..m][j] == s[j];
  }

  /** When `c` does not occur in `s[..i]`, its first occurrence is at or after `i`. */
  lemma IndexOfAfter(s: string, c: char, i: nat)
    requires i <= |s| && c !in s[..i]
    ensures IndexOf(s, c) >= i
  {
    assert forall j | 0 <= j < i :: s[..i][j] == s[j];
  }

  lemma {:induction false} NonDotCountAppend(a: string, b: string)
    ensures NonDotCount(a + b) == NonDotCount(a) + NonDotCount(b)
    decreases |b|
  {
    if b == [] {
      assert a + b == a;
    } else {
      var b' := b[..|b| - 1];
      assert (a + b)[..|a + b| - 1] == a + b';
      NonDotCountAppend(a, b');
    }
  }

  /** Counting non-dots is monotone over prefixes. */
  lemma NonDotCountPrefix(s: string, i: nat, k: nat)
    requires i <= k <= |s|
    ensures NonDotCount(s[..i]) <= NonDotCount(s[..k])
  {
    assert s[..k] == s[..i] + s[i..k];
    NonDotCountAppend(s[..i], s[i..k]);
  }

  lemma NonDotCountSnoc(p: string, c: char)
    ensures NonDotCount(p + [c]) == NonDotCount(p) + (if c == Dot then 0 else 1)
  {
    assert (p + [c])[..|p|] == p;
  }

  lemma TrailingLabelLengthSnoc(p: string, c: char)
    ensures TrailingLabelLength(p + [c]) == if c == Dot then 0 else TrailingLabelLength(p) + 1
  {
    assert (p + [c])[..|p|] == p;
  }

  /** A local shape grows by a local character, or by a dot that does not
      follow a dot. */
  lemma LocalShapeSnoc(isLetterOrDigit: char -> bool, p: string, c: char)
    requires IsValidLocalChar(isLetterOrDigit, c) || c == Dot
    requires p == [] ==> c != Dot
    requires p != [] ==> IsLocalShape(isLetterOrDigit, p) && (c == Dot ==> p[|p| - 1] != Dot)
    ensures IsLocalShape(isLetterOrDigit, p + [c])
  {
    var q := p + [c];
    assert forall j | 0 <= j < |p| :: q[j] == p[j];
  }

  /** A domain shape grows by a letter, digit, hyphen or dot, as long as a
      dot is followed by a letter or digit and does not follow a hyphen. */
  lemma DomainShapeSnoc(isLetterOrDigit: char -> bool, p: string, c: char)
    requires p == [] ==> isLetterOrDigit(c)
    requires p != [] ==> IsDomainShape(isLetterOrDigit, p) && IsDomainChar(isLetterOrDigit, c)
    requires p != [] && p[|p| - 1] == Dot ==> isLetterOrDigit(c)
    requires p != [] && c == Dot ==> p[|p| - 1] != Hyphen
    ensures IsDomainShape(isLetterOrDigit, p + [c])
  {
    var q := p + [c];
    assert forall j | 0 <= j < |p| :: q[j] == p[j];
  }

  /** Splitting at the dots and joining with dots gives back the string. */
  lemma {:induction false} JoinSplit(s: string)
    ensures Join(Split(s)) == s
    decreases |s|
  {
    var j := IndexOf(s, Dot);
    if j < |s| {
      JoinSplit(s[j + 1..]);
      assert s == s[..j] + [Dot] + s[j + 1..];
    }
  }

  /** A string without leading, trailing or doubled dots has fewer dots than
      non-dots, so it is at most twice its non-dot count, less one. */
  lemma {:induction false} DotSeparatedLength(p: string)
    requires |p| > 0 && p[0] != Dot
    requires forall i, j | 0 <= i < |p| && 0 <= j < |p| && j == i + 1 :: p[j] == Dot ==> p[i] != Dot
    ensures |p| + (if p[|p| - 1] != Dot then 1 else 0) <= 2 * NonDotCount(p)
    decreases |p|
  {
    if |p| > 1 {
      var q := p[..|p| - 1];
      assert forall j | 0 <= j < |q| :: q[j] == p[j];
      DotSeparatedLength(q);
    }
  }

  // ---------------------------------------------------------------------
  // Properties of accepted addresses

  /** An accepted address holds exactly one at sign. */
  lemma ExactlyOneAt(isLetterOrDigit: char -> bool, s: string)
    requires ExcludesSeparators(isLetterOrDigit)
    requires IsWellFormed(isLetterOrDigit, s)
    ensures multiset(s)[At] == 1
  {
    var k := IndexOf(s, At);
    var l, d := s[..k], s[k + 1..];
    assert s == l + [At] + d;
    assert At !in d by {
      assert forall j | 0 <= j < |d| :: IsDomainChar(isLetterOrDigit, d[j]);
    }
    SingleOccurrence(l, At, d);
  }

  lemma SingleOccurrence(l: string, c: char, d: string)
    requires c !in l && c !in d
    ensures multiset(l + [c] + d)[c] == 1
  {
    assert multiset(l + [c] + d) == multiset(l) + multiset{c} + multiset(d);
    assert multiset(l)[c] == 0;
  }

  /** In an accepted address the at sign has a character after it, and the
      local part before it is 1 to 125 characters long: 63 non-dot characters
      with at most one dot between each pair. */
  lemma PartLengths(isLetterOrDigit: char -> bool, s: string)
    requires IsWellFormed(isLetterOrDigit, s)
    ensures 1 <= IndexOf(s, At) <= 2 * MaxLocalLength - 1
    ensures IndexOf(s, At) < |s| - 1
  {
    var k := IndexOf(s, At);
    DotSeparatedLength(s[..k]);
  }

  /** An at sign followed by a domain: the address ends with `@localhost`
      exactly when the domain is `localhost`. */
  lemma LocalhostSuffix(s: string, k: nat)
    requires k < |s| && s[k] == At && At !in s[k + 1..]
    ensures EndsWith(s, AtLocalhost) <==> s[k + 1..] == Localhost
  {
    if s[k + 1..] == Localhost {
      assert s[|s| - |AtLocalhost|..] == s[k..] == [At] + s[k + 1..];
    }
    if EndsWith(s, AtLocalhost) {
      var m := |s| - |AtLocalhost|;
      assert s[m] == At;
      assert forall j | k < j < |s| :: s[k + 1..][j - k - 1] == s[j];
      assert forall j | 0 < j < |AtLocalhost| :: AtLocalhost[j] != At;
      assert forall j | m <= j < |s| :: s[j] == AtLocalhost[j - m];
      assert s[k + 1..] == s[m..][1..] == Localhost;
    }
  }

  /** A local part with its first dot at `j` is an atom, a dot, and a local
      part again. */
  lemma LocalPartSplitsAt(isLetterOrDigit: char -> bool, l: string, j: nat)
    requires ExcludesSeparators(isLetterOrDigit)
    requires j < |l| && l[j] == Dot && Dot !in l[..j]
    ensures IsLocalPart(isLetterOrDigit, l)
        <==> IsAtom(isLetterOrDigit, l[..j]) && IsLocalPart(isLetterOrDigit, l[j + 1..])
  {
    SeparatorsAsLocalChars(isLetterOrDigit);
    var a, r := l[..j], l[j + 1..];
    assert forall m | 0 <= m < j :: a[m] == l[m] && l[m] != Dot;
    assert forall m | j < m < |l| :: r[m - j - 1] == l[m];
    if IsLocalPart(isLetterOrDigit, l) {
      assert j > 0;
      assert |r| > 0;
      assert r[0] == l[j + 1];
    }
    if IsAtom(isLetterOrDigit, a) && IsLocalPart(isLetterOrDigit, r) {
      assert l[|l| - 1] == r[|r| - 1];
      assert l[0] == a[0];
      assert l[j + 1] == r[0];
      forall m | 0 < m < |l| && l[m] == Dot
        ensures l[m - 1] != Dot
      {
        assert m > j + 1 ==> l[m] == r[m - j - 1] && l[m - 1] == r[m - j - 2];
      }
    }
  }

  /** A local part is exactly a dot-separated sequence of non-empty atoms:
      by `JoinSplit` the text is its pieces joined with dots, and this lemma
      says those pieces are all atoms exactly when it is a local part. */
  lemma {:induction false} LocalPartAtoms(isLetterOrDigit: char -> bool, l: string)
    requires ExcludesSeparators(isLetterOrDigit)
    ensures IsLocalPart(isLetterOrDigit, l) <==> forall a <- Split(l) :: IsAtom(isLetterOrDigit, a)
    decreases |l|
  {
    var j := IndexOf(l, Dot);
    if j == |l| {
      DotFreeLocalPart(isLetterOrDigit, l);
    } else {
      LocalPartSplitsAt(isLetterOrDigit, l, j);
      LocalPartAtoms(isLetterOrDigit, l[j + 1..]);
      SplitAtFirstDot(l, j);
    }
  }

  /** Without a dot, a local part is a single atom. */
  lemma DotFreeLocalPart(isLetterOrDigit: char -> bool, l: string)
    requires ExcludesSeparators(isLetterOrDigit)
    requires IndexOf(l, Dot) == |l|
    ensures Split(l) == [l]
    ensures IsLocalPart(isLetterOrDigit, l) <==> IsAtom(isLetterOrDigit, l)
  {
    assert l[..|l|] == l;
    assert forall m | 0 <= m < |l| :: l[m] != Dot;
    if IsAtom(isLetterOrDigit, l) {
      SeparatorsAsLocalChars(isLetterOrDigit);
      assert l[0] != Dot;
      assert IsLocalShape(isLetterOrDigit, l);
    }
  }

  /** A domain with its first dot at `j` is a label, a dot, and a domain again. */
  lemma DomainPartSplitsAt(isLetterOrDigit: char -> bool, d: string, j: nat)
    requires ExcludesSeparators(isLetterOrDigit)
    requires j < |d| && d[j] == Dot && Dot !in d[..j]
    ensures IsDomainPart(isLetterOrDigit, d)
        <==> IsLabel(isLetterOrDigit, d[..j]) && IsDomainPart(isLetterOrDigit, d[j + 1..])
  {
    var a, r := d[..j], d[j + 1..];
    assert forall m | 0 <= m < j :: a[m] == d[m] && d[m] != Dot;
    assert forall m | j < m < |d| :: r[m - j - 1] == d[m];
    if IsDomainPart(isLetterOrDigit, d) {
      assert j > 0;
      assert |r| > 0;
      assert r[0] == d[j + 1];
      assert a[j - 1] == d[j - 1];
      forall m | 0 < m < |r| ensures r[m - 1] == Dot ==> isLetterOrDigit(r[m]) {
        assert r[m - 1] == d[m + j] && r[m] == d[m + j + 1];
      }
      forall m | 0 < m < |r| ensures r[m] == Dot ==> r[m - 1] != Hyphen {
        assert r[m - 1] == d[m + j] && r[m] == d[m + j + 1];
      }
    }
    if IsLabel(isLetterOrDigit, a) && IsDomainPart(isLetterOrDigit, r) {
      assert d[|d| - 1] == r[|r| - 1];
      assert d[0] == a[0];
      assert d[j + 1] == r[0];
      assert d[j - 1] == a[j - 1];
      forall m | 0 < m < |d| && d[m - 1] == Dot
        ensures isLetterOrDigit(d[m])
      {
        assert m > j + 1 ==> d[m] == r[m - j - 1] && d[m - 1] == r[m - j - 2];
      }
      forall m | 0 < m < |d| && d[m] == Dot
        ensures d[m - 1] != Hyphen
      {
        assert m > j + 1 ==> d[m] == r[m - j - 1] && d[m - 1] == r[m - j - 2];
      }
    }
  }

  /** A domain is exactly a dot-separated sequence of labels: by
      `JoinSplit` the text is its pieces joined with dots, and this lemma
      says those pieces are all labels exactly when it is a domain. */
  lemma {:induction false} DomainPartLabels(isLetterOrDigit: char -> bool, d: string)
    requires ExcludesSeparators(isLetterOrDigit)
    ensures IsDomainPart(isLetterOrDigit, d) <==> forall a <- Split(d) :: IsLabel(isLetterOrDigit, a)
    decreases |d|
  {
    var j := IndexOf(d, Dot);
    if j == |d| {
      DotFreeDomainPart(isLetterOrDigit, d);
    } else {
      DomainPartSplitsAt(isLetterOrDigit, d, j);
      DomainPartLabels(isLetterOrDigit, d[j + 1..]);
      SplitAtFirstDot(d, j);
    }
  }

  /** Without a dot, a domain is a single label. */
  lemma DotFreeDomainPart(isLetterOrDigit: char -> bool, d: string)
    requires IndexOf(d, Dot) == |d|
    ensures Split(d) == [d]
    ensures IsDomainPart(isLetterOrDigit, d) <==> IsLabel(isLetterOrDigit, d)
  {
    assert d[..|d|] == d;
  }

  // ---------------------------------------------------------------------
  // Addresses assembled from their parts

  /** An address made of a text without an at sign, the at sign and a rest
      is accepted exactly when the text is a local part, the rest a domain,
      and the lengths and the final rule are met. */
  lemma WellFormedParts(isLetterOrDigit: char -> bool, l: string, d: string)
    requires At !in l
    ensures IsWellFormed(isLetterOrDigit, l + [At] + d) <==>
      |l| + 1 + |d| <= MaxAddressLength
      && IsLocalPart(isLetterOrDigit, l) && NonDotCount(l) <= MaxLocalLength
      && IsDomainPart(isLetterOrDigit, d) && NonDotCount(d) <= MaxDomainLength
      && (Dot in d || d == Localhost)
  {
    var s := l + [At] + d;
    assert s[..|l|] == l;
    assert s[|l| + 1..] == d;
    IndexOfIs(s, At, |l|);
  }

  /** Without a dot, a text is a local part exactly when it is an atom. */
  lemma AtomLocalPart(isLetterOrDigit: char -> bool, a: string)
    requires ExcludesSeparators(isLetterOrDigit) && Dot !in a
    ensures IsLocalPart(isLetterOrDigit, a) <==> IsAtom(isLetterOrDigit, a)
  {
    DotFreeLocalPart(isLetterOrDigit, a);
  }

  /** A dot-free text, a dot and a rest form a local part exactly when the
      text is an atom and the rest a local part. */
  lemma LocalPartCons(isLetterOrDigit: char -> bool, a: string, r: string)
    requires ExcludesSeparators(isLetterOrDigit) && Dot !in a
    ensures IsLocalPart(isLetterOrDigit, a + [Dot] + r)
        <==> IsAtom(isLetterOrDigit, a) && IsLocalPart(isLetterOrDigit, r)
  {
    var l := a + [Dot] + r;
    assert l[..|a|] == a;
    assert l[|a| + 1..] == r;
    LocalPartSplitsAt(isLetterOrDigit, l, |a|);
  }

  /** Without a dot, a text is a domain exactly when it is a label. */
  lemma LabelDomainPart(isLetterOrDigit: char -> bool, a: string)
    requires Dot !in a
    ensures IsDomainPart(isLetterOrDigit, a) <==> IsLabel(isLetterOrDigit, a)
  {
    DotFreeDomainPart(isLetterOrDigit, a);
  }

  /** A dot-free text, a dot and a rest form a domain exactly when the text
      is a label and the rest a domain. */
  lemma DomainPartCons(isLetterOrDigit: char -> bool, a: string, r: string)
    requires ExcludesSeparators(isLetterOrDigit) && Dot !in a
    ensures IsDomainPart(isLetterOrDigit, a + [Dot] + r)
        <==> IsLabel(isLetterOrDigit, a) && IsDomainPart(isLetterOrDigit, r)
  {
    var d := a + [Dot] + r;
    assert d[..|a|] == a;
    assert d[|a| + 1..] == r;
    DomainPartSplitsAt(isLetterOrDigit, d, |a|);
  }

  /** `Split` cuts at the first dot: its pieces are the text before that
      dot and the pieces of the text after it. */
  lemma SplitAtFirstDot(s: string, j: nat)
    requires j < |s| && IndexOf(s, Dot) == j
    ensures forall a :: a in Split(s) <==> a == s[..j] || a in Split(s[j + 1..])
  {
    SplitCons(s, j);
  }

  lemma SplitCons(s: string, j: nat)
    requires j < |s| && IndexOf(s, Dot) == j
    ensures Split(s) == [s[..j]] + Split(s[j + 1..])
  {
  }

}
