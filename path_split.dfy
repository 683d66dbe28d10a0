/** Python's os.path.splitext, as the download name of the minutes uses it.
    Both posixpath and ntpath delegate it to one shared routine (_splitext) that
    differs only in the separators it looks for, so the flavour of the platform
    is a parameter here. Below, "base name" means the text after the last
    separator, the part _splitext searches for an extension; no drive or UNC
    prefix is stripped, since _splitext strips none. */
module PathSplit {

  /** posixpath separates directories with '/', ntpath with '\\' or '/'. */
  datatype PathFlavour = Posix | Windows

  function Separators(f: PathFlavour): (seps: set<char>)
    ensures '/' in seps && ExtSep !in seps
    ensures seps <= {'/', '\\'}
  {
    match f
    case Posix => {'/'}
    case Windows => {'\\', '/'}
  }

  /** The extension separator, os.extsep. */
  const ExtSep: char := '.'

  /** Index of the last character of p before position n that belongs to cs,
      or -1 when there is none. */
  function LastIndexBefore(p: string, cs: set<char>, n: nat): (i: int)
    requires n <= |p|
    ensures -1 <= i < n
    ensures 0 <= i ==> p[i] in cs
    ensures forall k :: i < k < n ==> p[k] !in cs
  {
    if n == 0 then -1
    else if p[n - 1] in cs then n - 1
    else LastIndexBefore(p, cs, n - 1)
  }

  /** Index of the last character of p that belongs to cs, or -1 when there is
      none; str.rfind over one character, or the larger of two rfind results. */
  function LastIndexIn(p: string, cs: set<char>): (i: int)
    ensures -1 <= i < |p|
    ensures 0 <= i ==> p[i] in cs
    ensures forall k :: i < k < |p| ==> p[k] !in cs
  {
    LastIndexBefore(p, cs, |p|)
  }

  /** Just after the last separator, where _splitext begins looking for a
      non-dot; 0 when there is no separator. */
  function BaseStart(p: string, f: PathFlavour): (s: nat)
    ensures s <= |p|
    ensures forall k :: s <= k < |p| ==> p[k] !in Separators(f)
    ensures 0 < s ==> p[s - 1] in Separators(f)
  {
    LastIndexIn(p, Separators(f)) + 1
  }

  /** In a name without slash or backslash the search for a non-dot begins at
      the first character, on every platform. */
  lemma BaseStartOfPlainName(p: string, f: PathFlavour)
    requires forall k :: 0 <= k < |p| ==> p[k] != '/' && p[k] != '\\'
    ensures BaseStart(p, f) == 0
  {
  }

  /** Some character strictly between lo and hi is not a dot. */
  predicate NonDotBetween(p: string, lo: int, hi: int)
    requires -1 <= lo && hi <= |p|
  {
    exists k :: lo < k < hi && p[k] != ExtSep
  }

  /** os.path.splitext: the pair (root, ext). The extension starts at the last
      dot, provided that dot lies in the base name and some character of the base
      name before it is not a dot (leading dots never start an extension);
      otherwise the extension is empty and the root is the whole path. */
  function SplitExt(p: string, f: PathFlavour): (r: (string, string))
    ensures r.0 + r.1 == p
  {
    var sepIndex := LastIndexIn(p, Separators(f));
    var dotIndex := LastIndexIn(p, {ExtSep});
    if dotIndex > sepIndex && NonDotBetween(p, sepIndex, dotIndex) then
      (p[..dotIndex], p[dotIndex..])
    else
      (p, [])
  }

  /** os.path.splitext(p)[0]. */
  function Stem(p: string, f: PathFlavour): (s: string)
    ensures s <= p
  {
    SplitExt(p, f).0
  }

  // ---------------------------------------------------------------------------
  // An independent description of what an extension is.

  /** p[i] is the dot that starts p's extension: no dot and no separator comes
      after it, and some earlier character of the same base name is not a dot. */
  ghost predicate IsExtensionAt(p: string, i: int, f: PathFlavour) {
    && 0 <= i < |p|
    && p[i] == ExtSep
    && (forall k :: i < k < |p| ==> p[k] != ExtSep && p[k] !in Separators(f))
    && (exists j :: 0 <= j < i && p[j] != ExtSep && forall m :: j <= m < i ==> p[m] !in Separators(f))
  }

  ghost predicate HasExtension(p: string, f: PathFlavour) {
    exists i :: IsExtensionAt(p, i, f)
  }

  /** Some dot of p at or after position start follows a non-dot character at
      or after start. */
  ghost predicate DotAfterNonDot(p: string, start: nat) {
    exists j, i :: start <= j < i < |p| && p[j] != ExtSep && p[i] == ExtSep
  }

  /** A path has at most one extension dot. */
  lemma ExtensionUnique(p: string, i: int, i': int, f: PathFlavour)
    requires IsExtensionAt(p, i, f) && IsExtensionAt(p, i', f)
    ensures i == i'
  {
  }

  /** An extension dot is the last dot of the path, it lies after the last
      separator, and a non-dot character lies between the two. */
  lemma ExtensionIsLastDot(p: string, i: int, f: PathFlavour)
    ensures IsExtensionAt(p, i, f) ==>
      var sepIndex := LastIndexIn(p, Separators(f));
      && LastIndexIn(p, {ExtSep}) == i
      && sepIndex < i
      && NonDotBetween(p, sepIndex, i)
  {
    if IsExtensionAt(p, i, f) {
      var seps := Separators(f);
      var sepIndex := LastIndexIn(p, seps);
      var dotIndex := LastIndexIn(p, {ExtSep});
      assert p[i] in {ExtSep};
      assert i <= dotIndex;
      assert p[dotIndex] == ExtSep;
      assert dotIndex == i;
      var j :| 0 <= j < i && p[j] != ExtSep && forall m :: j <= m < i ==> p[m] !in seps;
      assert forall m :: j <= m < |p| ==> p[m] !in seps;
      assert sepIndex < j;
      assert sepIndex < j < dotIndex && p[j] != ExtSep;
    }
  }

  /** SplitExt separates exactly the extension the description above names, and
      separates nothing when there is none. */
  lemma {:induction false} SplitExtCharacterised(p: string, f: PathFlavour)
    ensures SplitExt(p, f).0 + SplitExt(p, f).1 == p
    ensures SplitExt(p, f).1 != [] ==> IsExtensionAt(p, |SplitExt(p, f).0|, f)
    ensures SplitExt(p, f).1 == [] <==> !HasExtension(p, f)
  {
    var seps := Separators(f);
    var sepIndex := LastIndexIn(p, seps);
    var dotIndex := LastIndexIn(p, {ExtSep});
    if dotIndex > sepIndex && NonDotBetween(p, sepIndex, dotIndex) {
      var j :| sepIndex < j < dotIndex && p[j] != ExtSep;
      assert forall m :: j <= m < dotIndex ==> p[m] !in seps;
      assert IsExtensionAt(p, dotIndex, f);
      assert SplitExt(p, f).1 == p[dotIndex..];
    } else {
      forall i | 0 <= i < |p|
        ensures !IsExtensionAt(p, i, f)
      {
        ExtensionIsLastDot(p, i, f);
      }
    }
  }

  /** An extension dot and a non-dot before it both lie in the base name. */
  lemma ExtensionShowsInBaseName(p: string, i: int, f: PathFlavour)
    requires IsExtensionAt(p, i, f)
    ensures DotAfterNonDot(p, BaseStart(p, f))
  {
    ExtensionIsLastDot(p, i, f);
    var j :| BaseStart(p, f) - 1 < j < i && p[j] != ExtSep;
  }

  /** A dot after a non-dot in the base name makes the path's last dot an
      extension dot. */
  lemma BaseNameShowsExtension(p: string, f: PathFlavour)
    requires DotAfterNonDot(p, BaseStart(p, f))
    ensures IsExtensionAt(p, LastIndexIn(p, {ExtSep}), f)
  {
    var seps := Separators(f);
    var start := BaseStart(p, f);
    var j, i :| start <= j < i < |p| && p[j] != ExtSep && p[i] == ExtSep;
    var dotIndex := LastIndexIn(p, {ExtSep});
    assert p[i] in {ExtSep};
    assert p[dotIndex] == ExtSep;
    assert forall m :: j <= m < dotIndex ==> p[m] !in seps;
  }

  /** Whether a path has an extension depends on its base name alone: it has one
      exactly when a dot of the base name follows a non-dot character. */
  lemma HasExtensionInBaseName(p: string, f: PathFlavour)
    ensures HasExtension(p, f) <==> DotAfterNonDot(p, BaseStart(p, f))
  {
    if HasExtension(p, f) {
      var i :| IsExtensionAt(p, i, f);
      ExtensionShowsInBaseName(p, i, f);
    }
    if DotAfterNonDot(p, BaseStart(p, f)) {
      BaseNameShowsExtension(p, f);
    }
  }

  /** A base name without any dot keeps its whole text. */
  lemma NoDotKeepsName(p: string, f: PathFlavour)
    requires forall k :: BaseStart(p, f) <= k < |p| ==> p[k] != ExtSep
    ensures Stem(p, f) == p
  {
    // The leading-dots rule with no leading dots at all.
    LeadingDotsKeepName(p, f, BaseStart(p, f));
  }

  /** A base name made of leading dots followed by text without a dot (".ogg")
      keeps its whole text: the dots occupy [BaseStart, firstOther) and no dot
      comes after them. */
  lemma LeadingDotsKeepName(p: string, f: PathFlavour, firstOther: nat)
    requires BaseStart(p, f) <= firstOther <= |p|
    requires forall k :: BaseStart(p, f) <= k < firstOther ==> p[k] == ExtSep
    requires forall k :: firstOther <= k < |p| ==> p[k] != ExtSep
    ensures Stem(p, f) == p
  {
    SplitExtCharacterised(p, f);
    HasExtensionInBaseName(p, f);
  }

  /** The dot appended after a root whose base name holds a non-dot character
      starts an extension. */
  lemma AppendedDotIsExtension(root: string, ext: string, f: PathFlavour, k: nat)
    requires BaseStart(root, f) <= k < |root| && root[k] != ExtSep
    requires forall m :: 0 <= m < |ext| ==> ext[m] != ExtSep && ext[m] !in Separators(f)
    ensures IsExtensionAt(root + [ExtSep] + ext, |root|, f)
  {
    var p := root + [ExtSep] + ext;
    var n := |root|;
    assert forall m :: n < m < |p| ==> p[m] == ext[m - n - 1];
    assert forall m :: k <= m < n ==> p[m] == root[m];
  }

  /** Splitting a path with an extension cuts it at the extension dot. */
  lemma SplitAtExtension(p: string, i: int, f: PathFlavour)
    requires IsExtensionAt(p, i, f)
    ensures SplitExt(p, f) == (p[..i], p[i..])
  {
    SplitExtCharacterised(p, f);
    ExtensionUnique(p, i, |SplitExt(p, f).0|, f);
  }

  /** Only the final extension goes: a root whose base name holds a non-dot
      character, followed by one more ".ext", gives that root back ("a.b.wav"
      gives "a.b"). */
  lemma OnlyFinalExtensionRemoved(root: string, ext: string, f: PathFlavour)
    requires exists k :: BaseStart(root, f) <= k < |root| && root[k] != ExtSep
    requires forall k :: 0 <= k < |ext| ==> ext[k] != ExtSep && ext[k] !in Separators(f)
    ensures Stem(root + [ExtSep] + ext, f) == root
    ensures SplitExt(root + [ExtSep] + ext, f).1 == [ExtSep] + ext
  {
    var p := root + [ExtSep] + ext;
    var k :| BaseStart(root, f) <= k < |root| && root[k] != ExtSep;
    AppendedDotIsExtension(root, ext, f, k);
    SplitAtExtension(p, |root|, f);
    assert p[..|root|] == root;
    assert p[|root|..] == [ExtSep] + ext;
  }
}
