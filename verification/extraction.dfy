/** The three extraction strategies: how an entry's unit label, part of speech and sound
    paths are derived from the input file's path (and, for the internal rules, from the
    list name and a per-node query).

    Every configured regular expression of these classes is deterministic once its start
    is fixed, so each becomes a scanner giving the match length at a position
    (`UnitRootLength`, `UnitNumberLength`, `B4XNameLength`), proved equal to the pattern's
    grammar, and `Text.Find` supplies the leftmost position. */
module Extraction {
  import opened Results
  import opened Text
  import opened Foreign

  const UnitPrefix: string := "Unit "
  const UnknownUnitNumber: string := "00"
  const UncategorizedPartOfSpeech: string := "uncategorized"
  const UnclassifiedPartOfSpeech: string := "unclassified"
  const FallbackB4XName: string := "ENGus_ENGus_99"
  const MarsocSoundRoot: string := "alphabet/glossary/"
  const InternalSoundPrefix: string := "../"

  // =======================================================================================
  // Standard rules

  /** The separator the unit pattern is written for: `\` when the platform's file separator
      is exactly that, '/' otherwise. */
  function PlatformSeparator(fileSeparator: string): (sep: char)
    ensures sep == '/' || sep == '\\'
    ensures sep == '\\' <==> fileSeparator == "\\"
  {
    if fileSeparator == "\\" then '\\' else '/'
  }

  predicate IsPathSeparator(c: char) {
    c == '/' || c == '\\'
  }

  /** The grammar of `unit\d{1,2}S data S \w{12}\w+ S` for separator `S`, with `d` unit digits. */
  predicate UnitRootShape(t: string, sep: char, d: nat) {
    && (d == 1 || d == 2)
    && |t| >= 24 + d
    && t[..4] == "unit"
    && IsDigit(t[4]) && (d == 2 ==> IsDigit(t[5]))
    && t[4 + d] == sep && t[5 + d..9 + d] == "data" && t[9 + d] == sep
    && (forall i :: 10 + d <= i < |t| - 1 ==> IsWordChar(t[i]))
    && t[|t| - 1] == sep
  }

  predicate IsUnitRoot(t: string, sep: char) {
    UnitRootShape(t, sep, 1) || UnitRootShape(t, sep, 2)
  }

  /** Length of the unit-pattern match at the front of `s`: the digit run must be one or two
      long and the word run at least thirteen, each followed by the separator. */
  function UnitRootLength(s: string, sep: char): (r: Option<nat>)
    ensures r.Some? ==> r.value <= |s|
  {
    if |s| >= 4 && s[..4] == "unit" then
      var d := Run(s[4..], IsDigit);
      if 1 <= d <= 2 && 10 + d <= |s| && s[4 + d] == sep && s[5 + d..9 + d] == "data" && s[9 + d] == sep then
        var w := Run(s[10 + d..], IsWordChar);
        if w >= 13 && 10 + d + w < |s| && s[10 + d + w] == sep then Some(11 + d + w) else None
      else None
    else None
  }

  /** The scanner and the grammar agree; a match from a given position is unique. */
  lemma UnitRootLengthIff(s: string, sep: char, k: nat)
    requires IsPathSeparator(sep)
    ensures UnitRootLength(s, sep) == Some(k) <==> k <= |s| && IsUnitRoot(s[..k], sep)
  {
    if UnitRootLength(s, sep) == Some(k) {
      UnitRootLengthSound(s, sep);
    }
    if k <= |s| && IsUnitRoot(s[..k], sep) {
      var d := if UnitRootShape(s[..k], sep, 1) then 1 else 2;
      UnitRootLengthComplete(s, sep, k, d);
    }
  }

  lemma UnitRootLengthSound(s: string, sep: char)
    requires UnitRootLength(s, sep).Some?
    ensures IsUnitRoot(s[..UnitRootLength(s, sep).value], sep)
  {
    var d := Run(s[4..], IsDigit);
    var k := UnitRootLength(s, sep).value;
    var t := s[..k];
    assert t[..4] == s[..4];
    assert t[5 + d..9 + d] == s[5 + d..9 + d];
    RunCovers(s, 10 + d, IsWordChar);
    assert UnitRootShape(t, sep, d);
  }

  lemma UnitRootLengthComplete(s: string, sep: char, k: nat, d: nat)
    requires IsPathSeparator(sep)
    requires k <= |s| && UnitRootShape(s[..k], sep, d)
    ensures UnitRootLength(s, sep) == Some(k)
  {
    UnitHeadMatches(s, sep, k, d);
    UnitTailMatches(s, sep, k, d);
  }

  /** The "unit", digits, separator, "data", separator part of a unit root, read in `s`. */
  lemma UnitHeadMatches(s: string, sep: char, k: nat, d: nat)
    requires IsPathSeparator(sep)
    requires k <= |s| && UnitRootShape(s[..k], sep, d)
    ensures |s| >= 10 + d && s[..4] == "unit" && Run(s[4..], IsDigit) == d
    ensures s[4 + d] == sep && s[5 + d..9 + d] == "data" && s[9 + d] == sep
  {
    var t := s[..k];
    assert s[..4] == t[..4];
    assert IsDigit(s[4]) && (d == 2 ==> IsDigit(s[5]));
    assert s[4 + d] == t[4 + d];
    RunAt(s, 4, IsDigit, d);
    assert s[5 + d..9 + d] == t[5 + d..9 + d];
    assert s[9 + d] == t[9 + d];
  }

  /** The word run and the closing separator of a unit root, read in `s`. */
  lemma UnitTailMatches(s: string, sep: char, k: nat, d: nat)
    requires IsPathSeparator(sep)
    requires k <= |s| && UnitRootShape(s[..k], sep, d)
    ensures k >= 24 + d && Run(s[10 + d..], IsWordChar) == k - 11 - d && s[k - 1] == sep
  {
    var t := s[..k];
    assert s[k - 1] == t[k - 1];
    assert forall i :: 10 + d <= i < k - 1 ==> s[i] == t[i];
    RunAt(s, 10 + d, IsWordChar, k - 11 - d);
  }


  /** The unit pattern as a matcher for `Find`. */
  function UnitRootMatcher(sep: char): string -> Option<nat> {
    t => UnitRootLength(t, sep)
  }

  /** `calculateUnitRoot`: the unit root of the trimmed path. */
  function UnitRoot(path: string, sep: char): (root: string)
    requires IsPathSeparator(sep)
  {
    FirstUnitRoot(Trim(path), sep)
  }

  /** The leftmost unit-pattern match, with every '\' turned into '/'; "" when the pattern
      occurs nowhere. */
  function FirstUnitRoot(p: string, sep: char): (root: string)
    requires IsPathSeparator(sep)
    ensures root == [] || IsUnitRoot(root, '/')
    ensures NoneIn(root, {'\\'})
  {
    var found := Find(p, UnitRootMatcher(sep));
    if found.None? then [] else SlashedMatch(p, sep, found.value.0, found.value.1)
  }

  /** The match `p[i..i + k]` with every '\' turned into '/'. */
  function SlashedMatch(p: string, sep: char, i: nat, k: nat): (root: string)
    requires IsPathSeparator(sep) && i <= |p| && UnitRootLength(p[i..], sep) == Some(k)
    ensures IsUnitRoot(root, '/') && NoneIn(root, {'\\'})
  {
    UnitRootLengthSound(p[i..], sep);
    assert p[i..][..k] == p[i..i + k];
    SlashedRootKeepsShape(p[i..i + k], sep);
    ReplaceChar(p[i..i + k], '\\', '/')
  }

  /** Turning '\' into '/' keeps a unit root a unit root, now with '/' separators. */
  lemma SlashedRootKeepsShape(m: string, sep: char)
    requires IsPathSeparator(sep) && IsUnitRoot(m, sep)
    ensures IsUnitRoot(ReplaceChar(m, '\\', '/'), '/')
  {
    var d := if UnitRootShape(m, sep, 1) then 1 else 2;
    var root := ReplaceChar(m, '\\', '/');
    assert root[5 + d..9 + d] == m[5 + d..9 + d];
    assert root[..4] == m[..4];
    assert UnitRootShape(root, '/', d);
  }

  /** A unit root occupies `p[q..q + k]`. */
  predicate UnitRootAt(p: string, sep: char, q: int, k: int) {
    0 <= q && 0 <= k && q + k <= |p| && IsUnitRoot(p[q..q + k], sep)
  }

  /** The root is empty exactly when no part of the path is a unit root, and otherwise it
      is the leftmost one, with '/' separators. */
  lemma FirstUnitRootIsLeftmost(p: string, sep: char)
    requires IsPathSeparator(sep)
    ensures FirstUnitRoot(p, sep) == [] <==> forall q, k :: !UnitRootAt(p, sep, q, k)
    ensures FirstUnitRoot(p, sep) != [] ==>
              exists i, k :: UnitRootAt(p, sep, i, k)
                && FirstUnitRoot(p, sep) == ReplaceChar(p[i..i + k], '\\', '/')
                && forall q, k' :: q < i ==> !UnitRootAt(p, sep, q, k')
  {
    if Find(p, UnitRootMatcher(sep)).None? {
      NoUnitRootFound(p, sep);
    } else {
      var i, k := LeftmostUnitRootFound(p, sep);
    }
  }

  lemma NoUnitRootFound(p: string, sep: char)
    requires IsPathSeparator(sep) && Find(p, UnitRootMatcher(sep)).None?
    ensures FirstUnitRoot(p, sep) == []
    ensures forall q, k :: !UnitRootAt(p, sep, q, k)
  {
    FindFromIsLeftmost(p, UnitRootMatcher(sep), 0);
    forall q, k
      ensures !UnitRootAt(p, sep, q, k)
    {
      if 0 <= q <= |p| {
        assert NoMatchAt(p, UnitRootMatcher(sep), q);
        NoUnitRootAt(p, sep, q, k);
      }
    }
  }

  lemma LeftmostUnitRootFound(p: string, sep: char) returns (i: nat, k: nat)
    requires IsPathSeparator(sep) && Find(p, UnitRootMatcher(sep)).Some?
    ensures UnitRootAt(p, sep, i, k) && FirstUnitRoot(p, sep) == ReplaceChar(p[i..i + k], '\\', '/')
    ensures FirstUnitRoot(p, sep) != []
    ensures forall q, k' :: q < i ==> !UnitRootAt(p, sep, q, k')
  {
    i, k := Find(p, UnitRootMatcher(sep)).value.0, Find(p, UnitRootMatcher(sep)).value.1;
    FirstUnitRootFound(p, sep, i, k);
    NoUnitRootBefore(p, sep, i);
  }

  /** What `FirstUnitRoot` makes of the match `Find` reports. */
  lemma FirstUnitRootFound(p: string, sep: char, i: nat, k: nat)
    requires IsPathSeparator(sep) && Find(p, UnitRootMatcher(sep)) == Some((i, k))
    ensures UnitRootAt(p, sep, i, k) && FirstUnitRoot(p, sep) == ReplaceChar(p[i..i + k], '\\', '/')
  {
    FoundUnitRootAt(p, sep, i, k);
    assert FirstUnitRoot(p, sep) == SlashedMatch(p, sep, i, k);
  }

  lemma FoundUnitRootAt(p: string, sep: char, i: nat, k: nat)
    requires IsPathSeparator(sep) && i <= |p| && UnitRootLength(p[i..], sep) == Some(k)
    ensures UnitRootAt(p, sep, i, k)
  {
    UnitRootLengthSound(p[i..], sep);
    assert p[i..][..k] == p[i..i + k];
  }

  /** No unit root starts before the position `Find` reports. */
  lemma NoUnitRootBefore(p: string, sep: char, i: nat)
    requires IsPathSeparator(sep) && Find(p, UnitRootMatcher(sep)).Some?
    requires i == Find(p, UnitRootMatcher(sep)).value.0
    ensures forall q, k' :: q < i ==> !UnitRootAt(p, sep, q, k')
  {
    FindFromIsLeftmost(p, UnitRootMatcher(sep), 0);
    forall q, k' | q < i
      ensures !UnitRootAt(p, sep, q, k')
    {
      if 0 <= q {
        assert NoMatchAt(p, UnitRootMatcher(sep), q);
        NoUnitRootAt(p, sep, q, k');
      }
    }
  }

  lemma NoUnitRootAt(p: string, sep: char, q: int, k: int)
    requires IsPathSeparator(sep) && 0 <= q <= |p| && UnitRootLength(p[q..], sep).None?
    ensures !UnitRootAt(p, sep, q, k)
  {
    if 0 <= k && q + k <= |p| {
      UnitRootLengthIff(p[q..], sep, k);
      assert p[q..][..k] == p[q..q + k];
    }
  }

  /** Length of the `unit\d{1,3}` match at the front of `s`: greedy, so up to three digits. */
  function UnitNumberLength(s: string): (r: Option<nat>)
    ensures r.Some? ==> 5 <= r.value <= 7 && r.value <= |s|
  {
    if |s| >= 4 && s[..4] == "unit" then
      var d := Run(s[4..], IsDigit);
      if d >= 1 then Some(4 + if d < 3 then d else 3) else None
    else None
  }

  /** `extractUnitNumberFromUnitRoot`: the digits of the leftmost `unit\d{1,3}` match (its
      text with "unit" removed), or "00" when there is none. */
  function UnitNumber(root: string): (n: string)
    ensures 1 <= |n| <= 3
    ensures forall i :: 0 <= i < |n| ==> IsDigit(n[i])
  {
    match Find(root, UnitNumberLength)
    case None => UnknownUnitNumber
    case Some((i, k)) => root[i..][4..k]
  }

  /** `determineUnitNumber`: "Unit " followed by the unit number. The source trims the
      result; `StandardUnitLabelIsTrimmed` shows the trim changes nothing. */
  function StandardUnitLabel(root: string): (shown: string)
    ensures StartsWith(shown, UnitPrefix) && 6 <= |shown| <= 8
    ensures forall i :: |UnitPrefix| <= i < |shown| ==> IsDigit(shown[i])
  {
    UnitPrefix + UnitNumber(root)
  }

  /** The label starts with a letter and ends with a digit, so trimming leaves it alone. */
  lemma StandardUnitLabelIsTrimmed(root: string)
    ensures Trim(StandardUnitLabel(root)) == StandardUnitLabel(root)
  {
    var shown := StandardUnitLabel(root);
    assert shown[0] == 'U';
    assert IsDigit(shown[|shown| - 1]);
    TrimUntrimmed(shown);
  }

  /** The empty root, produced when the path holds no unit pattern, shows unit "00". */
  lemma StandardUnitLabelOfEmptyRoot()
    ensures StandardUnitLabel([]) == UnitPrefix + UnknownUnitNumber
  {
    UnitNumberOfEmptyRoot();
  }

  lemma UnitNumberOfEmptyRoot()
    ensures UnitNumber([]) == UnknownUnitNumber
  {
    assert Find([], UnitNumberLength).None?;
  }

  /** A root the standard rules produce shows its own one or two unit digits. */
  lemma StandardUnitLabelOfRoot(root: string, d: nat)
    requires UnitRootShape(root, '/', d)
    ensures StandardUnitLabel(root) == UnitPrefix + root[4..4 + d]
  {
    assert forall i :: 0 <= i < d ==> root[4..][i] == root[4 + i];
    assert root[4..][d] == '/';
    RunIs(root[4..], IsDigit, d);
    assert UnitNumberLength(root[0..]) == Some(4 + d) by { assert root[0..] == root; }
  }

  /** `createRelativeUrl`: nothing for an empty sound path, otherwise root then path. */
  function StandardSoundPath(root: string, sound: string): (url: string)
    ensures sound == [] ==> url == []
    ensures sound != [] ==> |url| == |root| + |sound| && EndsWith(url, sound) && StartsWith(url, root)
  {
    if sound == [] then [] else root + sound
  }

  // =======================================================================================
  // MARSOC rules

  /** `[A-Za-z_]`. */
  predicate IsLessonNameChar(c: char) {
    IsAsciiLetter(c) || c == '_'
  }

  /** `[A-Za-z]{5}_[A-Za-z]{5}_` at the front: the language-code pair. */
  predicate LanguagePairAtFront(s: string) {
    && |s| >= 12
    && (forall i :: 0 <= i < 5 ==> IsAsciiLetter(s[i])) && s[5] == '_'
    && (forall i :: 6 <= i < 11 ==> IsAsciiLetter(s[i])) && s[11] == '_'
  }

  /** The grammar of `[A-Za-z]{5}_[A-Za-z]{5}_\d{2,}_[A-Za-z_]*\.xml`, with `d` unit digits. */
  predicate B4XFileShape(t: string, d: nat) {
    && LanguagePairAtFront(t)
    && d >= 2 && |t| >= 17 + d
    && (forall i :: 12 <= i < 12 + d ==> IsDigit(t[i])) && t[12 + d] == '_'
    && (forall i :: 13 + d <= i < |t| - 4 ==> IsLessonNameChar(t[i]))
    && t[|t| - 4..] == ".xml"
  }

  predicate IsB4XFileName(t: string) {
    exists d :: 2 <= d <= |t| && B4XFileShape(t, d)
  }

  function B4XNameLength(s: string): (r: Option<nat>)
    ensures r.Some? ==> 19 <= r.value <= |s|
  {
    if LanguagePairAtFront(s) then
      var d := Run(s[12..], IsDigit);
      if d >= 2 && 12 + d < |s| && s[12 + d] == '_' then
        var w := Run(s[13 + d..], IsLessonNameChar);
        if 17 + d + w <= |s| && s[13 + d + w..17 + d + w] == ".xml" then Some(17 + d + w) else None
      else None
    else None
  }

  /** The scanner and the grammar agree; a match from a given position is unique. */
  lemma B4XNameLengthIff(s: string, k: nat)
    ensures B4XNameLength(s) == Some(k) <==> k <= |s| && IsB4XFileName(s[..k])
  {
    if B4XNameLength(s) == Some(k) {
      B4XNameLengthSound(s);
    }
    if k <= |s| && IsB4XFileName(s[..k]) {
      var d :| 2 <= d <= k && B4XFileShape(s[..k], d);
      B4XNameLengthComplete(s, k, d);
    }
  }

  lemma B4XNameLengthSound(s: string)
    requires B4XNameLength(s).Some?
    ensures IsB4XFileName(s[..B4XNameLength(s).value])
  {
    var k := B4XNameLength(s).value;
    var d := Run(s[12..], IsDigit);
    var t := s[..k];
    RunCovers(s, 12, IsDigit);
    RunCovers(s, 13 + d, IsLessonNameChar);
    assert t[k - 4..] == s[k - 4..k];
    assert B4XFileShape(t, d);
  }

  lemma B4XNameLengthComplete(s: string, k: nat, d: nat)
    requires k <= |s| && B4XFileShape(s[..k], d)
    ensures B4XNameLength(s) == Some(k)
  {
    B4XHeadMatches(s, k, d);
    B4XTailMatches(s, k, d);
    B4XNameLengthFromParts(s, d, k - 17 - d);
  }

  /** The language-code pair and the unit digits of a file name, read in `s`. */
  lemma B4XHeadMatches(s: string, k: nat, d: nat)
    requires k <= |s| && B4XFileShape(s[..k], d)
    ensures LanguagePairAtFront(s) && Run(s[12..], IsDigit) == d && s[12 + d] == '_'
  {
    var t := s[..k];
    assert forall i :: 0 <= i < 12 + d ==> s[i] == t[i];
    assert s[12 + d] == t[12 + d] == '_';
    RunAt(s, 12, IsDigit, d);
  }

  /** The lesson name and the ".xml" of a file name, read in `s`. */
  lemma B4XTailMatches(s: string, k: nat, d: nat)
    requires k <= |s| && B4XFileShape(s[..k], d)
    ensures k >= 17 + d && Run(s[13 + d..], IsLessonNameChar) == k - 17 - d && s[k - 4..k] == ".xml"
  {
    var t := s[..k];
    assert s[k - 4..k] == t[k - 4..];
    assert s[k - 4] == '.';
    assert forall i :: 13 + d <= i < k - 4 ==> s[i] == t[i];
    RunAt(s, 13 + d, IsLessonNameChar, k - 17 - d);
  }

  lemma B4XNameLengthFromParts(s: string, d: nat, w: nat)
    requires LanguagePairAtFront(s) && d >= 2 && 17 + d + w <= |s| && s[12 + d] == '_'
    requires Run(s[12..], IsDigit) == d && Run(s[13 + d..], IsLessonNameChar) == w
    requires s[13 + d + w..17 + d + w] == ".xml"
    ensures B4XNameLength(s) == Some(17 + d + w)
  {
  }

  /** `extractB4XName`: the file-name match in the trimmed path, or the fallback name. */
  function B4XName(path: string): (name: string) {
    FirstB4XName(Trim(path))
  }

  /** The leftmost file-name match without its ".xml", or the fallback name when the path
      holds none. */
  function FirstB4XName(p: string): (name: string)
    ensures name == FallbackB4XName || IsB4XFileName(name + ".xml")
  {
    match Find(p, B4XNameLength)
    case None => FallbackB4XName
    case Some((i, k)) =>
      B4XNameLengthSound(p[i..]);
      var m := p[i..][..k];
      assert m == m[..k - 4] + ".xml";
      m[..k - 4]
  }

  /** The lookbehind `(?<=_\d\d)` holds at position `i`. */
  predicate UnitDigitsEndAt(s: string, i: int) {
    3 <= i <= |s| && s[i - 3] == '_' && IsDigit(s[i - 2]) && IsDigit(s[i - 1])
  }

  /** The first position from `i` on where the lookbehind holds. */
  function FirstUnitDigitsEnd(s: string, i: nat): (r: Option<nat>)
    requires i <= |s|
    ensures r.Some? ==> i <= r.value <= |s| && UnitDigitsEndAt(s, r.value)
    ensures r.Some? ==> forall q :: i <= q < r.value ==> !UnitDigitsEndAt(s, q)
    ensures r.None? ==> forall q :: i <= q <= |s| ==> !UnitDigitsEndAt(s, q)
    decreases |s| - i
  {
    if UnitDigitsEndAt(s, i) then Some(i)
    else if i == |s| then None
    else FirstUnitDigitsEnd(s, i + 1)
  }

  /** `stripOffPartOfSpeechSuffix`: `replaceFirst("(?<=_\d\d).*", "")` removes what follows the
      first "_" and two digits, up to the end of that line. */
  function StripPartOfSpeechSuffix(s: string): (r: string)
    ensures FirstUnitDigitsEnd(s, 0).None? ==> r == s
    ensures FirstUnitDigitsEnd(s, 0).Some? ==> StartsWith(r, s[..FirstUnitDigitsEnd(s, 0).value])
    ensures NoneIn(s, LineTerminators) && FirstUnitDigitsEnd(s, 0).Some?
            ==> r == s[..FirstUnitDigitsEnd(s, 0).value]
  {
    match FirstUnitDigitsEnd(s, 0)
    case None => s
    case Some(i) =>
      var e := i + Run(s[i..], NotLineTerminator);
      assert NoneIn(s, LineTerminators) ==> e == |s| by {
        if NoneIn(s, LineTerminators) {
          RunIs(s[i..], NotLineTerminator, |s| - i);
        }
      }
      s[..i] + s[e..]
  }

  /** `extractUnitNumber`: after the suffix is cut, what follows the language-code pair, or
      "00" when the name does not start with one. */
  function MarsocUnitNumber(name: string): (n: string)
    ensures LanguagePairAtFront(StripPartOfSpeechSuffix(name)) ==> n == StripPartOfSpeechSuffix(name)[12..]
    ensures !LanguagePairAtFront(StripPartOfSpeechSuffix(name)) ==> n == UnknownUnitNumber
  {
    var stripped := StripPartOfSpeechSuffix(name);
    if LanguagePairAtFront(stripped) then stripped[12..] else UnknownUnitNumber
  }

  function MarsocUnitLabel(name: string): string {
    Trim(UnitPrefix + MarsocUnitNumber(name))
  }

  /** For a name that starts with the language-code pair and two digits, the unit label is
      those two digits: the suffix cut falls right after them, so no third digit survives. */
  lemma MarsocUnitLabelOfCodedName(name: string)
    requires LanguagePairAtFront(name) && |name| >= 14 && IsDigit(name[12]) && IsDigit(name[13])
    requires NoneIn(name, LineTerminators)
    ensures MarsocUnitLabel(name) == UnitPrefix + name[12..14]
  {
    SuffixCutAfterUnitDigits(name);
    assert MarsocUnitNumber(name) == name[12..14];
    TrimUntrimmed(UnitPrefix + name[12..14]);
  }

  /** The first "_dd" of such a name ends at position 14. */
  lemma SuffixCutAfterUnitDigits(name: string)
    requires LanguagePairAtFront(name) && |name| >= 14 && IsDigit(name[12]) && IsDigit(name[13])
    requires NoneIn(name, LineTerminators)
    ensures StripPartOfSpeechSuffix(name) == name[..14]
  {
    assert UnitDigitsEndAt(name, 14);
    forall q | 0 <= q < 14
      ensures !UnitDigitsEndAt(name, q)
    {
      if 3 <= q {
        assert q - 2 < 12 && q - 2 != 5 && q - 2 != 11 ==> !IsDigit(name[q - 2]);
      }
    }
    FirstFromZero(name, 14);
  }

  /** The first lookbehind position is the one the caller exhibits, when none lies before it. */
  lemma FirstFromZero(s: string, i: nat)
    requires i <= |s| && UnitDigitsEndAt(s, i)
    requires forall q :: 0 <= q < i ==> !UnitDigitsEndAt(s, q)
    ensures FirstUnitDigitsEnd(s, 0) == Some(i)
  {
  }

  /** `\A\w*_\d\d_` matches the first `k + 4` characters. */
  predicate LessonPrefix(s: string, k: int) {
    && 0 <= k && k + 4 <= |s|
    && (forall i :: 0 <= i < k ==> IsWordChar(s[i]))
    && s[k] == '_' && IsDigit(s[k + 1]) && IsDigit(s[k + 2]) && s[k + 3] == '_'
  }

  /** "_dd_" at `k`, searched for downwards from `hi`. */
  predicate LessonSeparatorAt(s: string, k: int) {
    0 <= k && k + 4 <= |s| && s[k] == '_' && IsDigit(s[k + 1]) && IsDigit(s[k + 2]) && s[k + 3] == '_'
  }

  function LastLessonSeparator(s: string, hi: int): (r: Option<nat>)
    ensures r.Some? ==> r.value <= hi && LessonSeparatorAt(s, r.value)
    ensures r.Some? ==> forall q :: r.value < q <= hi ==> !LessonSeparatorAt(s, q)
    ensures r.None? ==> forall q :: 0 <= q <= hi ==> !LessonSeparatorAt(s, q)
    decreases hi + 1
  {
    if hi < 0 then None
    else if LessonSeparatorAt(s, hi) then Some(hi)
    else LastLessonSeparator(s, hi - 1)
  }

  /** `stripOffLessonName`: the greedy `\w*` backs off to the last "_dd_" that lies wholly
      inside the leading run of word characters, and everything up to it goes. */
  function StripLessonName(s: string): (r: string)
    ensures (forall k :: !LessonPrefix(s, k)) ==> r == s
    ensures (exists k :: LessonPrefix(s, k)) ==>
              exists k :: LessonPrefix(s, k) && r == s[k + 4..] && forall k' :: k < k' ==> !LessonPrefix(s, k')
  {
    var w := Run(s, IsWordChar);
    LessonPrefixWithinRun(s, w);
    match LastLessonSeparator(s, w - 4)
    case None => s
    case Some(k) => s[k + 4..]
  }

  /** A lesson prefix is exactly a "_dd_" that ends inside the leading word run. */
  lemma LessonPrefixWithinRun(s: string, w: nat)
    requires w == Run(s, IsWordChar)
    ensures forall k :: LessonPrefix(s, k) <==> LessonSeparatorAt(s, k) && k <= w - 4
  {
    forall k | LessonSeparatorAt(s, k)
      ensures LessonPrefix(s, k) <==> k <= w - 4
    {
      if k + 4 > w {
        var i := if w < k then w else w;
        assert i < k || (k <= i < k + 4);
        assert !IsWordChar(s[w]);
      }
    }
  }

  /** `extractPartOfSpeech`: the lesson-name tail, with underscores shown as spaces. */
  function MarsocPartOfSpeech(name: string): (pos: string)
    ensures NoneIn(pos, {'_'})
  {
    ReplaceChar(StripLessonName(name), '_', ' ')
  }

  /** `buildSoundPath` of the MARSOC rules. */
  function MarsocSoundPath(name: string, sound: string): (url: string)
    ensures sound == [] ==> url == []
    ensures sound != [] ==> url == MarsocSoundRoot + name + "/" + sound
  {
    if sound == [] then [] else MarsocSoundRoot + name + "/" + sound
  }

  /** A bare coded name (the language-code pair and the unit digits, nothing after) holds no
      "_dd_" inside its leading word run. */
  lemma NoLessonPrefixInBareName(n: string)
    requires LanguagePairAtFront(n) && |n| <= 14
    ensures forall k :: !LessonPrefix(n, k)
  {
    forall k | 0 <= k && k + 4 <= |n|
      ensures !LessonPrefix(n, k)
    {
      if k == 5 {
        assert IsAsciiLetter(n[6]);
      } else {
        assert IsAsciiLetter(n[k]);
      }
    }
  }

  /** The fallback name yields unit 99 and shows itself, underscores as spaces, as the part
      of speech, because it has no "_dd_" followed by a lesson name. */
  lemma FallbackNameOutcome()
    ensures MarsocUnitLabel(FallbackB4XName) == UnitPrefix + "99"
    ensures StripLessonName(FallbackB4XName) == FallbackB4XName
    ensures MarsocPartOfSpeech(FallbackB4XName) == ReplaceChar(FallbackB4XName, '_', ' ')
  {
    FallbackNameUnit();
    FallbackNameLesson();
  }

  lemma FallbackNameUnit()
    ensures MarsocUnitLabel(FallbackB4XName) == UnitPrefix + "99"
  {
    var n := FallbackB4XName;
    assert LanguagePairAtFront(n);
    assert NoneIn(n, LineTerminators);
    Unit99(n);
  }

  /** A bare coded name ending in "99" is labelled unit 99. */
  lemma Unit99(n: string)
    requires LanguagePairAtFront(n) && |n| == 14 && n[12] == '9' && n[13] == '9'
    requires NoneIn(n, LineTerminators)
    ensures MarsocUnitLabel(n) == UnitPrefix + "99"
  {
    MarsocUnitLabelOfCodedName(n);
    assert n[12..14] == "99";
  }

  lemma FallbackNameLesson()
    ensures StripLessonName(FallbackB4XName) == FallbackB4XName
  {
    var n := FallbackB4XName;
    assert LanguagePairAtFront(n);
    NoLessonPrefixInBareName(n);
  }

  /** A name of the MARSOC scheme with a letters-only lesson name, such as
      `PORbr_ENGus_19_Verbs`: the part of speech is exactly the lesson name. */
  lemma LessonNameOfCodedName(n: string)
    requires LanguagePairAtFront(n) && |n| >= 15 && IsDigit(n[12]) && IsDigit(n[13]) && n[14] == '_'
    requires forall i :: 15 <= i < |n| ==> IsAsciiLetter(n[i])
    ensures StripLessonName(n) == n[15..]
    ensures MarsocPartOfSpeech(n) == n[15..]
  {
    assert LessonPrefix(n, 11) by {
      forall i | 0 <= i < 11
        ensures IsWordChar(n[i])
      {
        if i != 5 {
          assert IsAsciiLetter(n[i]);
        }
      }
    }
    forall k | 11 < k && k + 4 <= |n|
      ensures !LessonPrefix(n, k)
    {
      if k == 14 {
        assert IsAsciiLetter(n[15]);
      } else if k < 14 {
        assert IsDigit(n[k]);
      } else {
        assert IsAsciiLetter(n[k]);
      }
    }
    var tail := n[15..];
    assert forall i :: 0 <= i < |tail| ==> tail[i] == n[15 + i];
    assert ReplaceChar(tail, '_', ' ') == tail;
  }

  // =======================================================================================
  // Internal rules

  /** `buildSoundPath` of the internal rules: the standard path one directory up, trimmed. */
  function InternalSoundPath(root: string, sound: string): (url: string)
    ensures StandardSoundPath(root, sound) == [] ==> url == []
    ensures StandardSoundPath(root, sound) != [] ==> url == Trim(InternalSoundPrefix + StandardSoundPath(root, sound))
  {
    var base := StandardSoundPath(root, sound);
    if base == [] then [] else Trim(InternalSoundPrefix + base)
  }

  // =======================================================================================
  // The strategy in use

  /** The per-file strategy object, holding what its constructor computed from the path. */
  datatype Strategy =
    | Standard(root: string)
    | Marsoc(b4xName: string)
    | Internal(listName: string, root: string, partOfSpeechQuery: Option<string>, node: NodeRef)

  /** The reader's choice: the internal rules win over the MARSOC rules, which win over the
      standard ones. The internal strategy inherits the standard unit root. */
  function ChooseStrategy(applyInternal: bool, applyMarsoc: bool, listName: string, path: string,
                          sep: char, partOfSpeechQuery: Option<string>, node: NodeRef): (st: Strategy)
    requires IsPathSeparator(sep)
    ensures applyInternal <==> st.Internal?
    ensures st.Marsoc? <==> !applyInternal && applyMarsoc
    ensures st.Internal? ==> st.root == UnitRoot(path, sep) && st.listName == listName
    ensures st.Marsoc? ==> st.b4xName == B4XName(path)
    ensures st.Standard? ==> st.root == UnitRoot(path, sep)
  {
    if applyInternal then Internal(listName, UnitRoot(path, sep), partOfSpeechQuery, node)
    else if applyMarsoc then Marsoc(B4XName(path))
    else Standard(UnitRoot(path, sep))
  }

  /** `determineUnitNumber`: the internal rules show the list name itself. */
  function UnitLabel(st: Strategy): (shown: string)
    ensures st.Internal? ==> shown == st.listName
  {
    match st
    case Standard(root) => StandardUnitLabel(root)
    case Marsoc(name) => MarsocUnitLabel(name)
    case Internal(listName, _, _, _) => listName
  }

  /** `determinePartOfSpeech`. The internal rules evaluate their query on the node: a failing
      query gives "unclassified", an unset one is dereferenced and fails. */
  function PartOfSpeech(st: Strategy, xp: XPathView): (r: Result<string>)
    ensures st.Standard? ==> r == Ok(UncategorizedPartOfSpeech)
    ensures st.Marsoc? ==> r.Ok?
    ensures st.Internal? && st.partOfSpeechQuery.None? ==> r == Err(NullQuery)
    ensures st.Internal? && st.partOfSpeechQuery.Some? ==>
              r == Ok(match xp.stringIn(st.partOfSpeechQuery.value, st.node)
                      case None => UnclassifiedPartOfSpeech
                      case Some(v) => Trim(v))
  {
    match st
    case Standard(_) => Ok(UncategorizedPartOfSpeech)
    case Marsoc(name) => Ok(MarsocPartOfSpeech(name))
    case Internal(_, _, query, node) =>
      match query
      case None => Err(NullQuery)
      case Some(q) =>
        match xp.stringIn(q, node)
        case None => Ok(UnclassifiedPartOfSpeech)
        case Some(v) => Ok(Trim(v))
  }

  function SoundPath(st: Strategy, sound: string): (url: string)
    ensures sound == [] ==> url == []
  {
    match st
    case Standard(root) => StandardSoundPath(root, sound)
    case Marsoc(name) => MarsocSoundPath(name, sound)
    case Internal(_, root, _, _) => InternalSoundPath(root, sound)
  }
}
