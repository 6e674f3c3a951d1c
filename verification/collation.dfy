/** `CollatorData`: one language's collation profile. The configured strings (alphabet,
    stop words, letter groups, catch-all label, locale code or collation rules) are parsed
    into lists on demand, and each parse is cached until a caller asks for a rebuild. */
module Collation {
  import opened Results
  import opened Text
  import opened Foreign

  /** Locale code of a language that has no Java locale and must supply collation rules. */
  const NoJavaLocale: string := "_NA_"

  /** Catch-all bucket label used when none is configured. */
  const DefaultMiscBucketLabel: string := "*"

  /** Alphabet and stop-word strings are split on the regex " |\t". */
  const Blanks: set<char> := {' ', '\t'}

  /** Letter groups are separated by the regex "\\|". */
  const GroupSeparator: set<char> := {'|'}

  /** The configured strings of a profile; `None` is an unset (null) property. */
  datatype CollatorData = CollatorData(
    tplLanguageCode: Option<string>,
    javaLocaleCode: string,
    collationRules: Option<string>,
    stopWords: Option<string>,
    alphabet: Option<string>,
    letterGroups: Option<string>,
    miscBucketLabel: Option<string>)

  /** A profile as constructed, before any property is set. */
  function NewCollatorData(): (cd: CollatorData)
    ensures cd.javaLocaleCode == NoJavaLocale
    ensures cd.tplLanguageCode.None? && cd.collationRules.None? && cd.stopWords.None?
    ensures cd.alphabet.None? && cd.letterGroups.None? && cd.miscBucketLabel.None?
  {
    CollatorData(None, NoJavaLocale, None, None, None, None, None)
  }

  /** `CollatorDataHelper`: the profiles, keyed by language code. */
  type Profiles = map<string, CollatorData>

  /** `getCollatorData().get(code)`; a null code finds no profile. */
  function ProfileOf(profiles: Profiles, code: Option<string>): Option<CollatorData> {
    if code.Some? && code.value in profiles then Some(profiles[code.value]) else None
  }

  predicate HasJavaLocale(cd: CollatorData) {
    cd.javaLocaleCode != NoJavaLocale
  }

  /** `getMiscBucketLabel`: the configured label, or "*" when it is unset or empty. */
  function MiscBucketLabel(cd: CollatorData): (name: string)
    ensures name != []
    ensures cd.miscBucketLabel.Some? && cd.miscBucketLabel.value != [] ==> name == cd.miscBucketLabel.value
    ensures cd.miscBucketLabel.None? || cd.miscBucketLabel.value == [] ==> name == DefaultMiscBucketLabel
  {
    match cd.miscBucketLabel
    case Some(l) => if l == [] then DefaultMiscBucketLabel else l
    case None => DefaultMiscBucketLabel
  }

  /** Splits an optional blank-separated list; an unset string gives the empty list. */
  function SplitBlankList(s: Option<string>): (r: seq<string>)
    ensures s.None? ==> r == []
    ensures forall k :: 0 <= k < |r| ==> NoneIn(r[k], Blanks)
    ensures s.Some? ==> Concat(r) == RemoveChars(s.value, Blanks)
  {
    match s
    case None => []
    case Some(v) =>
      SplitProperties(v, Blanks);
      Split(v, Blanks)
  }

  /** `parseStopWordsData`. */
  function ParseStopWords(cd: CollatorData): seq<string> {
    SplitBlankList(cd.stopWords)
  }

  /** `parseAlphabet`. */
  function ParseAlphabet(cd: CollatorData): seq<string> {
    SplitBlankList(cd.alphabet)
  }

  /** The inner loop of `parseLetterGroups`: every raw group is split on blanks and its
      letters concatenated; a group that splits to nothing is dropped. */
  function CollapseGroups(raw: seq<string>): (groups: seq<string>)
    ensures |groups| <= |raw|
  {
    if raw == [] then []
    else
      var letters := Split(raw[0], Blanks);
      if letters == [] then CollapseGroups(raw[1..])
      else [Concat(letters)] + CollapseGroups(raw[1..])
  }

  /** `parseLetterGroups`. */
  function ParseLetterGroups(cd: CollatorData): seq<string> {
    match cd.letterGroups
    case None => []
    case Some(v) => CollapseGroups(Split(v, GroupSeparator))
  }

  /** A raw group that `parseLetterGroups` drops: non-empty and made only of blanks.
      (An empty raw group, as between "||", splits to [""] and is kept as "".) */
  predicate BlankOnly(g: string) {
    g != [] && RemoveChars(g, Blanks) == []
  }

  /** Reference definition: keep the raw groups that are not blank-only, minus their blanks. */
  function GroupsWithoutBlanks(raw: seq<string>): seq<string> {
    if raw == [] then []
    else if BlankOnly(raw[0]) then GroupsWithoutBlanks(raw[1..])
    else [RemoveChars(raw[0], Blanks)] + GroupsWithoutBlanks(raw[1..])
  }

  lemma {:induction false} CollapseGroupsIsReference(raw: seq<string>)
    ensures CollapseGroups(raw) == GroupsWithoutBlanks(raw)
  {
    if raw != [] {
      SplitProperties(raw[0], Blanks);
      CollapseGroupsIsReference(raw[1..]);
    }
  }

  /** Every parsed letter group is a configured group with its blanks removed, so it holds
      neither a blank nor a "|". */
  lemma LetterGroupsHaveNoSeparators(cd: CollatorData)
    ensures forall k :: 0 <= k < |ParseLetterGroups(cd)| ==>
              NoneIn(ParseLetterGroups(cd)[k], Blanks) && NoneIn(ParseLetterGroups(cd)[k], GroupSeparator)
  {
    if cd.letterGroups.Some? {
      var raw := Split(cd.letterGroups.value, GroupSeparator);
      SplitProperties(cd.letterGroups.value, GroupSeparator);
      CollapseGroupsIsReference(raw);
      ReferenceGroupsClean(raw);
    }
  }

  lemma ReferenceGroupsClean(raw: seq<string>)
    requires forall k :: 0 <= k < |raw| ==> NoneIn(raw[k], GroupSeparator)
    ensures forall k :: 0 <= k < |GroupsWithoutBlanks(raw)| ==>
              NoneIn(GroupsWithoutBlanks(raw)[k], Blanks) && NoneIn(GroupsWithoutBlanks(raw)[k], GroupSeparator)
  {
    if raw != [] {
      ReferenceGroupsClean(raw[1..]);
      RemoveCharsKeepsAbsence(raw[0], Blanks, GroupSeparator);
    }
  }

  lemma RemoveCharsKeepsAbsence(s: string, seps: set<char>, others: set<char>)
    requires NoneIn(s, others)
    ensures NoneIn(RemoveChars(s, seps), others)
  {
    if s != [] {
      RemoveCharsKeepsAbsence(s[1..], seps, others);
    }
  }

  /** `makeCollator`: rules for a language without a Java locale, the locale otherwise. */
  function MakeCollator(env: Env, cd: CollatorData): (r: Result<CollatorSpec>)
    ensures HasJavaLocale(cd) ==> r == Ok(LocaleBased(cd.javaLocaleCode))
    ensures !HasJavaLocale(cd) && cd.collationRules.None? ==> r == Err(MissingCollationRules)
    ensures !HasJavaLocale(cd) && cd.collationRules.Some? ==>
              (r.Ok? <==> env.rulesParse(cd.collationRules.value))
              && (r.Ok? ==> r.value == RuleBased(cd.collationRules.value))
              && (r.Err? ==> r.failure == InvalidCollationRules)
  {
    if !HasJavaLocale(cd) then
      match cd.collationRules
      case None => Err(MissingCollationRules)
      case Some(rules) => if env.rulesParse(rules) then Ok(RuleBased(rules)) else Err(InvalidCollationRules)
    else Ok(LocaleBased(cd.javaLocaleCode))
  }

  //---------------------------------------------------------------------------------
  // The caches. Setters change only the configured strings; a cached list survives them.

  datatype CachedProfile = CachedProfile(
    data: CollatorData,
    cachedCollator: Option<CollatorSpec>,
    cachedStopWords: Option<seq<string>>,
    cachedAlphabet: Option<seq<string>>,
    cachedLetterGroups: Option<seq<string>>)

  function Uncached(cd: CollatorData): CachedProfile {
    CachedProfile(cd, None, None, None, None)
  }

  /** Every cache slot is empty or holds what parsing the current strings gives. */
  predicate CachesCurrent(env: Env, p: CachedProfile) {
    && (p.cachedCollator.Some? ==> MakeCollator(env, p.data) == Ok(p.cachedCollator.value))
    && (p.cachedStopWords.Some? ==> p.cachedStopWords.value == ParseStopWords(p.data))
    && (p.cachedAlphabet.Some? ==> p.cachedAlphabet.value == ParseAlphabet(p.data))
    && (p.cachedLetterGroups.Some? ==> p.cachedLetterGroups.value == ParseLetterGroups(p.data))
  }

  /** `getAlphabet(rebuild)`: the cached list, unless nothing is cached yet or a rebuild is
      asked for. */
  function GetAlphabet(p: CachedProfile, rebuild: bool): (r: (seq<string>, CachedProfile))
    ensures r.1.cachedAlphabet == Some(r.0) && r.1.data == p.data
    ensures !rebuild && p.cachedAlphabet.Some? ==> r.0 == p.cachedAlphabet.value
    ensures rebuild || p.cachedAlphabet.None? ==> r.0 == ParseAlphabet(p.data)
  {
    if rebuild || p.cachedAlphabet.None? then
      var v := ParseAlphabet(p.data);
      (v, p.(cachedAlphabet := Some(v)))
    else (p.cachedAlphabet.value, p)
  }

  /** `getStopWords(rebuild)`. */
  function GetStopWords(p: CachedProfile, rebuild: bool): (r: (seq<string>, CachedProfile))
    ensures r.1.cachedStopWords == Some(r.0) && r.1.data == p.data
    ensures !rebuild && p.cachedStopWords.Some? ==> r.0 == p.cachedStopWords.value
    ensures rebuild || p.cachedStopWords.None? ==> r.0 == ParseStopWords(p.data)
  {
    if rebuild || p.cachedStopWords.None? then
      var v := ParseStopWords(p.data);
      (v, p.(cachedStopWords := Some(v)))
    else (p.cachedStopWords.value, p)
  }

  /** `getLetterGroups(rebuild)`. */
  function GetLetterGroups(p: CachedProfile, rebuild: bool): (r: (seq<string>, CachedProfile))
    ensures r.1.cachedLetterGroups == Some(r.0) && r.1.data == p.data
    ensures !rebuild && p.cachedLetterGroups.Some? ==> r.0 == p.cachedLetterGroups.value
    ensures rebuild || p.cachedLetterGroups.None? ==> r.0 == ParseLetterGroups(p.data)
  {
    if rebuild || p.cachedLetterGroups.None? then
      var v := ParseLetterGroups(p.data);
      (v, p.(cachedLetterGroups := Some(v)))
    else (p.cachedLetterGroups.value, p)
  }

  /** `getCollator(rebuild)`: a failed build throws and leaves the cache empty. */
  function GetCollator(env: Env, p: CachedProfile, rebuild: bool): (r: (Result<CollatorSpec>, CachedProfile))
    ensures r.1.data == p.data
    ensures !rebuild && p.cachedCollator.Some? ==> r.0 == Ok(p.cachedCollator.value) && r.1 == p
    ensures rebuild || p.cachedCollator.None? ==> r.0 == MakeCollator(env, p.data)
    ensures r.0.Ok? ==> r.1.cachedCollator == Some(r.0.value)
  {
    if rebuild || p.cachedCollator.None? then
      match MakeCollator(env, p.data)
      case Ok(c) => (Ok(c), p.(cachedCollator := Some(c)))
      case Err(e) => (Err(e), p)
    else (Ok(p.cachedCollator.value), p)
  }

  /** With current caches every getter answers exactly what parsing the strings gives,
      rebuild or not, and the caches stay current: caching is invisible. */
  lemma CachingIsTransparent(env: Env, p: CachedProfile, rebuild: bool)
    requires CachesCurrent(env, p)
    ensures GetAlphabet(p, rebuild).0 == ParseAlphabet(p.data) && CachesCurrent(env, GetAlphabet(p, rebuild).1)
    ensures GetStopWords(p, rebuild).0 == ParseStopWords(p.data) && CachesCurrent(env, GetStopWords(p, rebuild).1)
    ensures GetLetterGroups(p, rebuild).0 == ParseLetterGroups(p.data)
            && CachesCurrent(env, GetLetterGroups(p, rebuild).1)
    ensures GetCollator(env, p, rebuild).0 == MakeCollator(env, p.data)
            && CachesCurrent(env, GetCollator(env, p, rebuild).1)
  {
  }

  /** `setAlphabet` does not clear the cache: after a first `getAlphabet`, a later
      `getAlphabet(false)` still answers the list parsed from the old string. */
  lemma StaleAlphabetAfterSetter(p: CachedProfile, newAlphabet: string)
    requires p.cachedAlphabet.None?
    ensures var (first, q) := GetAlphabet(p, false);
            var q' := q.(data := q.data.(alphabet := Some(newAlphabet)));
            GetAlphabet(q', false).0 == first
            && GetAlphabet(q', true).0 == Split(newAlphabet, Blanks)
  {
  }
}
