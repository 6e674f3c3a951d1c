/** `GlossaryOutputWriter` without the file output: how sorted entries are bucketed by
    letter, how the buckets are ordered, and how each entry becomes a glossary word or
    phrase. Profile lists are read through the getters with current caches, so they are
    what parsing the profile's strings gives. */
module Output {
  import opened Results
  import opened Text
  import opened Foreign
  import opened Entries
  import opened Collation
  import opened Sorting
  import opened Processor

  /** The template language code whose entries all share one bucket. */
  const MandarinCode: string := "MANDARIN"
  /** The label of that bucket. */
  const MandarinLabel: string := " "

  /** `IntermediateLetterData`: equal when both the label and the flag are equal. */
  datatype LetterData = LetterData(letter: string, isMisc: bool)

  //---------------------------------------------------------------------------------
  // Choosing a bucket

  /** The first code point of the entry's primary sort field on the axis, as a string. An
      empty list or an empty first field has none to take. */
  function FirstCodePoint(o: SortObject, axis: Axis): (r: Result<string>)
    ensures r.Ok? <==> SortFields(o, axis) != [] && SortFields(o, axis)[0] != []
    ensures r.Ok? ==> |r.value| == 1 && r.value[0] == SortFields(o, axis)[0][0]
    ensures r.Err? ==> r.failure == EmptySortKey
  {
    var fields := SortFields(o, axis);
    if fields == [] || fields[0] == [] then Err(EmptySortKey) else Ok([fields[0][0]])
  }

  /** The key upper-cased in the profile's locale, or in the default one without a locale. */
  function UpperKey(env: Env, cd: CollatorData, key: string): string {
    if HasJavaLocale(cd) then env.upperIn(key, cd.javaLocaleCode) else env.upperDefault(key)
  }

  /** The first group from `from` on that contains the key, or the number of groups. */
  function FirstGroupWith(groups: seq<string>, key: string, from: nat): (i: nat)
    requires from <= |groups|
    ensures from <= i <= |groups|
    ensures forall k :: from <= k < i ==> !Contains(groups[k], key)
    ensures i < |groups| ==> Contains(groups[i], key)
    decreases |groups| - from
  {
    if from == |groups| || Contains(groups[from], key) then from
    else FirstGroupWith(groups, key, from + 1)
  }

  /** `alignWithLetterGroups`: the first character of the first group containing the key;
      the key itself when no group contains it. Taking the first character of an empty
      group fails. */
  function AlignWithLetterGroups(key: string, groups: seq<string>): (r: Result<string>)
    ensures (forall k :: 0 <= k < |groups| ==> !Contains(groups[k], key)) ==> r == Ok(key)
    ensures forall i :: 0 <= i < |groups| && Contains(groups[i], key)
                        && (forall k :: 0 <= k < i ==> !Contains(groups[k], key)) ==>
              r == if groups[i] == [] then Err(EmptyLetterGroup) else Ok([groups[i][0]])
  {
    var i := FirstGroupWith(groups, key, 0);
    if i == |groups| then Ok(key)
    else if groups[i] == [] then Err(EmptyLetterGroup)
    else Ok([groups[i][0]])
  }

  /** A key is only aliased to a group's first character, so it passes through when it is
      the first character of its group. */
  lemma GroupLeaderKeepsItsName(groups: seq<string>, i: nat)
    requires i < |groups| && groups[i] != []
    requires forall k :: 0 <= k < i ==> !Contains(groups[k], [groups[i][0]])
    ensures AlignWithLetterGroups([groups[i][0]], groups) == Ok([groups[i][0]])
  {
    assert Contains(groups[i], [groups[i][0]]) by {
      assert StartsWith(groups[i], [groups[i][0]]);
    }
  }

  /** `alignWithAlphabet`: with an empty alphabet every key is its own letter; otherwise a
      key no alphabet entry contains goes to the catch-all bucket. */
  function AlignWithAlphabet(key: string, alphabet: seq<string>, miscLabel: string): (r: LetterData)
    ensures alphabet == [] ==> r == LetterData(key, false)
    ensures r.isMisc <==> alphabet != [] && forall k :: 0 <= k < |alphabet| ==> !Contains(alphabet[k], key)
    ensures r.isMisc ==> r.letter == miscLabel
    ensures !r.isMisc ==> r.letter == key
  {
    if alphabet != [] && FirstGroupWith(alphabet, key, 0) == |alphabet| then LetterData(miscLabel, true)
    else LetterData(key, false)
  }

  /** Where `buildGlossaryMap` puts one entry: `None` for the Mandarin bucket, else the
      letter. A missing profile for the sort language is a null dereference. */
  function Route(env: Env, profiles: Profiles, axis: Axis, o: SortObject): (r: Result<Option<LetterData>>)
    ensures ProfileOf(profiles, LanguageCode(o, axis)).None? ==> r == Err(NoCollatorData(LanguageCode(o, axis)))
    ensures r == Ok(None) <==> ProfileOf(profiles, LanguageCode(o, axis)).Some?
                               && ProfileOf(profiles, LanguageCode(o, axis)).value.tplLanguageCode == Some(MandarinCode)
    ensures r.Ok? && r.value.Some? && r.value.value.isMisc ==>
              r.value.value.letter == MiscBucketLabel(ProfileOf(profiles, LanguageCode(o, axis)).value)
    ensures r.Ok? && r.value.Some? ==> FirstCodePoint(o, axis).Ok?
    ensures r.Ok? && r.value.Some? ==>
              var cd := ProfileOf(profiles, LanguageCode(o, axis)).value;
              var upper := UpperKey(env, cd, FirstCodePoint(o, axis).value);
              && AlignWithLetterGroups(upper, ParseLetterGroups(cd)).Ok?
              && r.value.value == AlignWithAlphabet(AlignWithLetterGroups(upper, ParseLetterGroups(cd)).value,
                                                    ParseAlphabet(cd), MiscBucketLabel(cd))
    ensures r.Ok? && r.value.Some? && !r.value.value.isMisc ==>
              var cd := ProfileOf(profiles, LanguageCode(o, axis)).value;
              && (ParseAlphabet(cd) != [] ==>
                    exists k :: 0 <= k < |ParseAlphabet(cd)| && Contains(ParseAlphabet(cd)[k], r.value.value.letter))
              && ((forall k :: 0 <= k < |ParseLetterGroups(cd)| ==>
                     !Contains(ParseLetterGroups(cd)[k], UpperKey(env, cd, FirstCodePoint(o, axis).value)))
                  ==> r.value.value.letter == UpperKey(env, cd, FirstCodePoint(o, axis).value))
    ensures (ProfileOf(profiles, LanguageCode(o, axis)).Some?
             && ProfileOf(profiles, LanguageCode(o, axis)).value.tplLanguageCode != Some(MandarinCode)
             && FirstCodePoint(o, axis).Err?) ==> r == Err(EmptySortKey)
  {
    match ProfileOf(profiles, LanguageCode(o, axis))
    case None => Err(NoCollatorData(LanguageCode(o, axis)))
    case Some(cd) =>
      if cd.tplLanguageCode == Some(MandarinCode) then Ok(None)
      else
        var key :- FirstCodePoint(o, axis);
        var grouped :- AlignWithLetterGroups(UpperKey(env, cd, key), ParseLetterGroups(cd));
        Ok(Some(AlignWithAlphabet(grouped, ParseAlphabet(cd), MiscBucketLabel(cd))))
  }

  //---------------------------------------------------------------------------------
  // Ordering the buckets

  /** `IntermediateLetterDataComparator`: ordinary letters before the catch-all, then by
      `String.compareTo` on the labels (its sign). */
  function LetterOrder(l: LetterData, r: LetterData): (c: int)
    ensures !l.isMisc && r.isMisc ==> c < 0
    ensures l.isMisc && !r.isMisc ==> c > 0
    ensures l.isMisc == r.isMisc ==> (c < 0 <==> LexLess(l.letter, r.letter)) && (c > 0 <==> LexLess(r.letter, l.letter))
  {
    LexLessAsymmetric(l.letter, r.letter);
    if !l.isMisc && r.isMisc then -1
    else if l.isMisc && !r.isMisc then 1
    else if LexLess(l.letter, r.letter) then -1
    else if LexLess(r.letter, l.letter) then 1
    else 0
  }

  function AnyLetter(l: LetterData): bool {
    true
  }

  lemma LetterOrderIsPreorder()
    ensures AntisymmetricOn(LetterOrder, AnyLetter)
    ensures TransitiveOn(LetterOrder, AnyLetter)
  {
    forall a, b ensures LetterOrder(a, b) == -LetterOrder(b, a) {
      LexLessAsymmetric(a.letter, b.letter);
    }
    forall a, b, c | LetterOrder(a, b) <= 0 && LetterOrder(b, c) <= 0 ensures LetterOrder(a, c) <= 0 {
      LetterOrderTransitive(a, b, c);
    }
  }

  lemma LetterOrderTransitive(a: LetterData, b: LetterData, c: LetterData)
    requires LetterOrder(a, b) <= 0 && LetterOrder(b, c) <= 0
    ensures LetterOrder(a, c) <= 0
  {
    if a.isMisc == b.isMisc == c.isMisc {
      LexLessTotal(a.letter, b.letter);
      LexLessTotal(b.letter, c.letter);
      if LexLess(c.letter, a.letter) {
        if a.letter == b.letter {
          LexLessAsymmetric(b.letter, c.letter);
        } else if b.letter == c.letter {
          LexLessAsymmetric(a.letter, b.letter);
        } else {
          LexLessTransitive(a.letter, b.letter, c.letter);
          LexLessAsymmetric(a.letter, c.letter);
        }
      }
    }
  }

  /** The letter comparator as the sort calls it: it never throws. */
  function LetterCompare(l: LetterData, r: LetterData): Result<int> {
    Ok(LetterOrder(l, r))
  }

  /** `glossaryLetterEntries.sort(...)`: the letters rearranged so that no letter is ordered
      after a later one. */
  function SortLetters(letters: seq<LetterData>): (r: seq<LetterData>)
    ensures TimSort(letters, LetterCompare) == Ok(r)
    ensures |r| == |letters| && multiset(r) == multiset(letters)
    ensures SortedBy(r, LetterOrder)
  {
    LetterOrderIsPreorder();
    assert AllOk(letters, AnyLetter);
    TimSortSorted(letters, LetterCompare, LetterOrder, AnyLetter);
    TimSort(letters, LetterCompare).value
  }

  /** The sorted letters: every ordinary letter comes before every catch-all letter, and
      within each kind the labels are in `compareTo` order. */
  lemma SortedLettersOrder(letters: seq<LetterData>, i: nat, j: nat)
    requires i < j < |letters|
    ensures var sorted := SortLetters(letters);
            && !(sorted[i].isMisc && !sorted[j].isMisc)
            && (sorted[i].isMisc == sorted[j].isMisc ==> !LexLess(sorted[j].letter, sorted[i].letter))
  {
    var sorted := SortLetters(letters);
    assert LetterOrder(sorted[i], sorted[j]) <= 0;
  }

  //---------------------------------------------------------------------------------
  // buildGlossaryMap

  /** The buckets being filled: the letters in order of first use, the entry lists keyed by
      label only, and the Mandarin entries. */
  datatype Buckets = Buckets(letters: seq<LetterData>, byLabel: map<string, seq<SortObject>>, mandarin: seq<SortObject>)

  /** `glossaryMap.get(label)`, with nothing for a label never put. */
  function Bucket(byLabel: map<string, seq<SortObject>>, name: string): seq<SortObject> {
    if name in byLabel then byLabel[name] else []
  }

  /** One step of the loop: a known letter (label and flag both equal) appends to the list
      under its label; a new letter puts a fresh list under its label, replacing whatever
      list another letter with that label had. */
  function AddEntry(b: Buckets, route: Option<LetterData>, o: SortObject): (r: Buckets)
    ensures route.None? ==> r == b.(mandarin := b.mandarin + [o])
    ensures route.Some? && route.value in b.letters ==>
              r.letters == b.letters && r.mandarin == b.mandarin
              && r.byLabel == b.byLabel[route.value.letter := Bucket(b.byLabel, route.value.letter) + [o]]
    ensures route.Some? && route.value !in b.letters ==>
              r.letters == b.letters + [route.value] && r.mandarin == b.mandarin
              && r.byLabel == b.byLabel[route.value.letter := [o]]
  {
    match route
    case None => b.(mandarin := b.mandarin + [o])
    case Some(ld) =>
      if ld in b.letters then b.(byLabel := b.byLabel[ld.letter := Bucket(b.byLabel, ld.letter) + [o]])
      else Buckets(b.letters + [ld], b.byLabel[ld.letter := [o]], b.mandarin)
  }

  /** Every entry's route, in order; the first entry that cannot be routed ends the loop. */
  function RouteAll(env: Env, profiles: Profiles, axis: Axis, objs: seq<SortObject>): (r: Result<seq<Option<LetterData>>>)
    ensures r.Ok? <==> forall i :: 0 <= i < |objs| ==> Route(env, profiles, axis, objs[i]).Ok?
    ensures r.Ok? ==> |r.value| == |objs| && forall i :: 0 <= i < |objs| ==> Route(env, profiles, axis, objs[i]) == Ok(r.value[i])
    ensures r.Err? ==> exists i :: 0 <= i < |objs| && Route(env, profiles, axis, objs[i]) == Err(r.failure)
  {
    var routes := seq(|objs|, i requires 0 <= i < |objs| => Route(env, profiles, axis, objs[i]));
    assert forall i :: 0 <= i < |objs| ==> routes[i] == Route(env, profiles, axis, objs[i]);
    var k := FirstErr(routes, 0);
    if k < |routes| then Err(routes[k].failure)
    else Ok(seq(|objs|, i requires 0 <= i < |objs| => routes[i].value))
  }

  /** The loop of `buildGlossaryMap` once every entry's route is known. */
  function Fill(routes: seq<Option<LetterData>>, objs: seq<SortObject>): (b: Buckets)
    requires |routes| == |objs|
    ensures Distinct(b.letters)
    decreases |objs|
  {
    if objs == [] then Buckets([], map[], [])
    else AddEntry(Fill(routes[..|routes| - 1], objs[..|objs| - 1]), routes[|routes| - 1], objs[|objs| - 1])
  }

  /** The entries routed to `target`, in input order. */
  function RoutedTo(routes: seq<Option<LetterData>>, objs: seq<SortObject>, target: Option<LetterData>): (r: seq<SortObject>)
    requires |routes| == |objs|
    ensures |r| <= |objs|
    decreases |objs|
  {
    if objs == [] then []
    else
      RoutedTo(routes[..|routes| - 1], objs[..|objs| - 1], target)
      + (if routes[|routes| - 1] == target then [objs[|objs| - 1]] else [])
  }

  lemma {:induction false} RoutedToNone(routes: seq<Option<LetterData>>, objs: seq<SortObject>, target: Option<LetterData>)
    requires |routes| == |objs|
    requires forall i :: 0 <= i < |routes| ==> routes[i] != target
    ensures RoutedTo(routes, objs, target) == []
    decreases |objs|
  {
    if objs != [] {
      RoutedToNone(routes[..|routes| - 1], objs[..|objs| - 1], target);
    }
  }

  /** Two entries routed to letters with the same label are routed to the same letter: the
      catch-all label is not also a real letter. */
  predicate NoLabelClash(routes: seq<Option<LetterData>>) {
    forall i, j :: (0 <= i < |routes| && 0 <= j < |routes| && routes[i].Some? && routes[j].Some?
                    && routes[i].value.letter == routes[j].value.letter) ==> routes[i] == routes[j]
  }

  /** What the loop builds: every used letter was routed to by some entry, every routed
      entry's letter is used, and each list holds exactly the entries routed to its letter. */
  predicate BucketsHold(routes: seq<Option<LetterData>>, objs: seq<SortObject>, b: Buckets)
    requires |routes| == |objs|
  {
    && b.mandarin == RoutedTo(routes, objs, None)
    && (forall m :: 0 <= m < |b.letters| ==>
          && (exists i :: 0 <= i < |routes| && routes[i] == Some(b.letters[m]))
          && Bucket(b.byLabel, b.letters[m].letter) == RoutedTo(routes, objs, Some(b.letters[m])))
    && (forall i :: 0 <= i < |routes| && routes[i].Some? ==> routes[i].value in b.letters)
  }

  /** Entries routed to letters with different labels never share a list. */
  lemma AddEntryKeepsBuckets(routes: seq<Option<LetterData>>, objs: seq<SortObject>, b: Buckets)
    requires |routes| == |objs| && objs != []
    requires NoLabelClash(routes)
    requires BucketsHold(routes[..|routes| - 1], objs[..|objs| - 1], b)
    ensures BucketsHold(routes, objs, AddEntry(b, routes[|routes| - 1], objs[|objs| - 1]))
  {
    var init := routes[..|routes| - 1];
    var initObjs := objs[..|objs| - 1];
    var route := routes[|routes| - 1];
    var x := objs[|objs| - 1];
    var nb := AddEntry(b, route, x);
    assert forall i :: 0 <= i < |init| ==> init[i] == routes[i];
    forall m | 0 <= m < |b.letters|
      ensures nb.letters[m] == b.letters[m]
      ensures exists i :: 0 <= i < |routes| && routes[i] == Some(b.letters[m])
      ensures Bucket(nb.byLabel, b.letters[m].letter) == RoutedTo(routes, objs, Some(b.letters[m]))
    {
      var ld := b.letters[m];
      var i :| 0 <= i < |init| && init[i] == Some(ld);
      assert routes[i] == Some(ld);
      if route.Some? {
        // the clash condition for entry i and the last one
        assert route.value.letter == ld.letter ==> route.value == ld;
      }
    }
    if route.Some? && route.value !in b.letters {
      var m := |b.letters|;
      assert nb.letters[m] == route.value;
      assert routes[|routes| - 1] == Some(nb.letters[m]);
      forall i | 0 <= i < |init| ensures init[i] != route {
        assert init[i].Some? ==> init[i].value in b.letters;
      }
      RoutedToNone(init, initObjs, route);
    }
    forall i | 0 <= i < |routes| && routes[i].Some?
      ensures routes[i].value in nb.letters
    {
      if i < |init| {
        assert init[i].value in b.letters;
      }
    }
  }

  lemma {:induction false} FillHolds(routes: seq<Option<LetterData>>, objs: seq<SortObject>)
    requires |routes| == |objs|
    requires NoLabelClash(routes)
    ensures BucketsHold(routes, objs, Fill(routes, objs))
    decreases |objs|
  {
    if objs != [] {
      var init := routes[..|routes| - 1];
      assert forall i :: 0 <= i < |init| ==> init[i] == routes[i];
      FillHolds(init, objs[..|objs| - 1]);
      AddEntryKeepsBuckets(routes, objs, Fill(init, objs[..|objs| - 1]));
    }
  }

  /** The map as built: the letters (Mandarin letter last if any) and the label-keyed lists. */
  datatype GlossaryMap = GlossaryMap(letters: seq<LetterData>, buckets: map<string, seq<SortObject>>)

  /** A non-empty Mandarin collection is put under its label, replacing any list there, and
      its letter is added. */
  function WithMandarin(b: Buckets): GlossaryMap {
    if b.mandarin == [] then GlossaryMap(b.letters, b.byLabel)
    else GlossaryMap(b.letters + [LetterData(MandarinLabel, false)], b.byLabel[MandarinLabel := b.mandarin])
  }

  /** `buildGlossaryMap`: route every entry, fill the buckets, add the Mandarin bucket, then
      sort the letters. */
  function BuildGlossaryMap(env: Env, profiles: Profiles, axis: Axis, objs: seq<SortObject>): (r: Result<GlossaryMap>)
    ensures r.Ok? <==> forall i :: 0 <= i < |objs| ==> Route(env, profiles, axis, objs[i]).Ok?
    ensures r.Err? ==> exists i :: 0 <= i < |objs| && Route(env, profiles, axis, objs[i]) == Err(r.failure)
    ensures r.Ok? ==> var unsorted := WithMandarin(Fill(RouteAll(env, profiles, axis, objs).value, objs));
                      multiset(r.value.letters) == multiset(unsorted.letters) && r.value.buckets == unsorted.buckets
  {
    var routes :- RouteAll(env, profiles, axis, objs);
    var gm := WithMandarin(Fill(routes, objs));
    Ok(GlossaryMap(SortLetters(gm.letters), gm.buckets))
  }

  /** The final letter order: ordinary letters before catch-all ones, each kind in
      `compareTo` order of the labels. */
  lemma BuildGlossaryMapOrder(env: Env, profiles: Profiles, axis: Axis, objs: seq<SortObject>, i: nat, j: nat)
    requires BuildGlossaryMap(env, profiles, axis, objs).Ok?
    requires i < j < |BuildGlossaryMap(env, profiles, axis, objs).value.letters|
    ensures var letters := BuildGlossaryMap(env, profiles, axis, objs).value.letters;
            && !(letters[i].isMisc && !letters[j].isMisc)
            && (letters[i].isMisc == letters[j].isMisc ==> !LexLess(letters[j].letter, letters[i].letter))
  {
    var routes := RouteAll(env, profiles, axis, objs).value;
    SortedLettersOrder(WithMandarin(Fill(routes, objs)).letters, i, j);
  }

  /** The bucket an entry with this route belongs to. */
  function Target(route: Option<LetterData>): LetterData {
    match route
    case None => LetterData(MandarinLabel, false)
    case Some(ld) => ld
  }

  /** The route whose entries a letter's list holds, when no letter is labelled like the
      Mandarin bucket. */
  function Source(ld: LetterData): Option<LetterData> {
    if ld == LetterData(MandarinLabel, false) then None else Some(ld)
  }

  /** The assumptions under which no entry is lost: labels identify letters, and no
      ordinary letter is labelled like the Mandarin bucket. */
  predicate ClashFree(routes: seq<Option<LetterData>>) {
    && NoLabelClash(routes)
    && forall i :: 0 <= i < |routes| && routes[i].Some? ==> routes[i].value.letter != MandarinLabel
  }

  function Label(ld: LetterData): string {
    ld.letter
  }

  /** Every entry lands in exactly one bucket: its letter is present, no other letter has the
      same label, and each letter's list holds exactly the entries routed to it, in input
      order. */
  predicate Partitions(routes: seq<Option<LetterData>>, objs: seq<SortObject>, gm: GlossaryMap)
    requires |routes| == |objs|
  {
    && (forall p, q :: 0 <= p < q < |gm.letters| ==> Label(gm.letters[p]) != Label(gm.letters[q]))
    && (forall m :: 0 <= m < |gm.letters| ==>
          Bucket(gm.buckets, gm.letters[m].letter) == RoutedTo(routes, objs, Source(gm.letters[m])))
    && (forall i :: 0 <= i < |objs| ==> Target(routes[i]) in gm.letters && Source(Target(routes[i])) == routes[i])
  }

  /** Distinct labels among the letters the loop collects, given clash-free routes. */
  lemma FilledLabelsDistinct(routes: seq<Option<LetterData>>, objs: seq<SortObject>)
    requires |routes| == |objs| && ClashFree(routes)
    ensures var b := Fill(routes, objs);
            && (forall m :: 0 <= m < |b.letters| ==> b.letters[m].letter != MandarinLabel)
            && (forall p, q :: 0 <= p < q < |b.letters| ==> Label(b.letters[p]) != Label(b.letters[q]))
  {
    var b := Fill(routes, objs);
    FillHolds(routes, objs);
    forall p, q | 0 <= p < q < |b.letters| ensures Label(b.letters[p]) != Label(b.letters[q]) {
      var i :| 0 <= i < |routes| && routes[i] == Some(b.letters[p]);
      var j :| 0 <= j < |routes| && routes[j] == Some(b.letters[q]);
    }
    forall m | 0 <= m < |b.letters| ensures b.letters[m].letter != MandarinLabel {
      var i :| 0 <= i < |routes| && routes[i] == Some(b.letters[m]);
    }
  }

  /** Before the letters are sorted, clash-free routes partition the entries. */
  lemma UnsortedPartitions(routes: seq<Option<LetterData>>, objs: seq<SortObject>)
    requires |routes| == |objs| && ClashFree(routes)
    ensures Partitions(routes, objs, WithMandarin(Fill(routes, objs)))
  {
    var gm := WithMandarin(Fill(routes, objs));
    UnsortedLabelsDistinct(routes, objs);
    UnsortedBuckets(routes, objs);
    UnsortedTargets(routes, objs);
    assert Partitions(routes, objs, gm);
  }

  /** The unsorted letters have pairwise different labels. */
  lemma UnsortedLabelsDistinct(routes: seq<Option<LetterData>>, objs: seq<SortObject>)
    requires |routes| == |objs| && ClashFree(routes)
    ensures var gm := WithMandarin(Fill(routes, objs));
            forall p, q :: 0 <= p < q < |gm.letters| ==> Label(gm.letters[p]) != Label(gm.letters[q])
  {
    FilledLabelsDistinct(routes, objs);
  }

  /** Each list of the unsorted map holds the entries routed to its letter. */
  lemma UnsortedBuckets(routes: seq<Option<LetterData>>, objs: seq<SortObject>)
    requires |routes| == |objs| && ClashFree(routes)
    ensures var gm := WithMandarin(Fill(routes, objs));
            forall m :: 0 <= m < |gm.letters| ==>
              Bucket(gm.buckets, gm.letters[m].letter) == RoutedTo(routes, objs, Source(gm.letters[m]))
  {
    var b := Fill(routes, objs);
    FillHolds(routes, objs);
    FilledLabelsDistinct(routes, objs);
    var gm := WithMandarin(b);
    forall m | 0 <= m < |gm.letters|
      ensures Bucket(gm.buckets, gm.letters[m].letter) == RoutedTo(routes, objs, Source(gm.letters[m]))
    {
      if m < |b.letters| {
        assert gm.letters[m] == b.letters[m];
        assert Source(b.letters[m]) == Some(b.letters[m]);
        assert Bucket(gm.buckets, b.letters[m].letter) == Bucket(b.byLabel, b.letters[m].letter);
      } else {
        assert gm.letters[m] == LetterData(MandarinLabel, false);
      }
    }
  }

  /** Each entry's target letter is among the unsorted letters. */
  lemma UnsortedTargets(routes: seq<Option<LetterData>>, objs: seq<SortObject>)
    requires |routes| == |objs| && ClashFree(routes)
    ensures var gm := WithMandarin(Fill(routes, objs));
            forall i :: 0 <= i < |objs| ==> Target(routes[i]) in gm.letters && Source(Target(routes[i])) == routes[i]
  {
    var b := Fill(routes, objs);
    FillHolds(routes, objs);
    var gm := WithMandarin(b);
    forall i | 0 <= i < |objs| ensures Target(routes[i]) in gm.letters && Source(Target(routes[i])) == routes[i] {
      if routes[i].None? {
        RoutedToIncludes(routes, objs, i);
        assert b.mandarin != [];
        assert Target(routes[i]) == gm.letters[|gm.letters| - 1];
      } else {
        assert routes[i].value in b.letters;
        assert routes[i].value.letter != MandarinLabel;
      }
    }
  }

  /** Reordering the letters keeps the partition. */
  lemma ReorderedPartitions(routes: seq<Option<LetterData>>, objs: seq<SortObject>, gm: GlossaryMap, letters: seq<LetterData>)
    requires |routes| == |objs| && Partitions(routes, objs, gm)
    requires multiset(letters) == multiset(gm.letters)
    ensures Partitions(routes, objs, GlossaryMap(letters, gm.buckets))
  {
    PermutationKeepsDistinctKeys(gm.letters, letters, Label);
    forall m | 0 <= m < |letters|
      ensures Bucket(gm.buckets, letters[m].letter) == RoutedTo(routes, objs, Source(letters[m]))
    {
      assert letters[m] in multiset(gm.letters);
      var k :| 0 <= k < |gm.letters| && gm.letters[k] == letters[m];
    }
    forall i | 0 <= i < |objs| ensures Target(routes[i]) in letters {
      assert Target(routes[i]) in multiset(gm.letters);
    }
  }

  /** With clash-free routes, the glossary map partitions the entries. */
  lemma BucketsPartitionEntries(env: Env, profiles: Profiles, axis: Axis, objs: seq<SortObject>)
    requires BuildGlossaryMap(env, profiles, axis, objs).Ok?
    requires ClashFree(RouteAll(env, profiles, axis, objs).value)
    ensures Partitions(RouteAll(env, profiles, axis, objs).value, objs, BuildGlossaryMap(env, profiles, axis, objs).value)
  {
    var routes := RouteAll(env, profiles, axis, objs).value;
    UnsortedPartitions(routes, objs);
    var gm := BuildGlossaryMap(env, profiles, axis, objs).value;
    ReorderedPartitions(routes, objs, WithMandarin(Fill(routes, objs)), gm.letters);
  }

  /** An entry is in the list of the route it has. */
  lemma {:induction false} RoutedToIncludes(routes: seq<Option<LetterData>>, objs: seq<SortObject>, i: nat)
    requires |routes| == |objs| && i < |objs|
    ensures objs[i] in RoutedTo(routes, objs, routes[i])
    decreases |objs|
  {
    if i < |objs| - 1 {
      RoutedToIncludes(routes[..|routes| - 1], objs[..|objs| - 1], i);
    }
  }

  /** A misc label equal to a real letter's label shares its map key: the later letter's
      first entry replaces the list, so an earlier entry is lost from both letters. */
  lemma LabelClashLosesEntries(a: SortObject, b: SortObject)
    ensures var routes := [Some(LetterData("A", false)), Some(LetterData("A", true))];
            var gm := WithMandarin(Fill(routes, [a, b]));
            && gm.letters == [LetterData("A", false), LetterData("A", true)]
            && Bucket(gm.buckets, "A") == [b]
  {
    var first, second := LetterData("A", false), LetterData("A", true);
    var routes := [Some(first), Some(second)];
    assert routes[..1] == [Some(first)] && [a, b][..1] == [a];
    assert [Some(first)][..0] == [] && [a][..0] == [];
    var b0 := Fill([], []);
    var b1 := Fill([Some(first)], [a]);
    assert b1 == AddEntry(b0, Some(first), a);
    assert b1.letters == [first] && b1.mandarin == [];
    assert second !in b1.letters;
    var b2 := Fill(routes, [a, b]);
    assert b2 == AddEntry(b1, Some(second), b);
    assert b2.byLabel == b1.byLabel["A" := [b]];
  }

  //---------------------------------------------------------------------------------
  // The glossary document

  /** `GlossaryEntryBase` as filled for a word or a phrase. The key and translation texts
      are null in the source when the include map lacks the field. */
  datatype GlossaryEntry = GlossaryEntry(
    languageCodeL1: Option<string>,
    languageCodeL2: Option<string>,
    sideOneSoundFile: Option<string>,
    sideTwoSoundFile: Option<string>,
    referencedBy: Option<string>,
    partOfSpeech: Option<string>,
    key: Option<string>,
    keyLanguage: Option<string>,
    translation: Option<string>,
    translationLanguage: Option<string>,
    annotations: map<string, string>)

  datatype GlossaryLetter = GlossaryLetter(name: string, isMisc: bool, words: seq<GlossaryEntry>, phrases: seq<GlossaryEntry>)

  datatype Glossary = Glossary(languageCode: Option<string>, version: Option<string>, letters: seq<GlossaryLetter>)

  /** The writer's settings: the axis it sorts on and the include fields holding the key and
      the translation. */
  datatype WriterConfig = WriterConfig(axis: Axis, keyField: string, translationField: string)

  /** Whether an include field becomes an annotation: neither key nor translation, and not
      blank. */
  predicate IsAnnotation(cfg: WriterConfig, o: SortObject, name: string) {
    name in o.fieldsToInclude && name != cfg.keyField && name != cfg.translationField
    && !AllTrimmable(o.fieldsToInclude[name])
  }

  /** `fillInGlossaryEntry`. */
  function FillEntry(cfg: WriterConfig, o: SortObject): (e: GlossaryEntry)
    ensures e.keyLanguage == LanguageCode(o, cfg.axis) && e.translationLanguage == LanguageCode(o, cfg.axis.Other())
    ensures e.key.Some? <==> cfg.keyField in o.fieldsToInclude
    ensures e.translation.Some? <==> cfg.translationField in o.fieldsToInclude
    ensures e.annotations.Keys <= o.fieldsToInclude.Keys
  {
    GlossaryEntry(
      o.languageCodeL1, o.languageCodeL2, o.sideOneSoundFile, o.sideTwoSoundFile, o.referencedBy, o.partOfSpeech,
      IncludedField(o, cfg.keyField), LanguageCode(o, cfg.axis),
      IncludedField(o, cfg.translationField), LanguageCode(o, cfg.axis.Other()),
      map name | name in o.fieldsToInclude && IsAnnotation(cfg, o, name) :: o.fieldsToInclude[name])
  }

  /** Every include field whose trimmed value is not empty shows up in the entry: as its key,
      its translation or an annotation under its own name, with its text unchanged; a field
      that trims to nothing is never an annotation. */
  lemma FillEntryKeepsFields(cfg: WriterConfig, o: SortObject, name: string)
    requires name in o.fieldsToInclude
    ensures var e := FillEntry(cfg, o);
            var v := o.fieldsToInclude[name];
            && (name == cfg.keyField ==> e.key == Some(v))
            && (name == cfg.translationField ==> e.translation == Some(v))
            && (name in e.annotations <==> (name != cfg.keyField && name != cfg.translationField && Trim(v) != []))
            && (name in e.annotations ==> e.annotations[name] == v)
  {
    TrimEmptyIff(o.fieldsToInclude[name]);
  }

  /** The entries made from a list, in order. */
  function FillAll(cfg: WriterConfig, objs: seq<SortObject>): (r: seq<GlossaryEntry>)
    ensures |r| == |objs|
    ensures forall i :: 0 <= i < |objs| ==> r[i] == FillEntry(cfg, objs[i])
  {
    seq(|objs|, i requires 0 <= i < |objs| => FillEntry(cfg, objs[i]))
  }

  /** One letter of the document: its entries taken in list order, each appended to the
      phrases or to the words. */
  function FillLetter(cfg: WriterConfig, ld: LetterData, bucket: seq<SortObject>): (l: GlossaryLetter)
    ensures l.name == ld.letter && l.isMisc == ld.isMisc
    ensures |l.words| + |l.phrases| == |bucket|
    decreases |bucket|
  {
    if bucket == [] then GlossaryLetter(ld.letter, ld.isMisc, [], [])
    else
      var l := FillLetter(cfg, ld, bucket[..|bucket| - 1]);
      var o := bucket[|bucket| - 1];
      if o.isPhrase then l.(phrases := l.phrases + [FillEntry(cfg, o)])
      else l.(words := l.words + [FillEntry(cfg, o)])
  }

  /** The entries of a letter with the given phrase flag. */
  function EntriesWithFlag(l: GlossaryLetter, flag: bool): seq<GlossaryEntry> {
    if flag then l.phrases else l.words
  }

  /** The words are the non-phrases and the phrases the phrases, each in list order. */
  lemma {:induction false} FillLetterSplits(cfg: WriterConfig, ld: LetterData, bucket: seq<SortObject>, flag: bool)
    ensures EntriesWithFlag(FillLetter(cfg, ld, bucket), flag) == FillAll(cfg, WithFlag(bucket, flag))
    decreases |bucket|
  {
    if bucket != [] {
      var init := bucket[..|bucket| - 1];
      var o := bucket[|bucket| - 1];
      FillLetterSplits(cfg, ld, init, flag);
      assert bucket == init + [o];
      WithFlagAppend(init, [o], flag);
      assert [o][1..] == [];
      var before := FillAll(cfg, WithFlag(init, flag));
      if o.isPhrase == flag {
        assert WithFlag(bucket, flag) == WithFlag(init, flag) + [o];
        assert FillAll(cfg, WithFlag(bucket, flag)) == before + [FillEntry(cfg, o)];
      } else {
        assert WithFlag(bucket, flag) == WithFlag(init, flag);
      }
    }
  }

  /** An entry of the list is written into the letter, among the phrases or the words as
      its flag says. */
  lemma FilledEntryListed(cfg: WriterConfig, ld: LetterData, bucket: seq<SortObject>, o: SortObject)
    requires o in bucket
    ensures FillEntry(cfg, o) in EntriesWithFlag(FillLetter(cfg, ld, bucket), o.isPhrase)
  {
    FillLetterSplits(cfg, ld, bucket, o.isPhrase);
    WithFlagKeeps(bucket, o);
    var sub := WithFlag(bucket, o.isPhrase);
    var k :| 0 <= k < |sub| && sub[k] == o;
    assert FillAll(cfg, sub)[k] == FillEntry(cfg, o);
  }

  /** `fillInGlossaryWithContent`: one letter per map letter, in the map's order, holding
      that letter's list. */
  function FillInGlossaryWithContent(env: Env, profiles: Profiles, cfg: WriterConfig, sorted: seq<SortObject>): (r: Result<seq<GlossaryLetter>>)
    ensures r.Ok? <==> forall i :: 0 <= i < |sorted| ==> Route(env, profiles, cfg.axis, sorted[i]).Ok?
    ensures r.Err? ==> exists i :: 0 <= i < |sorted| && Route(env, profiles, cfg.axis, sorted[i]) == Err(r.failure)
    ensures r.Ok? ==> var gm := BuildGlossaryMap(env, profiles, cfg.axis, sorted).value;
                      && |r.value| == |gm.letters|
                      && forall m :: 0 <= m < |gm.letters| ==>
                           && r.value[m].name == gm.letters[m].letter && r.value[m].isMisc == gm.letters[m].isMisc
                           && |r.value[m].words| + |r.value[m].phrases| == |Bucket(gm.buckets, gm.letters[m].letter)|
  {
    var gm :- BuildGlossaryMap(env, profiles, cfg.axis, sorted);
    Ok(seq(|gm.letters|, m requires 0 <= m < |gm.letters| => FillLetter(cfg, gm.letters[m], Bucket(gm.buckets, gm.letters[m].letter))))
  }

  /** With clash-free routes every entry is written exactly where its route says: under the
      letter of its bucket, among the phrases or the words as its flag says. */
  lemma EveryEntryWritten(env: Env, profiles: Profiles, cfg: WriterConfig, sorted: seq<SortObject>, i: nat)
    requires FillInGlossaryWithContent(env, profiles, cfg, sorted).Ok?
    requires ClashFree(RouteAll(env, profiles, cfg.axis, sorted).value)
    requires i < |sorted|
    ensures Written(cfg, FillInGlossaryWithContent(env, profiles, cfg, sorted).value,
                    Target(RouteAll(env, profiles, cfg.axis, sorted).value[i]), sorted[i])
  {
    var routes := RouteAll(env, profiles, cfg.axis, sorted).value;
    var gm := BuildGlossaryMap(env, profiles, cfg.axis, sorted).value;
    BucketsPartitionEntries(env, profiles, cfg.axis, sorted);
    var m := InItsBucket(routes, sorted, gm, i);
    var target := gm.letters[m];
    var bucket := Bucket(gm.buckets, target.letter);
    FilledEntryListed(cfg, target, bucket, sorted[i]);
    GlossaryLetterAt(env, profiles, cfg, sorted, m);
  }

  /** The entry made from `o` is among the phrases or words, as its flag says, of a letter
      with the name and flag of `target`. */
  predicate Written(cfg: WriterConfig, letters: seq<GlossaryLetter>, target: LetterData, o: SortObject) {
    exists m :: 0 <= m < |letters| && letters[m].name == target.letter && letters[m].isMisc == target.isMisc
                && FillEntry(cfg, o) in EntriesWithFlag(letters[m], o.isPhrase)
  }

  /** Where a partition puts an entry: at the position of its target letter, in that
      letter's list. */
  lemma InItsBucket(routes: seq<Option<LetterData>>, objs: seq<SortObject>, gm: GlossaryMap, i: nat) returns (m: nat)
    requires |routes| == |objs| && Partitions(routes, objs, gm) && i < |objs|
    ensures m < |gm.letters| && gm.letters[m] == Target(routes[i])
    ensures objs[i] in Bucket(gm.buckets, gm.letters[m].letter)
  {
    m :| 0 <= m < |gm.letters| && gm.letters[m] == Target(routes[i]);
    RoutedToIncludes(routes, objs, i);
  }

  /** The letter at a position of the document is the map's letter there, filled from its
      list. */
  lemma GlossaryLetterAt(env: Env, profiles: Profiles, cfg: WriterConfig, sorted: seq<SortObject>, m: nat)
    requires FillInGlossaryWithContent(env, profiles, cfg, sorted).Ok?
    requires m < |BuildGlossaryMap(env, profiles, cfg.axis, sorted).value.letters|
    ensures var gm := BuildGlossaryMap(env, profiles, cfg.axis, sorted).value;
            var letters := FillInGlossaryWithContent(env, profiles, cfg, sorted).value;
            m < |letters| && letters[m] == FillLetter(cfg, gm.letters[m], Bucket(gm.buckets, gm.letters[m].letter))
  {
  }

  //---------------------------------------------------------------------------------
  // dumpGlossaryToCsv

  /** `String.equalsIgnoreCase` on one character `c` against `u`: equal, equal once both are
      upper-cased, or equal once both are upper-cased and then lower-cased. Against an ASCII
      capital that admits its small letter, and also dotted and dotless I for 'I' and the
      long s for 'S', the only other characters the Unicode case tables map there. */
  predicate MatchesIgnoringCase(c: char, u: char) {
    || c == u
    || ('A' <= u <= 'Z' && c as int == u as int + 32)
    || (u == 'I' && (c == '\U{0130}' || c == '\U{0131}'))
    || (u == 'S' && c == '\U{017F}')
  }

  const EnglishCode := "ENGLISH"

  /** `"ENGLISH".equalsIgnoreCase(code)`: a null code does not match. */
  predicate IsEnglish(code: Option<string>) {
    code.Some? && |code.value| == |EnglishCode|
    && forall k :: 0 <= k < |EnglishCode| ==> MatchesIgnoringCase(code.value[k], EnglishCode[k])
  }

  /** An entry the dump can write: `createSortedDataSet` copies its key and translation
      texts, and sorting or writing a null one throws `NullPointerException`. */
  predicate CsvWritable(e: GlossaryEntry) {
    e.key.Some? && e.translation.Some?
  }

  /** Every word and phrase of every letter can be written. */
  predicate AllCsvWritable(letters: seq<GlossaryLetter>) {
    forall m :: 0 <= m < |letters| ==>
      (forall k :: 0 <= k < |letters[m].words| ==> CsvWritable(letters[m].words[k]))
      && (forall k :: 0 <= k < |letters[m].phrases| ==> CsvWritable(letters[m].phrases[k]))
  }

  /** `dumpGlossaryToCsv`, apart from the file it writes (whose `IOException`s are only
      logged): a glossary whose code is not "ENGLISH" in any case is not dumped; an English
      one fails if some word or phrase has a null key or translation text. */
  function DumpGlossaryToCsv(g: Glossary): (r: Result<Glossary>)
    ensures !IsEnglish(g.languageCode) ==> r == Ok(g)
    ensures r.Ok? ==> r.value == g
    ensures r.Err? ==> r.failure == NullCsvField
  {
    if IsEnglish(g.languageCode) && !AllCsvWritable(g.letters) then Err(NullCsvField) else Ok(g)
  }

  /** `writeGlossaryToFile`, apart from the files it writes: the first entry's language
      code on the axis, the version string and the letters make the document, which is then
      dumped to CSV. An empty input fails. */
  function WriteGlossary(env: Env, profiles: Profiles, cfg: WriterConfig, version: Option<string>, sorted: seq<SortObject>): (r: Result<Glossary>)
    ensures sorted == [] ==> r == Err(EmptyInput)
    ensures sorted != [] && FillInGlossaryWithContent(env, profiles, cfg, sorted).Err? ==>
              r == Err(FillInGlossaryWithContent(env, profiles, cfg, sorted).failure)
    ensures r.Ok? ==> r.value.languageCode == LanguageCode(sorted[0], cfg.axis) && r.value.version == version
                      && FillInGlossaryWithContent(env, profiles, cfg, sorted) == Ok(r.value.letters)
    ensures sorted != [] && !IsEnglish(LanguageCode(sorted[0], cfg.axis)) ==>
              (r.Ok? <==> FillInGlossaryWithContent(env, profiles, cfg, sorted).Ok?)
    ensures sorted != [] && FillInGlossaryWithContent(env, profiles, cfg, sorted).Ok? && r.Err? ==> r.failure == NullCsvField
  {
    if sorted == [] then Err(EmptyInput)
    else
      var letters :- FillInGlossaryWithContent(env, profiles, cfg, sorted);
      DumpGlossaryToCsv(Glossary(LanguageCode(sorted[0], cfg.axis), version, letters))
  }

  /** The document `WriteGlossary` dumps, once filling has succeeded. */
  lemma WriteGlossaryDumps(env: Env, profiles: Profiles, cfg: WriterConfig, version: Option<string>, sorted: seq<SortObject>)
    requires sorted != [] && FillInGlossaryWithContent(env, profiles, cfg, sorted).Ok?
    ensures WriteGlossary(env, profiles, cfg, version, sorted)
            == DumpGlossaryToCsv(Glossary(LanguageCode(sorted[0], cfg.axis), version, FillInGlossaryWithContent(env, profiles, cfg, sorted).value))
  {
  }

  /** One unwritable word or phrase makes the dump of an English glossary fail. */
  lemma UnwritableEntryFailsDump(g: Glossary, m: nat, flag: bool, k: nat)
    requires IsEnglish(g.languageCode) && m < |g.letters| && k < |EntriesWithFlag(g.letters[m], flag)|
    requires !CsvWritable(EntriesWithFlag(g.letters[m], flag)[k])
    ensures DumpGlossaryToCsv(g) == Err(NullCsvField)
  {
    if flag {
      assert !CsvWritable(g.letters[m].phrases[k]);
    } else {
      assert !CsvWritable(g.letters[m].words[k]);
    }
  }

  /** With every word and phrase writable, the dump does not fail. */
  lemma WritableEntriesPassDump(g: Glossary)
    requires forall m, flag, k :: 0 <= m < |g.letters| && 0 <= k < |EntriesWithFlag(g.letters[m], flag)|
               ==> CsvWritable(EntriesWithFlag(g.letters[m], flag)[k])
    ensures DumpGlossaryToCsv(g) == Ok(g)
  {
    forall m | 0 <= m < |g.letters|
      ensures (forall k :: 0 <= k < |g.letters[m].words| ==> CsvWritable(g.letters[m].words[k]))
      ensures (forall k :: 0 <= k < |g.letters[m].phrases| ==> CsvWritable(g.letters[m].phrases[k]))
    {
      assert g.letters[m].words == EntriesWithFlag(g.letters[m], false);
      assert g.letters[m].phrases == EntriesWithFlag(g.letters[m], true);
    }
  }

  /** An English glossary with an entry lacking the key or the translation include field
      fails in the CSV dump, once every entry is written (the routes are clash-free). */
  lemma EnglishEntryWithoutKeyFails(env: Env, profiles: Profiles, cfg: WriterConfig, version: Option<string>,
                                    sorted: seq<SortObject>, i: nat)
    requires i < |sorted| && IsEnglish(LanguageCode(sorted[0], cfg.axis))
    requires FillInGlossaryWithContent(env, profiles, cfg, sorted).Ok?
    requires ClashFree(RouteAll(env, profiles, cfg.axis, sorted).value)
    requires cfg.keyField !in sorted[i].fieldsToInclude || cfg.translationField !in sorted[i].fieldsToInclude
    ensures WriteGlossary(env, profiles, cfg, version, sorted) == Err(NullCsvField)
  {
    var letters := FillInGlossaryWithContent(env, profiles, cfg, sorted).value;
    var g := Glossary(LanguageCode(sorted[0], cfg.axis), version, letters);
    EveryEntryWritten(env, profiles, cfg, sorted, i);
    var target := Target(RouteAll(env, profiles, cfg.axis, sorted).value[i]);
    var e := FillEntry(cfg, sorted[i]);
    var m :| 0 <= m < |letters| && letters[m].name == target.letter && letters[m].isMisc == target.isMisc
             && e in EntriesWithFlag(letters[m], sorted[i].isPhrase);
    var k :| 0 <= k < |EntriesWithFlag(letters[m], sorted[i].isPhrase)| && EntriesWithFlag(letters[m], sorted[i].isPhrase)[k] == e;
    UnwritableEntryFailsDump(g, m, sorted[i].isPhrase, k);
    WriteGlossaryDumps(env, profiles, cfg, version, sorted);
  }

  /** Every entry of the buckets comes from the input. */
  lemma {:induction false} FillDrawsFromInput(routes: seq<Option<LetterData>>, objs: seq<SortObject>)
    requires |routes| == |objs|
    ensures var b := Fill(routes, objs);
            && (forall name :: name in b.byLabel ==> forall o :: o in b.byLabel[name] ==> o in objs)
            && (forall o :: o in b.mandarin ==> o in objs)
    decreases |objs|
  {
    if objs != [] {
      var init := objs[..|objs| - 1];
      FillDrawsFromInput(routes[..|routes| - 1], init);
      assert forall o :: o in init ==> o in objs;
    }
  }

  /** Every entry of the map's buckets comes from the input. */
  lemma BucketsDrawFromInput(env: Env, profiles: Profiles, axis: Axis, objs: seq<SortObject>, name: string, o: SortObject)
    requires BuildGlossaryMap(env, profiles, axis, objs).Ok?
    requires o in Bucket(BuildGlossaryMap(env, profiles, axis, objs).value.buckets, name)
    ensures o in objs
  {
    var routes := RouteAll(env, profiles, axis, objs).value;
    FillDrawsFromInput(routes, objs);
  }

  /** Each word or phrase of a letter is filled from an entry of its list. */
  lemma FilledFromBucket(cfg: WriterConfig, ld: LetterData, bucket: seq<SortObject>, flag: bool, k: nat) returns (o: SortObject)
    requires k < |EntriesWithFlag(FillLetter(cfg, ld, bucket), flag)|
    ensures o in bucket && EntriesWithFlag(FillLetter(cfg, ld, bucket), flag)[k] == FillEntry(cfg, o)
  {
    FillLetterSplits(cfg, ld, bucket, flag);
    var sub := WithFlag(bucket, flag);
    o := sub[k];
    WithFlagPartition(bucket);
    assert multiset(sub) <= multiset(bucket);
    assert o in multiset(sub);
    assert o in multiset(bucket);
  }

  /** Each word or phrase of the document is filled from an input entry. */
  lemma DocumentEntryFromInput(env: Env, profiles: Profiles, cfg: WriterConfig, sorted: seq<SortObject>, m: nat, flag: bool, k: nat)
    returns (o: SortObject)
    requires FillInGlossaryWithContent(env, profiles, cfg, sorted).Ok?
    requires var letters := FillInGlossaryWithContent(env, profiles, cfg, sorted).value;
             m < |letters| && k < |EntriesWithFlag(letters[m], flag)|
    ensures o in sorted
    ensures EntriesWithFlag(FillInGlossaryWithContent(env, profiles, cfg, sorted).value[m], flag)[k] == FillEntry(cfg, o)
  {
    var gm := BuildGlossaryMap(env, profiles, cfg.axis, sorted).value;
    GlossaryLetterAt(env, profiles, cfg, sorted, m);
    o := FilledFromBucket(cfg, gm.letters[m], Bucket(gm.buckets, gm.letters[m].letter), flag, k);
    BucketsDrawFromInput(env, profiles, cfg.axis, sorted, gm.letters[m].letter, o);
  }

  /** When every entry has its key and translation include fields, the CSV dump does not
      fail: the glossary is written exactly when filling succeeds. */
  lemma CompleteEntriesDumped(env: Env, profiles: Profiles, cfg: WriterConfig, version: Option<string>, sorted: seq<SortObject>)
    requires sorted != []
    requires forall i :: 0 <= i < |sorted| ==> cfg.keyField in sorted[i].fieldsToInclude && cfg.translationField in sorted[i].fieldsToInclude
    ensures WriteGlossary(env, profiles, cfg, version, sorted).Ok? <==> FillInGlossaryWithContent(env, profiles, cfg, sorted).Ok?
  {
    var filled := FillInGlossaryWithContent(env, profiles, cfg, sorted);
    if filled.Ok? {
      var g := Glossary(LanguageCode(sorted[0], cfg.axis), version, filled.value);
      forall m, flag, k | 0 <= m < |g.letters| && 0 <= k < |EntriesWithFlag(g.letters[m], flag)|
        ensures CsvWritable(EntriesWithFlag(g.letters[m], flag)[k])
      {
        var o := DocumentEntryFromInput(env, profiles, cfg, sorted, m, flag, k);
      }
      WritableEntriesPassDump(g);
      WriteGlossaryDumps(env, profiles, cfg, version, sorted);
    }
  }
}
