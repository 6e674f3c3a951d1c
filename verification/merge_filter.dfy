/** `SortObjectsL1L2FileMergeFilter`: entries read from an L1 file and entries read from the
    matching L2 file are merged position by position into entries that carry both languages.
    Files match when the common-part pattern captures the same group from both names; which
    side a file is on is decided by the L1 and L2 file-name patterns. */
module MergeFilter {
  import opened Results
  import opened Text
  import opened Foreign
  import opened Entries

  datatype MergeConfig = MergeConfig(filePatternL1: string, filePatternL2: string, commonPartPattern: string)

  const WindowsSeparator: string := "\\"

  /** `replaceAll` of the regex that matches two backslashes, left to right. */
  function ReplaceDoubleBackslash(s: string, replacement: string): (r: string)
    decreases |s|
  {
    if |s| < 2 then s
    else if s[0] == '\\' && s[1] == '\\' then replacement + ReplaceDoubleBackslash(s[2..], replacement)
    else [s[0]] + ReplaceDoubleBackslash(s[1..], replacement)
  }

  predicate HasDoubleBackslash(s: string) {
    exists i :: 0 <= i < |s| - 1 && s[i] == '\\' && s[i + 1] == '\\'
  }

  /** A pattern without a doubled backslash is left as it is. */
  lemma {:induction false} ReplaceWithoutDoubleBackslash(s: string, replacement: string)
    requires !HasDoubleBackslash(s)
    ensures ReplaceDoubleBackslash(s, replacement) == s
    decreases |s|
  {
    if |s| >= 2 {
      assert !(s[0] == '\\' && s[1] == '\\');
      forall i | 0 <= i < |s[1..]| - 1 ensures !(s[1..][i] == '\\' && s[1..][i + 1] == '\\') {
        assert s[1..][i] == s[i + 1] && s[1..][i + 1] == s[i + 2];
      }
      ReplaceWithoutDoubleBackslash(s[1..], replacement);
      assert [s[0]] + s[1..] == s;
    }
  }

  /** The first character of a replacement: unchanged unless a doubled backslash starts there. */
  lemma ReplaceHead(s: string, replacement: string)
    requires s != [] && replacement != []
    ensures ReplaceDoubleBackslash(s, replacement) != []
    ensures ReplaceDoubleBackslash(s, replacement)[0] == (if |s| >= 2 && s[0] == '\\' && s[1] == '\\' then replacement[0] else s[0])
  {
  }

  /** Replacing with a non-empty text that holds no backslash leaves no doubled backslash. */
  lemma {:induction false} ReplaceRemovesDoubleBackslash(s: string, replacement: string)
    requires replacement != [] && '\\' !in replacement
    ensures !HasDoubleBackslash(ReplaceDoubleBackslash(s, replacement))
    decreases |s|
  {
    var r := ReplaceDoubleBackslash(s, replacement);
    if |s| < 2 {
    } else if s[0] == '\\' && s[1] == '\\' {
      var tail := ReplaceDoubleBackslash(s[2..], replacement);
      ReplaceRemovesDoubleBackslash(s[2..], replacement);
      assert r == replacement + tail;
      forall i | 0 <= i < |r| - 1 ensures !(r[i] == '\\' && r[i + 1] == '\\') {
        if i < |replacement| {
          assert r[i] == replacement[i] && replacement[i] in replacement;
        } else {
          assert r[i] == tail[i - |replacement|] && r[i + 1] == tail[i - |replacement| + 1];
        }
      }
    } else {
      var tail := ReplaceDoubleBackslash(s[1..], replacement);
      ReplaceRemovesDoubleBackslash(s[1..], replacement);
      assert r == [s[0]] + tail;
      ReplaceHead(s[1..], replacement);
      assert replacement[0] in replacement;
      forall i | 0 <= i < |r| - 1 ensures !(r[i] == '\\' && r[i + 1] == '\\') {
        if i == 0 {
          assert r[0] == s[0] && r[1] == tail[0];
        } else {
          assert r[i] == tail[i - 1] && r[i + 1] == tail[i];
        }
      }
    }
  }

  /** `setCommonPartPattern`: kept as configured on Windows; elsewhere each doubled
      backslash (a separator in a Windows path regex) becomes the platform separator. */
  function CommonPartPattern(configured: string, separator: string): (pattern: string)
    ensures separator == WindowsSeparator ==> pattern == configured
    ensures separator != WindowsSeparator && separator != [] && '\\' !in separator ==> !HasDoubleBackslash(pattern)
  {
    if separator == WindowsSeparator then configured
    else
      var pattern := ReplaceDoubleBackslash(configured, separator);
      assert separator != [] && '\\' !in separator ==> !HasDoubleBackslash(pattern) by {
        if separator != [] && '\\' !in separator {
          ReplaceRemovesDoubleBackslash(configured, separator);
        }
      }
      pattern
  }

  datatype Side = L1Side | L2Side

  /** An entry together with the common part of its file name (`None` when the group took no
      part in the match, Java's null key) and the side its file is on. */
  datatype Tagged = Tagged(key: Option<string>, side: Side, entry: SortObject)

  /** One step of `splitSortData`: the file the entry came from must fully match the
      common-part pattern, which must have exactly one group; a name matching the L1
      pattern is on the L1 side even when it also matches the L2 pattern. */
  function Classify(env: Env, cfg: MergeConfig, o: SortObject): (r: Result<Tagged>)
    ensures OriginFileKey !in o.userData ==> r == Err(MissingOriginFile)
    ensures r.Ok? ==> r.value.entry == o && OriginFileKey in o.userData
    ensures OriginFileKey in o.userData ==>
              var file := o.userData[OriginFileKey];
              var common := env.fullMatch(cfg.commonPartPattern, file) && env.groupCount(cfg.commonPartPattern) == 1;
              && (!common ==> r == Err(CommonPartMismatch(file)))
              && ((common && !env.fullMatch(cfg.filePatternL1, file) && !env.fullMatch(cfg.filePatternL2, file))
                  ==> r == Err(NoFilePatternMatch(file)))
              && (r.Ok? <==> common && (env.fullMatch(cfg.filePatternL1, file) || env.fullMatch(cfg.filePatternL2, file)))
              && (r.Ok? ==> r.value.key == env.commonGroup(cfg.commonPartPattern, file)
                            && (r.value.side == L1Side <==> env.fullMatch(cfg.filePatternL1, file)))
  {
    if OriginFileKey !in o.userData then Err(MissingOriginFile)
    else
      var file := o.userData[OriginFileKey];
      if !env.fullMatch(cfg.commonPartPattern, file) || env.groupCount(cfg.commonPartPattern) != 1 then
        Err(CommonPartMismatch(file))
      else
        var key := env.commonGroup(cfg.commonPartPattern, file);
        if env.fullMatch(cfg.filePatternL1, file) then Ok(Tagged(key, L1Side, o))
        else if env.fullMatch(cfg.filePatternL2, file) then Ok(Tagged(key, L2Side, o))
        else Err(NoFilePatternMatch(file))
  }

  /** `splitSortData`: classifies every entry, in order; the first failure aborts. */
  function ClassifyAll(env: Env, cfg: MergeConfig, objs: seq<SortObject>): (r: Result<seq<Tagged>>)
    ensures r.Ok? <==> forall i :: 0 <= i < |objs| ==> Classify(env, cfg, objs[i]).Ok?
    ensures r.Ok? ==> |r.value| == |objs| && forall i :: 0 <= i < |objs| ==> Classify(env, cfg, objs[i]) == Ok(r.value[i])
    ensures r.Err? ==> exists i :: 0 <= i < |objs| && Classify(env, cfg, objs[i]) == Err(r.failure)
                                   && forall j :: 0 <= j < i ==> Classify(env, cfg, objs[j]).Ok?
  {
    if objs == [] then Ok([])
    else
      var first :- Classify(env, cfg, objs[0]);
      var rest :- ClassifyAll(env, cfg, objs[1..]);
      Ok([first] + rest)
  }

  /** The entries of one side with one key, in input order. */
  function EntriesOf(items: seq<Tagged>, side: Side, key: Option<string>): (r: seq<SortObject>)
    ensures |r| <= |items|
  {
    if items == [] then []
    else (if items[0].side == side && items[0].key == key then [items[0].entry] else [])
         + EntriesOf(items[1..], side, key)
  }

  /** How many entries are on one side. */
  function CountSide(items: seq<Tagged>, side: Side): nat {
    if items == [] then 0 else (if items[0].side == side then 1 else 0) + CountSide(items[1..], side)
  }

  /** The items whose key is not `key`, in order. */
  function WithoutKey(items: seq<Tagged>, key: Option<string>): (r: seq<Tagged>)
    ensures |r| <= |items|
    ensures (exists i :: 0 <= i < |items| && items[i].key == key) ==> |r| < |items|
    ensures forall i :: 0 <= i < |r| ==> r[i].key != key && r[i] in items
  {
    if items == [] then []
    else
      var rest := WithoutKey(items[1..], key);
      assert forall i :: 0 <= i < |rest| ==> rest[i] in items by {
        forall i | 0 <= i < |rest| ensures rest[i] in items {
          assert rest[i] in items[1..];
        }
      }
      if items[0].key == key then rest else [items[0]] + rest
  }

  /** The key of the first L1-side item, if there is one. */
  function FirstL1Key(items: seq<Tagged>): (r: Option<Option<string>>)
    ensures r.None? <==> forall i :: 0 <= i < |items| ==> items[i].side == L2Side
    ensures r.Some? ==> exists i :: 0 <= i < |items| && items[i].side == L1Side && items[i].key == r.value
  {
    if items == [] then None
    else if items[0].side == L1Side then Some(items[0].key)
    else
      var r := FirstL1Key(items[1..]);
      assert (forall i :: 0 <= i < |items[1..]| ==> items[1..][i].side == L2Side)
             <==> (forall i :: 0 <= i < |items| ==> items[i].side == L2Side) by {
        assert forall i :: 1 <= i < |items| ==> items[i] == items[1..][i - 1];
      }
      assert r.Some? ==> exists i :: 1 <= i < |items| && items[i].side == L1Side && items[i].key == r.value by {
        if r.Some? {
          var i :| 0 <= i < |items[1..]| && items[1..][i].side == L1Side && items[1..][i].key == r.value;
          assert items[i + 1] == items[1..][i];
        }
      }
      r
  }

  /** The L2-side data a merge copies: the L2 language code and L2 sort fields replace the
      destination's, and the partner's include fields are laid over the destination's. */
  function Merged(dest: SortObject, source: SortObject): (r: SortObject)
    ensures r.languageCodeL2 == source.languageCodeL2 && r.sortFieldsL2 == source.sortFieldsL2
    ensures r.fieldsToInclude.Keys == dest.fieldsToInclude.Keys + source.fieldsToInclude.Keys
    ensures forall n :: n in source.fieldsToInclude ==> r.fieldsToInclude[n] == source.fieldsToInclude[n]
    ensures forall n :: n in dest.fieldsToInclude && n !in source.fieldsToInclude ==>
              r.fieldsToInclude[n] == dest.fieldsToInclude[n]
    ensures r.(languageCodeL2 := dest.languageCodeL2, sortFieldsL2 := dest.sortFieldsL2,
               fieldsToInclude := dest.fieldsToInclude) == dest
  {
    dest.(languageCodeL2 := source.languageCodeL2, sortFieldsL2 := source.sortFieldsL2,
          fieldsToInclude := dest.fieldsToInclude + source.fieldsToInclude)
  }

  /** The i-th L1 entry merges with the i-th L2 entry; surplus L2 entries are ignored. */
  function MergePairs(l1: seq<SortObject>, l2: seq<SortObject>): (r: seq<SortObject>)
    requires |l1| <= |l2|
    ensures |r| == |l1|
    ensures forall i :: 0 <= i < |l1| ==> r[i] == Merged(l1[i], l2[i])
  {
    seq(|l1|, i requires 0 <= i < |l1| => Merged(l1[i], l2[i]))
  }

  lemma {:induction false} SplitCount(items: seq<Tagged>, side: Side, key: Option<string>)
    ensures |EntriesOf(items, side, key)| + CountSide(WithoutKey(items, key), side) == CountSide(items, side)
  {
    if items != [] {
      SplitCount(items[1..], side, key);
    }
  }

  /** The merge loop of `process`, key by key in the order the keys first occur on the L1
      side. A key with fewer L2-side entries than L1-side ones dereferences a missing list or
      index; the Java `assert` that would have said so is disabled. */
  function MergeGroups(items: seq<Tagged>): (r: Result<seq<SortObject>>)
    ensures r.Ok? ==> |r.value| == CountSide(items, L1Side)
    ensures r.Err? ==> r.failure.MissingMergePartner?
    decreases |items|
  {
    match FirstL1Key(items)
    case None =>
      assert CountSide(items, L1Side) == 0 by { NoL1Side(items); }
      Ok([])
    case Some(key) =>
      var l1 := EntriesOf(items, L1Side, key);
      var l2 := EntriesOf(items, L2Side, key);
      if |l2| < |l1| then Err(MissingMergePartner(key))
      else
        var rest :- MergeGroups(WithoutKey(items, key));
        SplitCount(items, L1Side, key);
        Ok(MergePairs(l1, l2) + rest)
  }

  lemma {:induction false} NoL1Side(items: seq<Tagged>)
    requires forall i :: 0 <= i < |items| ==> items[i].side == L2Side
    ensures CountSide(items, L1Side) == 0
  {
    if items != [] {
      NoL1Side(items[1..]);
    }
  }

  /** `process`: every entry is classified first, then the L1-side entries are merged. */
  function Merge(env: Env, cfg: MergeConfig, objs: seq<SortObject>): (r: Result<seq<SortObject>>)
    ensures ClassifyAll(env, cfg, objs).Err? ==> r == Err(ClassifyAll(env, cfg, objs).failure)
    ensures r.Ok? <==> ClassifyAll(env, cfg, objs).Ok? && PartnersSuffice(ClassifyAll(env, cfg, objs).value)
    ensures r.Ok? ==> ClassifyAll(env, cfg, objs).Ok?
                      && |r.value| == CountSide(ClassifyAll(env, cfg, objs).value, L1Side)
  {
    var items :- ClassifyAll(env, cfg, objs);
    MergeGroupsSucceedsIff(items);
    MergeGroups(items)
  }

  /** Every L1-side key has at least as many L2-side partners as L1-side entries. */
  predicate PartnersSuffice(items: seq<Tagged>) {
    forall i :: 0 <= i < |items| && items[i].side == L1Side ==>
      |EntriesOf(items, L1Side, items[i].key)| <= |EntriesOf(items, L2Side, items[i].key)|
  }

  lemma {:induction false} EntriesOfOtherKey(items: seq<Tagged>, side: Side, key: Option<string>, other: Option<string>)
    requires other != key
    ensures EntriesOf(WithoutKey(items, key), side, other) == EntriesOf(items, side, other)
  {
    if items != [] {
      EntriesOfOtherKey(items[1..], side, key, other);
    }
  }

  lemma {:induction false} EntriesOfRemovedKey(items: seq<Tagged>, side: Side, key: Option<string>)
    ensures EntriesOf(WithoutKey(items, key), side, key) == []
  {
    if items != [] {
      EntriesOfRemovedKey(items[1..], side, key);
    }
  }

  /** The merge fails exactly when some L1-side key lacks partners. */
  lemma {:induction false} MergeGroupsSucceedsIff(items: seq<Tagged>)
    ensures MergeGroups(items).Ok? <==> PartnersSuffice(items)
    decreases |items|
  {
    match FirstL1Key(items)
    case None =>
    case Some(key) =>
      var i0 :| 0 <= i0 < |items| && items[i0].side == L1Side && items[i0].key == key;
      var rest := WithoutKey(items, key);
      MergeGroupsSucceedsIff(rest);
      if |EntriesOf(items, L2Side, key)| < |EntriesOf(items, L1Side, key)| {
        assert !PartnersSuffice(items);
      } else {
        // the partners of every other key are those of the remaining items
        assert PartnersSuffice(rest) <==> PartnersSuffice(items) by {
          forall j | 0 <= j < |rest| && rest[j].side == L1Side
            ensures |EntriesOf(rest, L1Side, rest[j].key)| == |EntriesOf(items, L1Side, rest[j].key)|
            ensures |EntriesOf(rest, L2Side, rest[j].key)| == |EntriesOf(items, L2Side, rest[j].key)|
          {
            EntriesOfOtherKey(items, L1Side, key, rest[j].key);
            EntriesOfOtherKey(items, L2Side, key, rest[j].key);
          }
          if PartnersSuffice(rest) {
            forall j | 0 <= j < |items| && items[j].side == L1Side
              ensures |EntriesOf(items, L1Side, items[j].key)| <= |EntriesOf(items, L2Side, items[j].key)|
            {
              if items[j].key != key {
                KeptItem(items, key, j);
                var k :| 0 <= k < |rest| && rest[k] == items[j];
                EntriesOfOtherKey(items, L1Side, key, items[j].key);
                EntriesOfOtherKey(items, L2Side, key, items[j].key);
              }
            }
          }
        }
      }
  }

  /** An item with another key survives `WithoutKey`. */
  lemma {:induction false} KeptItem(items: seq<Tagged>, key: Option<string>, j: nat)
    requires j < |items| && items[j].key != key
    ensures exists k :: 0 <= k < |WithoutKey(items, key)| && WithoutKey(items, key)[k] == items[j]
  {
    if j == 0 {
      assert WithoutKey(items, key)[0] == items[0];
    } else {
      KeptItem(items[1..], key, j - 1);
      var k :| 0 <= k < |WithoutKey(items[1..], key)| && WithoutKey(items[1..], key)[k] == items[1..][j - 1];
      if items[0].key == key {
        assert WithoutKey(items, key)[k] == items[j];
      } else {
        assert WithoutKey(items, key)[k + 1] == items[j];
      }
    }
  }

  /** N L1-file entries and N L2-file entries sharing one common file-name part merge into
      exactly N entries, the i-th L1 entry with the i-th L2 entry. */
  lemma SingleKeyMerge(items: seq<Tagged>, key: Option<string>)
    requires forall i :: 0 <= i < |items| ==> items[i].key == key
    requires |EntriesOf(items, L1Side, key)| == |EntriesOf(items, L2Side, key)|
    ensures MergeGroups(items) == Ok(MergePairs(EntriesOf(items, L1Side, key), EntriesOf(items, L2Side, key)))
  {
    match FirstL1Key(items)
    case None =>
      NoL1SideEntries(items, key);
    case Some(k) =>
      OneKeyLeavesNothing(items, key);
      assert MergePairs(EntriesOf(items, L1Side, key), EntriesOf(items, L2Side, key)) + [] ==
             MergePairs(EntriesOf(items, L1Side, key), EntriesOf(items, L2Side, key));
  }

  lemma {:induction false} OneKeyLeavesNothing(items: seq<Tagged>, key: Option<string>)
    requires forall i :: 0 <= i < |items| ==> items[i].key == key
    ensures WithoutKey(items, key) == []
  {
    if items != [] {
      OneKeyLeavesNothing(items[1..], key);
    }
  }

  lemma {:induction false} NoL1SideEntries(items: seq<Tagged>, key: Option<string>)
    requires forall i :: 0 <= i < |items| ==> items[i].side == L2Side
    ensures EntriesOf(items, L1Side, key) == []
  {
    if items != [] {
      NoL1SideEntries(items[1..], key);
    }
  }

  lemma {:induction false} WithoutKeyCommutes(items: seq<Tagged>, a: Option<string>, b: Option<string>)
    ensures WithoutKey(WithoutKey(items, a), b) == WithoutKey(WithoutKey(items, b), a)
  {
    if items != [] {
      WithoutKeyCommutes(items[1..], a, b);
    }
  }

  lemma {:induction false} FirstL1KeySkipsKey(items: seq<Tagged>, key: Option<string>)
    requires forall i :: 0 <= i < |items| && items[i].key == key ==> items[i].side == L2Side
    ensures FirstL1Key(WithoutKey(items, key)) == FirstL1Key(items)
  {
    if items != [] {
      FirstL1KeySkipsKey(items[1..], key);
      if items[0].key == key {
        assert items[0].side == L2Side;
      }
    }
  }

  /** Entries whose key has no L1-side entry contribute nothing: the merge is the same with
      them removed. */
  lemma {:induction false} L2OnlyKeyContributesNothing(items: seq<Tagged>, key: Option<string>)
    requires forall i :: 0 <= i < |items| && items[i].key == key ==> items[i].side == L2Side
    ensures MergeGroups(items) == MergeGroups(WithoutKey(items, key))
    decreases |items|
  {
    FirstL1KeySkipsKey(items, key);
    match FirstL1Key(items)
    case None =>
    case Some(k) =>
      var i0 :| 0 <= i0 < |items| && items[i0].side == L1Side && items[i0].key == k;
      assert k != key;
      EntriesOfOtherKey(items, L1Side, key, k);
      EntriesOfOtherKey(items, L2Side, key, k);
      WithoutKeyCommutes(items, key, k);
      var rest := WithoutKey(items, k);
      forall i | 0 <= i < |rest| && rest[i].key == key ensures rest[i].side == L2Side {
        assert rest[i] in items;
      }
      L2OnlyKeyContributesNothing(rest, key);
      SameFirstGroup(items, WithoutKey(items, key), k);
  }

  /** Two item lists with the same first L1 key, the same entries under it, and the same merge
      of what remains, merge alike. */
  lemma SameFirstGroup(x: seq<Tagged>, y: seq<Tagged>, k: Option<string>)
    requires FirstL1Key(x) == Some(k) && FirstL1Key(y) == Some(k)
    requires EntriesOf(x, L1Side, k) == EntriesOf(y, L1Side, k)
    requires EntriesOf(x, L2Side, k) == EntriesOf(y, L2Side, k)
    requires MergeGroups(WithoutKey(x, k)) == MergeGroups(WithoutKey(y, k))
    ensures MergeGroups(x) == MergeGroups(y)
  {
  }

  /** For every key, the i-th L1-side entry has an i-th L2-side partner, and the two come
      out merged. */
  lemma {:induction false} MergedPairPresent(items: seq<Tagged>, key: Option<string>, i: nat)
    requires MergeGroups(items).Ok? && i < |EntriesOf(items, L1Side, key)|
    ensures i < |EntriesOf(items, L2Side, key)|
    ensures Merged(EntriesOf(items, L1Side, key)[i], EntriesOf(items, L2Side, key)[i]) in MergeGroups(items).value
    decreases |items|
  {
    var first := FirstL1Key(items);
    if first.None? {
      NoL1SideEntries(items, key);
      assert false;
    }
    var k := first.value;
    var rest := WithoutKey(items, k);
    MergeGroupsStep(items, k);
    var merged := MergePairs(EntriesOf(items, L1Side, k), EntriesOf(items, L2Side, k));
    if key == k {
      assert MergeGroups(items).value[i] == merged[i];
    } else {
      EntriesOfOtherKey(items, L1Side, k, key);
      EntriesOfOtherKey(items, L2Side, k, key);
      MergedPairPresent(rest, key, i);
    }
  }

  /** One step of the merge loop: the first L1 key's pairs, then the merge of the rest. */
  lemma MergeGroupsStep(items: seq<Tagged>, k: Option<string>)
    requires MergeGroups(items).Ok? && FirstL1Key(items) == Some(k)
    ensures |EntriesOf(items, L1Side, k)| <= |EntriesOf(items, L2Side, k)|
    ensures MergeGroups(WithoutKey(items, k)).Ok?
    ensures MergeGroups(items).value
            == MergePairs(EntriesOf(items, L1Side, k), EntriesOf(items, L2Side, k)) + MergeGroups(WithoutKey(items, k)).value
  {
  }

  /** Every merged entry is the i-th L1-side entry of some key merged with the i-th
      L2-side entry of that key. */
  lemma {:induction false} MergedPairOrigin(items: seq<Tagged>, j: nat) returns (key: Option<string>, i: nat)
    requires MergeGroups(items).Ok? && j < |MergeGroups(items).value|
    ensures i < |EntriesOf(items, L1Side, key)| && i < |EntriesOf(items, L2Side, key)|
    ensures MergeGroups(items).value[j] == Merged(EntriesOf(items, L1Side, key)[i], EntriesOf(items, L2Side, key)[i])
    decreases |items|
  {
    var k := FirstL1Key(items).value;
    var rest := WithoutKey(items, k);
    var l1, l2 := EntriesOf(items, L1Side, k), EntriesOf(items, L2Side, k);
    MergeGroupsStep(items, k);
    if j < |l1| {
      assert MergeGroups(items).value[j] == MergePairs(l1, l2)[j];
      key, i := k, j;
    } else {
      assert MergeGroups(items).value[j] == MergeGroups(rest).value[j - |l1|];
      key, i := MergedPairOrigin(rest, j - |l1|);
      assert key != k by {
        EntriesOfRemovedKey(items, L1Side, k);
      }
      EntriesOfOtherKey(items, L1Side, k, key);
      EntriesOfOtherKey(items, L2Side, k, key);
    }
  }

  /** `process` on a whole folder: for every common file-name part, the i-th L1-file entry
      has an i-th L2-file partner and the two come out merged. */
  lemma MergeContents(env: Env, cfg: MergeConfig, objs: seq<SortObject>, key: Option<string>, i: nat)
    requires Merge(env, cfg, objs).Ok?
    requires i < |EntriesOf(ClassifyAll(env, cfg, objs).value, L1Side, key)|
    ensures var items := ClassifyAll(env, cfg, objs).value;
            && i < |EntriesOf(items, L2Side, key)|
            && Merged(EntriesOf(items, L1Side, key)[i], EntriesOf(items, L2Side, key)[i]) in Merge(env, cfg, objs).value
  {
    MergedPairPresent(ClassifyAll(env, cfg, objs).value, key, i);
  }

  /** Every entry `process` returns is a merged pair of one common file-name part. */
  lemma MergeOutputOrigin(env: Env, cfg: MergeConfig, objs: seq<SortObject>, j: nat) returns (key: Option<string>, i: nat)
    requires Merge(env, cfg, objs).Ok? && j < |Merge(env, cfg, objs).value|
    ensures var items := ClassifyAll(env, cfg, objs).value;
            && i < |EntriesOf(items, L1Side, key)| && i < |EntriesOf(items, L2Side, key)|
            && Merge(env, cfg, objs).value[j] == Merged(EntriesOf(items, L1Side, key)[i], EntriesOf(items, L2Side, key)[i])
  {
    key, i := MergedPairOrigin(ClassifyAll(env, cfg, objs).value, j);
  }
}
