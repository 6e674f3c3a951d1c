/** `SortObjectsL1L2DuplicateFilter`: keeps one entry per key, the key being the NFD form of
    the "L1" include field followed by the NFD form of the "L2" include field. The Java map
    keeps the entry put last for each key; its iteration order is replaced here by the order
    in which the keys first occur. */
module DuplicateFilter {
  import opened Results
  import opened Foreign
  import opened Entries

  /** An entry with both customary include fields. */
  predicate Keyed(o: SortObject) {
    L1FieldName in o.fieldsToInclude && L2FieldName in o.fieldsToInclude
  }

  /** The duplicate key: normalised L1 text followed, without a separator, by normalised L2 text. */
  function KeyOf(env: Env, o: SortObject): string
    requires Keyed(o)
  {
    env.nfd(o.fieldsToInclude[L1FieldName]) + env.nfd(o.fieldsToInclude[L2FieldName])
  }

  /** The key computation of one loop step; a missing field is handed to
      `Normalizer.normalize` as null, the L1 field first. */
  function DuplicateKey(env: Env, o: SortObject): (r: Result<string>)
    ensures L1FieldName !in o.fieldsToInclude ==> r == Err(MissingField(L1FieldName))
    ensures L1FieldName in o.fieldsToInclude && L2FieldName !in o.fieldsToInclude ==> r == Err(MissingField(L2FieldName))
    ensures r.Ok? <==> Keyed(o)
    ensures r.Ok? ==> r.value == KeyOf(env, o)
  {
    if L1FieldName !in o.fieldsToInclude then Err(MissingField(L1FieldName))
    else if L2FieldName !in o.fieldsToInclude then Err(MissingField(L2FieldName))
    else Ok(KeyOf(env, o))
  }

  /** The position of the first entry from `from` on without a key, or the length. */
  function FirstUnkeyed(objs: seq<SortObject>, from: nat): (k: nat)
    requires from <= |objs|
    ensures from <= k <= |objs|
    ensures k < |objs| ==> !Keyed(objs[k])
    ensures forall j :: from <= j < k ==> Keyed(objs[j])
    decreases |objs| - from
  {
    if from == |objs| || !Keyed(objs[from]) then from else FirstUnkeyed(objs, from + 1)
  }

  /** The loop over the entries fails at the first entry without a key. */
  function CheckKeyed(env: Env, objs: seq<SortObject>): (r: Result<bool>)
    ensures r.Ok? <==> forall i :: 0 <= i < |objs| ==> Keyed(objs[i])
    ensures r.Err? ==> exists i :: 0 <= i < |objs| && DuplicateKey(env, objs[i]) == Err(r.failure)
                                   && forall j :: 0 <= j < i ==> Keyed(objs[j])
  {
    var k := FirstUnkeyed(objs, 0);
    if k == |objs| then Ok(true) else Err(DuplicateKey(env, objs[k]).failure)
  }

  /** The keys of entries that all have one, in order. */
  function KeysOf(env: Env, objs: seq<SortObject>): (ks: seq<string>)
    requires forall i :: 0 <= i < |objs| ==> Keyed(objs[i])
    ensures |ks| == |objs| && forall i :: 0 <= i < |objs| ==> ks[i] == KeyOf(env, objs[i])
  {
    seq(|objs|, i requires 0 <= i < |objs| => KeyOf(env, objs[i]))
  }

  predicate NoDuplicates(ks: seq<string>) {
    forall i, j :: 0 <= i < j < |ks| ==> ks[i] != ks[j]
  }

  /** The distinct keys in the order they first occur. */
  function Distinct(ks: seq<string>): (r: seq<string>)
    ensures NoDuplicates(r)
    ensures forall k :: k in r <==> k in ks
    ensures |r| <= |ks|
  {
    if ks == [] then []
    else
      var init := Distinct(ks[..|ks| - 1]);
      var last := ks[|ks| - 1];
      assert ks == ks[..|ks| - 1] + [last];
      if last in init then init else init + [last]
  }

  /** The last position holding `k`. */
  function LastIndexOf(ks: seq<string>, k: string): (i: nat)
    requires k in ks
    ensures i < |ks| && ks[i] == k
    ensures forall j :: i < j < |ks| ==> ks[j] != k
  {
    if ks[|ks| - 1] == k then |ks| - 1
    else
      assert k in ks[..|ks| - 1] by {
        var p :| 0 <= p < |ks| && ks[p] == k;
        assert ks[..|ks| - 1][p] == k;
      }
      LastIndexOf(ks[..|ks| - 1], k)
  }

  /** `process`: one entry per distinct key, the last one with that key. */
  function RemoveDuplicates(env: Env, objs: seq<SortObject>): (r: Result<seq<SortObject>>)
    ensures r.Ok? <==> forall i :: 0 <= i < |objs| ==> Keyed(objs[i])
    ensures r.Err? ==> r == Err(CheckKeyed(env, objs).failure)
    ensures r.Ok? ==>
              var keys := KeysOf(env, objs);
              |r.value| == |Distinct(keys)|
              && forall j :: 0 <= j < |r.value| ==> r.value[j] == objs[LastIndexOf(keys, Distinct(keys)[j])]
    ensures r.Ok? ==> (forall j :: 0 <= j < |r.value| ==> Keyed(r.value[j])) && NoDuplicates(KeysOf(env, r.value))
    ensures r.Ok? ==> forall k :: k in KeysOf(env, objs) <==> k in KeysOf(env, r.value)
  {
    var checked :- CheckKeyed(env, objs);
    var keys := KeysOf(env, objs);
    var distinct := Distinct(keys);
    var kept := seq(|distinct|, j requires 0 <= j < |distinct| => objs[LastIndexOf(keys, distinct[j])]);
    assert forall j :: 0 <= j < |kept| ==> Keyed(kept[j]) && KeyOf(env, kept[j]) == distinct[j];
    assert KeysOf(env, kept) == distinct;
    Ok(kept)
  }

  /** The j-th kept entry carries the j-th distinct key. */
  lemma KeptKey(env: Env, objs: seq<SortObject>, j: nat)
    requires RemoveDuplicates(env, objs).Ok? && j < |RemoveDuplicates(env, objs).value|
    ensures Keyed(RemoveDuplicates(env, objs).value[j])
    ensures KeyOf(env, RemoveDuplicates(env, objs).value[j]) == Distinct(KeysOf(env, objs))[j]
  {
  }

  /** Every kept entry is an input entry carrying one input key, and it is the last input
      entry with that key. */
  lemma KeptEntriesAreLastInputs(env: Env, objs: seq<SortObject>, j: nat)
    requires RemoveDuplicates(env, objs).Ok? && j < |RemoveDuplicates(env, objs).value|
    ensures var kept := RemoveDuplicates(env, objs).value[j];
            exists i :: 0 <= i < |objs| && objs[i] == kept && DuplicateKey(env, kept) == DuplicateKey(env, objs[i])
                        && forall m :: i < m < |objs| ==> DuplicateKey(env, objs[m]) != DuplicateKey(env, kept)
  {
    var keys := KeysOf(env, objs);
    var i := LastIndexOf(keys, Distinct(keys)[j]);
    assert objs[i] == RemoveDuplicates(env, objs).value[j];
  }

  /** Every input key is carried by exactly one kept entry. */
  lemma EveryKeyKeptOnce(env: Env, objs: seq<SortObject>, i: nat)
    requires RemoveDuplicates(env, objs).Ok? && i < |objs|
    ensures var kept := RemoveDuplicates(env, objs).value;
            exists j :: 0 <= j < |kept| && DuplicateKey(env, kept[j]) == DuplicateKey(env, objs[i])
                        && forall m :: 0 <= m < |kept| && m != j ==> DuplicateKey(env, kept[m]) != DuplicateKey(env, objs[i])
  {
    var keys := KeysOf(env, objs);
    var d := Distinct(keys);
    assert keys[i] in d;
    var j :| 0 <= j < |d| && d[j] == keys[i];
    var kept := RemoveDuplicates(env, objs).value;
    KeptKey(env, objs, j);
    forall m | 0 <= m < |kept| && m != j ensures DuplicateKey(env, kept[m]) != DuplicateKey(env, objs[i]) {
      KeptKey(env, objs, m);
      assert d[m] != d[j];
    }
  }

  lemma {:induction false} NoDuplicatesCount(ks: seq<string>)
    requires NoDuplicates(ks)
    ensures |set k | k in ks| == |ks|
  {
    if ks != [] {
      var init := ks[..|ks| - 1];
      var last := ks[|ks| - 1];
      assert NoDuplicates(init);
      NoDuplicatesCount(init);
      assert (set k | k in ks) == (set k | k in init) + {last} by {
        assert ks == init + [last];
      }
      assert last !in init;
    }
  }

  /** The output has exactly as many entries as there are distinct keys. */
  lemma OutputCountsDistinctKeys(env: Env, objs: seq<SortObject>)
    requires RemoveDuplicates(env, objs).Ok?
    ensures |RemoveDuplicates(env, objs).value| == |set k | k in KeysOf(env, objs)|
  {
    var keys := KeysOf(env, objs);
    NoDuplicatesCount(Distinct(keys));
    assert (set k | k in Distinct(keys)) == (set k | k in keys);
  }

  lemma {:induction false} DistinctOfDistinct(ks: seq<string>)
    requires NoDuplicates(ks)
    ensures Distinct(ks) == ks
  {
    if ks != [] {
      var init := ks[..|ks| - 1];
      assert NoDuplicates(init);
      DistinctOfDistinct(init);
      assert ks[|ks| - 1] !in init;
      assert init + [ks[|ks| - 1]] == ks;
    }
  }

  lemma LastIndexOfDistinct(ks: seq<string>, j: nat)
    requires NoDuplicates(ks) && j < |ks|
    ensures LastIndexOf(ks, ks[j]) == j
  {
  }

  /** Removing duplicates twice removes nothing more. */
  lemma RemoveDuplicatesIdempotent(env: Env, objs: seq<SortObject>)
    requires RemoveDuplicates(env, objs).Ok?
    ensures RemoveDuplicates(env, RemoveDuplicates(env, objs).value) == RemoveDuplicates(env, objs)
  {
    var kept := RemoveDuplicates(env, objs).value;
    var d := Distinct(KeysOf(env, objs));
    forall j | 0 <= j < |kept| ensures Keyed(kept[j]) && KeyOf(env, kept[j]) == d[j] {
      KeptKey(env, objs, j);
    }
    assert KeysOf(env, kept) == d;
    DistinctOfDistinct(d);
    var again := RemoveDuplicates(env, kept).value;
    forall j | 0 <= j < |d| ensures again[j] == kept[j] {
      LastIndexOfDistinct(d, j);
    }
    assert again == kept;
  }

  lemma {:induction false} DistinctOfSeenSuffix(a: seq<string>, b: seq<string>)
    requires forall k :: k in b ==> k in a
    ensures Distinct(a + b) == Distinct(a)
  {
    if b != [] {
      var b' := b[..|b| - 1];
      DistinctOfSeenSuffix(a, b');
      assert (a + b)[..|a + b| - 1] == a + b';
      assert b[|b| - 1] in b;
    } else {
      assert a + b == a;
    }
  }

  lemma {:induction false} LastIndexOfAppend(a: seq<string>, b: seq<string>, k: string)
    requires k in b
    ensures LastIndexOf(a + b, k) == |a| + LastIndexOf(b, k)
  {
    var ab := a + b;
    if b[|b| - 1] != k {
      var b' := b[..|b| - 1];
      assert k in b' by {
        var p :| 0 <= p < |b| && b[p] == k;
        assert b'[p] == k;
      }
      assert ab[..|ab| - 1] == a + b';
      LastIndexOfAppend(a, b', k);
    }
  }

  lemma KeysOfConcat(env: Env, a: seq<SortObject>, b: seq<SortObject>)
    requires forall i :: 0 <= i < |a| ==> Keyed(a[i])
    requires forall i :: 0 <= i < |b| ==> Keyed(b[i])
    ensures forall i :: 0 <= i < |a + b| ==> Keyed((a + b)[i])
    ensures KeysOf(env, a + b) == KeysOf(env, a) + KeysOf(env, b)
  {
    assert forall i :: 0 <= i < |a + b| ==> (a + b)[i] == if i < |a| then a[i] else b[i - |a|];
  }

  /** A collection read twice reduces to what the collection alone reduces to. */
  lemma RepeatedInputReducesAlike(env: Env, objs: seq<SortObject>)
    requires RemoveDuplicates(env, objs).Ok?
    ensures RemoveDuplicates(env, objs + objs) == RemoveDuplicates(env, objs)
  {
    var keys := KeysOf(env, objs);
    var both := objs + objs;
    KeysOfConcat(env, objs, objs);
    DistinctOfSeenSuffix(keys, keys);
    var d := Distinct(keys);
    var once := RemoveDuplicates(env, objs).value;
    var twice := RemoveDuplicates(env, both).value;
    forall j | 0 <= j < |d| ensures twice[j] == once[j] {
      LastIndexOfAppend(keys, keys, d[j]);
      assert both[|objs| + LastIndexOf(keys, d[j])] == objs[LastIndexOf(keys, d[j])];
    }
    assert twice == once;
  }

  /** Keys are joined without a separator: ("ab", "c") and ("a", "bc") collide when the
      normalisation leaves them alone, and only the later entry survives. */
  lemma UnseparatedKeysCollide(env: Env, first: SortObject, second: SortObject)
    requires first.fieldsToInclude == map[L1FieldName := "ab", L2FieldName := "c"]
    requires second.fieldsToInclude == map[L1FieldName := "a", L2FieldName := "bc"]
    requires forall s :: s in {"ab", "c", "a", "bc"} ==> env.nfd(s) == s
    ensures RemoveDuplicates(env, [first, second]) == Ok([second])
  {
    assert env.nfd("ab") == "ab" && env.nfd("c") == "c" && env.nfd("a") == "a" && env.nfd("bc") == "bc";
    assert "ab" + "c" == "a" + "bc";
    var key := "ab" + "c";
    assert KeyOf(env, first) == key && KeyOf(env, second) == key;
    assert KeysOf(env, [first, second]) == [key, key];
    assert LastIndexOf([key, key], key) == 1;
    var r := RemoveDuplicates(env, [first, second]);
    assert |r.value| == 1;
    assert r.value[0] == [first, second][1];
    assert r.value == [second];
    assert Distinct([key, key]) == [key] by {
      assert [key, key][..1] == [key];
    }
  }
}
