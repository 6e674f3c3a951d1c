/** `GlossaryComparator`: entries are compared on the sort fields of one axis, position by
    position over the positions both lists have, with the collator of the first entry's
    language; the sign is flipped for a descending sort. */
module Comparator {
  import opened Results
  import opened Foreign
  import opened Entries
  import opened Collation
  import opened Sorting

  /** The collator `compare` obtains for its first argument. Both of that entry's language
      codes are dereferenced first (for the mismatch log messages), then the profile of its
      code on the axis is looked up and asked for its collator. */
  function CollatorOf(env: Env, profiles: Profiles, axis: Axis, o: SortObject): (r: Result<CollatorSpec>)
    ensures r.Ok? ==> o.languageCodeL1.Some? && o.languageCodeL2.Some?
                      && ProfileOf(profiles, LanguageCode(o, axis)).Some?
                      && MakeCollator(env, ProfileOf(profiles, LanguageCode(o, axis)).value) == r
  {
    if o.languageCodeL1.None? || o.languageCodeL2.None? then Err(NullLanguageCode)
    else
      match ProfileOf(profiles, LanguageCode(o, axis))
      case None => Err(NoCollatorData(LanguageCode(o, axis)))
      case Some(cd) => MakeCollator(env, cd)
  }

  /** The loop of `compare` from position `i` on, with at least one common position left:
      the first non-zero collator answer, or zero when every common position compares equal. */
  function CompareFrom(env: Env, spec: CollatorSpec, a: seq<string>, b: seq<string>, i: nat): (r: Sign)
    requires i < |a| && i < |b|
    ensures r == 0 <==> forall k :: i <= k < |a| && k < |b| ==> env.collate(spec, a[k], b[k]) == 0
    ensures r != 0 ==> exists k :: i <= k < |a| && k < |b| && r == env.collate(spec, a[k], b[k])
                                   && forall j :: i <= j < k ==> env.collate(spec, a[j], b[j]) == 0
    decreases |a| - i
  {
    var c := env.collate(spec, a[i], b[i]);
    if c != 0 || i + 1 == |a| || i + 1 == |b| then
      c
    else
      var r := CompareFrom(env, spec, a, b, i + 1);
      assert r != 0 ==> exists k :: i <= k < |a| && k < |b| && r == env.collate(spec, a[k], b[k])
                                    && forall j :: i <= j < k ==> env.collate(spec, a[j], b[j]) == 0 by {
        if r != 0 {
          var k :| i + 1 <= k < |a| && k < |b| && r == env.collate(spec, a[k], b[k])
                   && forall j :: i + 1 <= j < k ==> env.collate(spec, a[j], b[j]) == 0;
          assert forall j :: i <= j < k ==> env.collate(spec, a[j], b[j]) == 0;
        }
      }
      r
  }

  /** The whole loop: the result variable starts at 1, which is what comes back when one of
      the lists is empty. */
  function CommonPrefixCompare(env: Env, spec: CollatorSpec, a: seq<string>, b: seq<string>): (r: Sign)
    ensures a == [] || b == [] ==> r == 1
    ensures a != [] && b != [] ==> r == CompareFrom(env, spec, a, b, 0)
  {
    if a == [] || b == [] then 1 else CompareFrom(env, spec, a, b, 0)
  }

  function DirectionSign(dir: Direction): Sign {
    if dir.Asc? then 1 else -1
  }

  /** `compare(o1, o2)`. */
  function Compare(env: Env, profiles: Profiles, axis: Axis, dir: Direction, o1: SortObject, o2: SortObject)
    : (r: Result<Sign>)
    ensures r.Ok? <==> CollatorOf(env, profiles, axis, o1).Ok?
    ensures r.Err? ==> r.failure == CollatorOf(env, profiles, axis, o1).failure
    ensures r.Ok? && (SortFields(o1, axis) == [] || SortFields(o2, axis) == []) ==> r.value == DirectionSign(dir)
    ensures r.Ok? && SortFields(o1, axis) != [] && SortFields(o2, axis) != [] ==>
              r.value == DirectionSign(dir)
                         * CompareFrom(env, CollatorOf(env, profiles, axis, o1).value, SortFields(o1, axis), SortFields(o2, axis), 0)
  {
    var spec :- CollatorOf(env, profiles, axis, o1);
    Ok(DirectionSign(dir) * CommonPrefixCompare(env, spec, SortFields(o1, axis), SortFields(o2, axis)))
  }

  /** The comparison as a total function, for entries whose comparison cannot fail. */
  function CompareValue(env: Env, profiles: Profiles, axis: Axis, dir: Direction, o1: SortObject, o2: SortObject): Sign {
    match Compare(env, profiles, axis, dir, o1, o2)
    case Ok(v) => v
    case Err(_) => 0
  }

  /** A descending comparison is the ascending one negated, failures included. */
  lemma DescendingNegatesAscending(env: Env, profiles: Profiles, axis: Axis, o1: SortObject, o2: SortObject)
    ensures Compare(env, profiles, axis, Desc, o1, o2).Ok? == Compare(env, profiles, axis, Asc, o1, o2).Ok?
    ensures Compare(env, profiles, axis, Asc, o1, o2).Ok? ==>
              Compare(env, profiles, axis, Desc, o1, o2).value == -Compare(env, profiles, axis, Asc, o1, o2).value
  {
  }

  /** When either entry has no sort fields on the axis, the comparison answers the
      direction's sign whichever way round it is asked: each entry compares as "after" the
      other when ascending and "before" it when descending, so the comparator is not
      antisymmetric on such entries. */
  lemma EmptyFieldsBreakAntisymmetry(env: Env, profiles: Profiles, axis: Axis, dir: Direction, o1: SortObject, o2: SortObject)
    requires CollatorOf(env, profiles, axis, o1).Ok? && CollatorOf(env, profiles, axis, o2).Ok?
    requires SortFields(o1, axis) == []
    ensures Compare(env, profiles, axis, dir, o1, o2) == Ok(DirectionSign(dir))
    ensures Compare(env, profiles, axis, dir, o2, o1) == Ok(DirectionSign(dir))
  {
  }

  /** The second entry's language codes are only logged: they do not change the result. */
  lemma SecondCodesIgnored(env: Env, profiles: Profiles, axis: Axis, dir: Direction, o1: SortObject, o2: SortObject,
                           codeL1: Option<string>, codeL2: Option<string>)
    ensures Compare(env, profiles, axis, dir, o1, o2)
            == Compare(env, profiles, axis, dir, o1, o2.(languageCodeL1 := codeL1, languageCodeL2 := codeL2))
  {
  }

  /** Swapping the lists negates the loop's answer when the collator is antisymmetric. */
  lemma {:induction false} CompareFromAntisymmetric(env: Env, spec: CollatorSpec, a: seq<string>, b: seq<string>, i: nat)
    requires i < |a| && i < |b|
    requires CollatorIsTotalPreorder(env, spec)
    ensures CompareFrom(env, spec, a, b, i) == -CompareFrom(env, spec, b, a, i)
    decreases |a| - i
  {
    assert env.collate(spec, a[i], b[i]) == -env.collate(spec, b[i], a[i]);
    if env.collate(spec, a[i], b[i]) == 0 && i + 1 < |a| && i + 1 < |b| {
      CompareFromAntisymmetric(env, spec, a, b, i + 1);
    }
  }

  /** What a total preorder gives for a strict step followed by a weak one, and for two
      equivalences. */
  lemma CollateSteps(env: Env, spec: CollatorSpec, x: string, y: string, z: string)
    requires CollatorIsTotalPreorder(env, spec)
    ensures env.collate(spec, x, y) < 0 && env.collate(spec, y, z) <= 0 ==> env.collate(spec, x, z) < 0
    ensures env.collate(spec, x, y) <= 0 && env.collate(spec, y, z) < 0 ==> env.collate(spec, x, z) < 0
    ensures env.collate(spec, x, y) == 0 && env.collate(spec, y, z) == 0 ==> env.collate(spec, x, z) == 0
  {
    assert env.collate(spec, x, y) == -env.collate(spec, y, x);
    assert env.collate(spec, y, z) == -env.collate(spec, z, y);
    assert env.collate(spec, x, z) == -env.collate(spec, z, x);
    if env.collate(spec, x, y) <= 0 && env.collate(spec, y, z) <= 0 {
      assert env.collate(spec, x, z) <= 0;
      if env.collate(spec, x, z) == 0 {
        assert env.collate(spec, z, x) <= 0;
        assert env.collate(spec, y, x) <= 0 by {
          assert env.collate(spec, y, z) <= 0 && env.collate(spec, z, x) <= 0;
        }
        assert env.collate(spec, z, y) <= 0 by {
          assert env.collate(spec, z, x) <= 0 && env.collate(spec, x, y) <= 0;
        }
      }
    }
  }

  /** On lists of one common length the loop's answer is transitive. */
  lemma {:induction false} CompareFromTransitive(env: Env, spec: CollatorSpec, a: seq<string>, b: seq<string>, c: seq<string>, i: nat)
    requires i < |a| && |a| == |b| == |c|
    requires CollatorIsTotalPreorder(env, spec)
    requires CompareFrom(env, spec, a, b, i) <= 0 && CompareFrom(env, spec, b, c, i) <= 0
    ensures CompareFrom(env, spec, a, c, i) <= 0
    decreases |a| - i
  {
    CollateSteps(env, spec, a[i], b[i], c[i]);
    var x := env.collate(spec, a[i], b[i]);
    var y := env.collate(spec, b[i], c[i]);
    if i + 1 < |a| && x == 0 && y == 0 {
      CompareFromTransitive(env, spec, a, b, c, i + 1);
    }
  }

  /** The entries a sort can order consistently: both codes set, the given language on the
      axis, and the given number of sort fields on the axis. */
  predicate Uniform(axis: Axis, code: string, n: nat, o: SortObject) {
    && o.languageCodeL1.Some? && o.languageCodeL2.Some?
    && LanguageCode(o, axis) == Some(code)
    && |SortFields(o, axis)| == n
  }

  /** On a uniform first entry with a working collator, the comparison is the directed loop. */
  lemma UniformCompareValue(env: Env, profiles: Profiles, axis: Axis, dir: Direction, code: string, n: nat,
                            a: SortObject, b: SortObject)
    requires code in profiles && n > 0 && MakeCollator(env, profiles[code]).Ok?
    requires Uniform(axis, code, n, a) && Uniform(axis, code, n, b)
    ensures CompareValue(env, profiles, axis, dir, a, b)
            == DirectionSign(dir) * CompareFrom(env, MakeCollator(env, profiles[code]).value, SortFields(a, axis), SortFields(b, axis), 0)
  {
    assert CollatorOf(env, profiles, axis, a) == MakeCollator(env, profiles[code]);
  }

  /** On entries of one language and one sort-field count, with a collator that is a total
      preorder, `compare` keeps the `Comparator` contract. */
  lemma CompareIsPreorderOnUniform(env: Env, profiles: Profiles, axis: Axis, dir: Direction, code: string, n: nat)
    requires code in profiles && n > 0
    requires MakeCollator(env, profiles[code]).Ok?
    requires CollatorIsTotalPreorder(env, MakeCollator(env, profiles[code]).value)
    ensures AntisymmetricOn((a, b) => CompareValue(env, profiles, axis, dir, a, b), o => Uniform(axis, code, n, o))
    ensures TransitiveOn((a, b) => CompareValue(env, profiles, axis, dir, a, b), o => Uniform(axis, code, n, o))
  {
    forall a, b | Uniform(axis, code, n, a) && Uniform(axis, code, n, b)
      ensures CompareValue(env, profiles, axis, dir, a, b) == -CompareValue(env, profiles, axis, dir, b, a)
    {
      UniformAntisymmetric(env, profiles, axis, dir, code, n, a, b);
    }
    forall a, b, c | Uniform(axis, code, n, a) && Uniform(axis, code, n, b) && Uniform(axis, code, n, c)
                     && CompareValue(env, profiles, axis, dir, a, b) <= 0
                     && CompareValue(env, profiles, axis, dir, b, c) <= 0
      ensures CompareValue(env, profiles, axis, dir, a, c) <= 0
    {
      UniformTransitive(env, profiles, axis, dir, code, n, a, b, c);
    }
  }

  lemma UniformAntisymmetric(env: Env, profiles: Profiles, axis: Axis, dir: Direction, code: string, n: nat,
                             a: SortObject, b: SortObject)
    requires code in profiles && n > 0
    requires MakeCollator(env, profiles[code]).Ok?
    requires CollatorIsTotalPreorder(env, MakeCollator(env, profiles[code]).value)
    requires Uniform(axis, code, n, a) && Uniform(axis, code, n, b)
    ensures CompareValue(env, profiles, axis, dir, a, b) == -CompareValue(env, profiles, axis, dir, b, a)
  {
    UniformCompareValue(env, profiles, axis, dir, code, n, a, b);
    UniformCompareValue(env, profiles, axis, dir, code, n, b, a);
    CompareFromAntisymmetric(env, MakeCollator(env, profiles[code]).value, SortFields(a, axis), SortFields(b, axis), 0);
  }

  lemma UniformTransitive(env: Env, profiles: Profiles, axis: Axis, dir: Direction, code: string, n: nat,
                          a: SortObject, b: SortObject, c: SortObject)
    requires code in profiles && n > 0
    requires MakeCollator(env, profiles[code]).Ok?
    requires CollatorIsTotalPreorder(env, MakeCollator(env, profiles[code]).value)
    requires Uniform(axis, code, n, a) && Uniform(axis, code, n, b) && Uniform(axis, code, n, c)
    requires CompareValue(env, profiles, axis, dir, a, b) <= 0 && CompareValue(env, profiles, axis, dir, b, c) <= 0
    ensures CompareValue(env, profiles, axis, dir, a, c) <= 0
  {
    var spec := MakeCollator(env, profiles[code]).value;
    var sa, sb, sc := SortFields(a, axis), SortFields(b, axis), SortFields(c, axis);
    UniformCompareValue(env, profiles, axis, dir, code, n, a, b);
    UniformCompareValue(env, profiles, axis, dir, code, n, b, c);
    UniformCompareValue(env, profiles, axis, dir, code, n, a, c);
    if dir.Asc? {
      CompareFromTransitive(env, spec, sa, sb, sc, 0);
    } else {
      CompareFromAntisymmetric(env, spec, sa, sb, 0);
      CompareFromAntisymmetric(env, spec, sb, sc, 0);
      CompareFromAntisymmetric(env, spec, sa, sc, 0);
      CompareFromTransitive(env, spec, sc, sb, sa, 0);
    }
  }
}
