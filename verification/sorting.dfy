/** Java's `Collections.sort` and `List.sort`, which hand the elements to `TimSort`. On an
    array shorter than `MinMerge` TimSort merges nothing: it finds the leading run, reverses
    it when it is strictly descending, and binary-inserts every later element into the
    sorted prefix. That procedure is what this module models, for every length. The
    comparator answers like `Comparator.compare`, or fails where the Java comparator
    throws, and the first failing comparison is the sort's failure. */
module Sorting {
  import opened Results

  /** `TimSort.MIN_MERGE`: below this length no runs are merged. */
  const MinMerge := 32

  /** Every element is ordered no later than every element after it. */
  predicate SortedBy<T>(s: seq<T>, cmp: (T, T) -> int) {
    forall i, j :: 0 <= i < j < |s| ==> cmp(s[i], s[j]) <= 0
  }

  /** Every element is ordered no later than its right neighbour. */
  predicate AdjacentSorted<T>(s: seq<T>, cmp: (T, T) -> int) {
    forall i :: 0 < i < |s| ==> cmp(s[i - 1], s[i]) <= 0
  }

  /** Every element satisfies `ok`. */
  predicate AllOk<T>(s: seq<T>, ok: T -> bool) {
    forall i :: 0 <= i < |s| ==> ok(s[i])
  }

  /** `Comparator`'s sign contract on the elements `ok` admits: swapping the arguments negates. */
  ghost predicate AntisymmetricOn<T(!new)>(cmp: (T, T) -> int, ok: T -> bool) {
    forall a, b {:trigger cmp(a, b)} :: ok(a) && ok(b) ==> cmp(a, b) == -cmp(b, a)
  }

  /** `Comparator`'s transitivity contract on the elements `ok` admits. */
  ghost predicate TransitiveOn<T(!new)>(cmp: (T, T) -> int, ok: T -> bool) {
    forall a, b, c {:trigger cmp(a, b), cmp(b, c)} ::
      ok(a) && ok(b) && ok(c) && cmp(a, b) <= 0 && cmp(b, c) <= 0 ==> cmp(a, c) <= 0
  }

  /** The comparator never fails on the elements `ok` admits, and answers `v` there. */
  ghost predicate AnswersOn<T(!new)>(cmp: (T, T) -> Result<int>, v: (T, T) -> int, ok: T -> bool) {
    forall a, b {:trigger cmp(a, b)} :: ok(a) && ok(b) ==> cmp(a, b) == Ok(v(a, b))
  }

  /** The elements in reverse order. */
  function Reverse<T>(s: seq<T>): (r: seq<T>)
    ensures |r| == |s| && multiset(r) == multiset(s)
    ensures forall i :: 0 <= i < |s| ==> r[i] == s[|s| - 1 - i]
  {
    if s == [] then []
    else
      assert s == [s[0]] + s[1..];
      Reverse(s[1..]) + [s[0]]
  }

  //---------------------------------------------------------------------------------
  // countRunAndMakeAscending

  /** Element `k` continues its predecessor's run: it compares below the predecessor in a
      descending run, and not below it in an ascending one. */
  predicate InRun<T>(s: seq<T>, cmp: (T, T) -> Result<int>, descending: bool, k: nat)
    requires 1 <= k < |s|
  {
    cmp(s[k], s[k - 1]).Ok? && (cmp(s[k], s[k - 1]).value < 0 <==> descending)
  }

  /** The loop of `countRunAndMakeAscending` from position `i` on: the run goes on while each
      element continues it, each element being compared with its predecessor. */
  function RunEnd<T>(s: seq<T>, cmp: (T, T) -> Result<int>, descending: bool, i: nat): (r: Result<nat>)
    requires 1 <= i <= |s|
    ensures r.Ok? ==> i <= r.value <= |s|
    ensures r.Ok? ==> forall k :: i <= k < r.value ==> InRun(s, cmp, descending, k)
    ensures r.Ok? && r.value < |s| ==> cmp(s[r.value], s[r.value - 1]).Ok? && !InRun(s, cmp, descending, r.value)
    ensures r.Err? ==> exists k :: i <= k < |s| && cmp(s[k], s[k - 1]) == Err(r.failure)
    decreases |s| - i
  {
    if i == |s| then Ok(i)
    else
      var c :- cmp(s[i], s[i - 1]);
      if (c < 0) == descending then RunEnd(s, cmp, descending, i + 1) else Ok(i)
  }

  /** The leading run: its length, and whether it is strictly descending. */
  datatype Run = Run(length: nat, descending: bool)

  /** `countRunAndMakeAscending`'s search: the comparison of the second element with the
      first decides the direction, and the run lasts as long as it goes on that way. */
  function LeadingRun<T>(s: seq<T>, cmp: (T, T) -> Result<int>): (r: Result<Run>)
    requires |s| >= 2
    ensures r.Ok? ==> 2 <= r.value.length <= |s|
    ensures r.Ok? ==> forall k :: 1 <= k < r.value.length ==> InRun(s, cmp, r.value.descending, k)
    ensures r.Ok? && r.value.length < |s| ==>
              cmp(s[r.value.length], s[r.value.length - 1]).Ok? && !InRun(s, cmp, r.value.descending, r.value.length)
    ensures r.Err? ==> exists k :: 1 <= k < |s| && cmp(s[k], s[k - 1]) == Err(r.failure)
  {
    var c :- cmp(s[1], s[0]);
    var end :- RunEnd(s, cmp, c < 0, 2);
    Ok(Run(end, c < 0))
  }

  /** The array after `countRunAndMakeAscending`: a descending run is reversed in place. */
  function MakeAscending<T>(s: seq<T>, run: Run): (a: seq<T>)
    requires run.length <= |s|
    ensures |a| == |s| && multiset(a) == multiset(s)
    ensures forall k :: run.length <= k < |s| ==> a[k] == s[k]
    ensures forall k :: 0 <= k < run.length ==> a[k] == if run.descending then s[run.length - 1 - k] else s[k]
  {
    if run.descending then
      assert s == s[..run.length] + s[run.length..];
      Reverse(s[..run.length]) + s[run.length..]
    else s
  }

  //---------------------------------------------------------------------------------
  // binarySort

  /** `binarySort`'s search for the place of `pivot` in `a[left..right]`: the range is halved,
      going left when `pivot` compares below the middle element and right otherwise, so
      `pivot` ends up after every element it does not compare below. */
  function InsertionPoint<T>(a: seq<T>, pivot: T, cmp: (T, T) -> Result<int>, left: nat, right: nat): (r: Result<nat>)
    requires left <= right <= |a|
    ensures r.Ok? ==> left <= r.value <= right
    ensures r.Ok? && left < right ==> cmp(pivot, a[(left + right) / 2]).Ok?
    ensures r.Err? ==> exists k :: left <= k < right && cmp(pivot, a[k]) == Err(r.failure)
    decreases right - left
  {
    if left == right then Ok(left)
    else
      var mid := (left + right) / 2;
      var c :- cmp(pivot, a[mid]);
      if c < 0 then InsertionPoint(a, pivot, cmp, left, mid)
      else InsertionPoint(a, pivot, cmp, mid + 1, right)
  }

  /** Where the element at position `k` came from, once the element at `start` has moved to
      `pos` and the ones in between have shifted one place right. */
  function Origin(pos: nat, start: nat, k: nat): nat {
    if k < pos || k > start then k else if k == pos then start else k - 1
  }

  /** `binarySort`'s shift: the element at `start` moves to `pos`, and the elements from `pos`
      up to it move one place right. */
  function Place<T>(a: seq<T>, start: nat, pos: nat): (r: seq<T>)
    requires pos <= start < |a|
    ensures |r| == |a| && multiset(r) == multiset(a)
    ensures forall k :: 0 <= k < |a| ==> Origin(pos, start, k) < |a| && r[k] == a[Origin(pos, start, k)]
  {
    assert a == a[..pos] + a[pos..start] + [a[start]] + a[start + 1..];
    a[..pos] + [a[start]] + a[pos..start] + a[start + 1..]
  }

  /** `binarySort` from `start` on: every later element is placed into the sorted prefix. */
  function BinaryInsertFrom<T>(a: seq<T>, start: nat, cmp: (T, T) -> Result<int>): (r: Result<seq<T>>)
    requires 1 <= start <= |a|
    ensures r.Ok? ==> |r.value| == |a| && multiset(r.value) == multiset(a)
    decreases |a| - start
  {
    if start == |a| then Ok(a)
    else
      var pos :- InsertionPoint(a, a[start], cmp, 0, start);
      BinaryInsertFrom(Place(a, start, pos), start + 1, cmp)
  }

  /** `TimSort.sort` as it runs below `MinMerge` elements: nothing happens to fewer than two
      elements; otherwise the leading run is made ascending and the rest binary-inserted. */
  function TimSort<T>(s: seq<T>, cmp: (T, T) -> Result<int>): (r: Result<seq<T>>)
    ensures |s| < 2 ==> r == Ok(s)
    ensures r.Ok? ==> |r.value| == |s| && multiset(r.value) == multiset(s)
  {
    if |s| < 2 then Ok(s)
    else
      var run :- LeadingRun(s, cmp);
      BinaryInsertFrom(MakeAscending(s, run), run.length, cmp)
  }

  //---------------------------------------------------------------------------------
  // Which comparisons are made

  /** Each element from `start` on is the first argument of a comparison that answers (the
      first step of the search that places it), so it has whatever property `good` every
      such first argument has. */
  lemma {:induction false} BinaryInsertCompared<T>(a: seq<T>, start: nat, cmp: (T, T) -> Result<int>, good: T -> bool)
    requires 1 <= start <= |a|
    requires forall x, y {:trigger cmp(x, y)} :: cmp(x, y).Ok? ==> good(x)
    requires BinaryInsertFrom(a, start, cmp).Ok?
    ensures forall i :: start <= i < |a| ==> good(a[i])
    decreases |a| - start
  {
    if start < |a| {
      var pos := InsertionPoint(a, a[start], cmp, 0, start).value;
      assert cmp(a[start], a[start / 2]).Ok?;
      var b := Place(a, start, pos);
      BinaryInsertCompared(b, start + 1, cmp, good);
      forall i | start < i < |a| ensures good(a[i]) {
        assert Origin(pos, start, i) == i;
        assert b[i] == a[i];
      }
    }
  }

  /** A failure of binary insertion is the failure of a comparison whose first argument is
      an element from `start` on: `i` and `j` name the two elements. */
  lemma {:induction false} BinaryInsertFailure<T>(a: seq<T>, start: nat, cmp: (T, T) -> Result<int>) returns (i: nat, j: nat)
    requires 1 <= start <= |a|
    requires BinaryInsertFrom(a, start, cmp).Err?
    ensures start <= i < |a| && j < |a| && cmp(a[i], a[j]) == Err(BinaryInsertFrom(a, start, cmp).failure)
    decreases |a| - start
  {
    var search := InsertionPoint(a, a[start], cmp, 0, start);
    if search.Ok? {
      var pos := search.value;
      var b := Place(a, start, pos);
      var f := BinaryInsertFrom(b, start + 1, cmp).failure;
      var i', j' := BinaryInsertFailure(b, start + 1, cmp);
      assert Origin(pos, start, i') == i';
      i, j := i', Origin(pos, start, j');
    } else {
      var k :| 0 <= k < start && cmp(a[start], a[k]) == Err(search.failure);
      i, j := start, k;
    }
  }

  /** Every element but the first is the first argument of a comparison that answers: the
      run search compares each run element with its predecessor, and binary insertion
      compares each later element with the prefix. So each has whatever property `good`
      every such first argument has. */
  lemma TimSortCompared<T>(s: seq<T>, cmp: (T, T) -> Result<int>, good: T -> bool)
    requires forall x, y {:trigger cmp(x, y)} :: cmp(x, y).Ok? ==> good(x)
    requires TimSort(s, cmp).Ok?
    ensures forall i :: 1 <= i < |s| ==> good(s[i])
  {
    if |s| >= 2 {
      var run := LeadingRun(s, cmp).value;
      var a := MakeAscending(s, run);
      assert BinaryInsertFrom(a, run.length, cmp).Ok?;
      BinaryInsertCompared(a, run.length, cmp, good);
      forall i | 1 <= i < |s| ensures good(s[i]) {
        if i < run.length {
          assert InRun(s, cmp, run.descending, i);
        } else {
          assert a[i] == s[i];
        }
      }
    }
  }

  /** A failure of the sort is the failure of a comparison whose first argument is not the
      first element, which is only ever compared as the second argument: `i` and `j` name
      the two elements. */
  lemma TimSortFailure<T>(s: seq<T>, cmp: (T, T) -> Result<int>) returns (i: nat, j: nat)
    requires TimSort(s, cmp).Err?
    ensures 1 <= i < |s| && j < |s| && cmp(s[i], s[j]) == Err(TimSort(s, cmp).failure)
  {
    var lead := LeadingRun(s, cmp);
    if lead.Err? {
      var k :| 1 <= k < |s| && cmp(s[k], s[k - 1]) == Err(lead.failure);
      i, j := k, k - 1;
    } else {
      var run := lead.value;
      var a := MakeAscending(s, run);
      assert TimSort(s, cmp) == BinaryInsertFrom(a, run.length, cmp);
      var i', j' := BinaryInsertFailure(a, run.length, cmp);
      assert a[i'] == s[i'];
      i := i';
      if run.descending && j' < run.length {
        j := run.length - 1 - j';
        assert a[j'] == s[run.length - 1 - j'];
      } else {
        j := j';
        assert a[j'] == s[j'];
      }
    }
  }

  //---------------------------------------------------------------------------------
  // Order of the result

  /** A strict step followed by a weak one is strict, for a comparator keeping its contract. */
  lemma StrictStep<T(!new)>(v: (T, T) -> int, ok: T -> bool, x: T, y: T, z: T)
    requires ok(x) && ok(y) && ok(z) && AntisymmetricOn(v, ok) && TransitiveOn(v, ok)
    requires v(x, y) < 0 && v(y, z) <= 0
    ensures v(x, z) < 0
  {
    assert v(z, x) == -v(x, z) && v(y, x) == -v(x, y);
    assert v(y, z) <= 0 && v(z, x) <= 0 ==> v(y, x) <= 0;
  }

  /** The leading run, made ascending, is in order. */
  lemma AscendingRunSorted<T(!new)>(s: seq<T>, cmp: (T, T) -> Result<int>, v: (T, T) -> int, ok: T -> bool, run: Run)
    requires |s| >= 2 && LeadingRun(s, cmp) == Ok(run)
    requires AllOk(s, ok) && AnswersOn(cmp, v, ok) && AntisymmetricOn(v, ok)
    ensures AdjacentSorted(MakeAscending(s, run)[..run.length], v)
  {
    var a := MakeAscending(s, run);
    var p := a[..run.length];
    forall m | 0 < m < |p| ensures v(p[m - 1], p[m]) <= 0 {
      if run.descending {
        var k := run.length - m;
        assert InRun(s, cmp, true, k);
        assert ok(s[k]) && ok(s[k - 1]);
        assert p[m - 1] == s[k] && p[m] == s[k - 1];
      } else {
        assert InRun(s, cmp, false, m);
        assert ok(s[m]) && ok(s[m - 1]);
        assert v(s[m - 1], s[m]) == -v(s[m], s[m - 1]);
      }
    }
  }

  /** The search keeps its invariant on an ordered prefix `a[..start]`: nothing left of `left`
      is above `pivot`, everything from `right` up to `start` is. */
  /** One halving step of the binary search. */
  lemma InsertionPointStep<T>(a: seq<T>, pivot: T, cmp: (T, T) -> Result<int>, left: nat, right: nat)
    requires left < right <= |a| && cmp(pivot, a[(left + right) / 2]).Ok?
    ensures var mid := (left + right) / 2;
            InsertionPoint(a, pivot, cmp, left, right)
            == if cmp(pivot, a[mid]).value < 0 then InsertionPoint(a, pivot, cmp, left, mid)
               else InsertionPoint(a, pivot, cmp, mid + 1, right)
  {
  }

  /** The binary search finds the point where the pivot's comparisons with the prefix change
      sign: `signs` holds their answers, not negative before `split` and negative from it on. */
  lemma {:induction false} InsertionPointAtSignChange<T>(a: seq<T>, pivot: T, cmp: (T, T) -> Result<int>,
                                                        signs: seq<int>, split: nat, left: nat, right: nat)
    requires left <= split <= right <= |signs| <= |a|
    requires forall k :: left <= k < right ==> cmp(pivot, a[k]) == Ok(signs[k])
    requires forall k :: left <= k < split ==> signs[k] >= 0
    requires forall k :: split <= k < right ==> signs[k] < 0
    ensures InsertionPoint(a, pivot, cmp, left, right) == Ok(split)
    decreases right - left
  {
    if left < right {
      var mid := (left + right) / 2;
      InsertionPointStep(a, pivot, cmp, left, right);
      if signs[mid] < 0 {
        InsertionPointAtSignChange(a, pivot, cmp, signs, split, left, mid);
      } else {
        InsertionPointAtSignChange(a, pivot, cmp, signs, split, mid + 1, right);
      }
    }
  }

  /** The first position from `i` on, below `right`, whose sign is negative; `right` when there
      is none. */
  function FirstNegative(signs: seq<int>, i: nat, right: nat): (r: nat)
    requires i <= right <= |signs|
    ensures i <= r <= right
    ensures forall k :: i <= k < r ==> signs[k] >= 0
    ensures r < right ==> signs[r] < 0
    decreases right - i
  {
    if i == right || signs[i] < 0 then i else FirstNegative(signs, i + 1, right)
  }

  /** In an ordered prefix the pivot's comparisons change sign at most once. */
  lemma PivotSignMonotone<T(!new)>(a: seq<T>, pivot: T, v: (T, T) -> int, ok: T -> bool, start: nat)
    requires start <= |a|
    requires AllOk(a, ok) && ok(pivot) && AntisymmetricOn(v, ok) && TransitiveOn(v, ok)
    requires forall p, q :: 0 <= p < q < start ==> v(a[p], a[q]) <= 0
    ensures forall k, m :: 0 <= k <= m < start && v(pivot, a[k]) < 0 ==> v(pivot, a[m]) < 0
  {
    forall k, m | 0 <= k < m < start && v(pivot, a[k]) < 0 ensures v(pivot, a[m]) < 0 {
      assert ok(a[k]) && ok(a[m]);
      StrictStep(v, ok, pivot, a[k], a[m]);
    }
  }

  lemma InsertionPointSplits<T(!new)>(a: seq<T>, pivot: T, cmp: (T, T) -> Result<int>,
                                      v: (T, T) -> int, ok: T -> bool, left: nat, right: nat, start: nat)
    requires left <= right <= start <= |a|
    requires AllOk(a, ok) && ok(pivot)
    requires AnswersOn(cmp, v, ok) && AntisymmetricOn(v, ok) && TransitiveOn(v, ok)
    requires forall p, q :: 0 <= p < q < start ==> v(a[p], a[q]) <= 0
    requires forall k :: 0 <= k < left ==> v(pivot, a[k]) >= 0
    requires forall k :: right <= k < start ==> v(pivot, a[k]) < 0
    ensures InsertionPoint(a, pivot, cmp, left, right).Ok?
    ensures var p := InsertionPoint(a, pivot, cmp, left, right).value;
            && (forall k :: 0 <= k < p ==> v(pivot, a[k]) >= 0)
            && (forall k :: p <= k < start ==> v(pivot, a[k]) < 0)
  {
    var signs := seq(start, k requires 0 <= k < start => v(pivot, a[k]));
    forall k | 0 <= k < start ensures cmp(pivot, a[k]) == Ok(signs[k]) {
      assert ok(a[k]);
    }
    var split := FirstNegative(signs, left, right);
    PivotSignMonotone(a, pivot, v, ok, start);
    forall k | split <= k < start ensures signs[k] < 0 {
      if k < right {
        assert signs[split] < 0;
      }
    }
    InsertionPointAtSignChange(a, pivot, cmp, signs, split, left, right);
  }

  /** Placing the element at `start` where the search puts it keeps the prefix in order. */
  lemma PlaceSorted<T(!new)>(a: seq<T>, start: nat, pos: nat, v: (T, T) -> int, ok: T -> bool)
    requires pos <= start < |a|
    requires AllOk(a, ok) && AntisymmetricOn(v, ok)
    requires AdjacentSorted(a[..start], v)
    requires forall k :: 0 <= k < pos ==> v(a[start], a[k]) >= 0
    requires forall k :: pos <= k < start ==> v(a[start], a[k]) < 0
    ensures AdjacentSorted(Place(a, start, pos)[..start + 1], v)
  {
    var b := Place(a, start, pos);
    var p := b[..start + 1];
    forall m | 0 < m < |p| ensures v(p[m - 1], p[m]) <= 0 {
      assert p[m - 1] == b[m - 1] && p[m] == b[m];
      assert Origin(pos, start, m - 1) < |a| && Origin(pos, start, m) < |a|;
      if m < pos {
        assert a[..start][m - 1] == a[m - 1] && a[..start][m] == a[m];
      } else if m == pos {
        assert ok(a[start]) && ok(a[m - 1]);
        assert v(a[m - 1], a[start]) == -v(a[start], a[m - 1]);
      } else if m == pos + 1 {
        assert b[m - 1] == a[start] && b[m] == a[pos];
      } else {
        assert b[m - 1] == a[m - 2] && b[m] == a[m - 1];
        assert a[..start][m - 2] == a[m - 2] && a[..start][m - 1] == a[m - 1];
      }
    }
  }

  /** Binary insertion into an ordered prefix leaves the whole array in order. */
  lemma {:induction false} BinaryInsertSorted<T(!new)>(a: seq<T>, start: nat, cmp: (T, T) -> Result<int>,
                                                       v: (T, T) -> int, ok: T -> bool)
    requires 1 <= start <= |a|
    requires AllOk(a, ok) && AnswersOn(cmp, v, ok) && AntisymmetricOn(v, ok) && TransitiveOn(v, ok)
    requires AdjacentSorted(a[..start], v)
    ensures BinaryInsertFrom(a, start, cmp).Ok?
    ensures AdjacentSorted(BinaryInsertFrom(a, start, cmp).value, v)
    decreases |a| - start
  {
    if start == |a| {
      assert a[..start] == a;
    } else {
      var prefix := a[..start];
      assert AllOk(prefix, ok);
      AdjacentSortedIsSorted(prefix, v, ok);
      forall p, q | 0 <= p < q < start ensures v(a[p], a[q]) <= 0 {
        assert prefix[p] == a[p] && prefix[q] == a[q];
      }
      InsertionPointSplits(a, a[start], cmp, v, ok, 0, start, start);
      var pos := InsertionPoint(a, a[start], cmp, 0, start).value;
      var b := Place(a, start, pos);
      PlaceSorted(a, start, pos, v, ok);
      AllOkPermutation(a, b, ok);
      BinaryInsertSorted(b, start + 1, cmp, v, ok);
    }
  }

  /** With a comparator that never fails on the elements and keeps `Comparator`'s contract
      there, the sort succeeds and its result is in order. */
  lemma TimSortSorted<T(!new)>(s: seq<T>, cmp: (T, T) -> Result<int>, v: (T, T) -> int, ok: T -> bool)
    requires AllOk(s, ok) && AnswersOn(cmp, v, ok) && AntisymmetricOn(v, ok) && TransitiveOn(v, ok)
    ensures TimSort(s, cmp).Ok?
    ensures SortedBy(TimSort(s, cmp).value, v)
  {
    if |s| >= 2 {
      var run := LeadingRun(s, cmp).value;
      AscendingRunSorted(s, cmp, v, ok, run);
      var a := MakeAscending(s, run);
      AllOkPermutation(s, a, ok);
      BinaryInsertSorted(a, run.length, cmp, v, ok);
      var sorted := BinaryInsertFrom(a, run.length, cmp).value;
      AllOkPermutation(a, sorted, ok);
      AdjacentSortedIsSorted(sorted, v, ok);
    }
  }

  /** With a transitive comparator, neighbour order is order between any two positions. */
  lemma {:induction false} AdjacentSortedIsSorted<T(!new)>(s: seq<T>, cmp: (T, T) -> int, ok: T -> bool)
    requires AdjacentSorted(s, cmp)
    requires AllOk(s, ok) && TransitiveOn(cmp, ok)
    ensures SortedBy(s, cmp)
  {
    if |s| > 1 {
      var init := s[..|s| - 1];
      AdjacentSortedIsSorted(init, cmp, ok);
      forall i | 0 <= i < |s| - 1
        ensures cmp(s[i], s[|s| - 1]) <= 0
      {
        if i < |s| - 2 {
          assert cmp(s[i], s[|s| - 2]) <= 0 by {
            assert init[i] == s[i] && init[|s| - 2] == s[|s| - 2];
          }
          assert ok(s[i]) && ok(s[|s| - 2]) && ok(s[|s| - 1]);
        }
      }
    }
  }

  //---------------------------------------------------------------------------------
  // Stability

  /** A weak step followed by a strict one is strict, for a comparator keeping its contract. */
  lemma WeakThenStrict<T(!new)>(v: (T, T) -> int, ok: T -> bool, x: T, y: T, z: T)
    requires ok(x) && ok(y) && ok(z) && AntisymmetricOn(v, ok) && TransitiveOn(v, ok)
    requires v(x, y) <= 0 && v(y, z) < 0
    ensures v(x, z) < 0
  {
    assert v(z, x) == -v(x, z) && v(z, y) == -v(y, z);
    assert v(z, x) <= 0 && v(x, y) <= 0 ==> v(z, y) <= 0;
  }

  /** The comparator's answer with ties broken by `pos`. When `pos` is each element's input
      position, this is the order a stable sort produces. */
  function TieBroken<T>(v: (T, T) -> int, pos: T -> nat, x: T, y: T): int {
    if v(x, y) != 0 then v(x, y) else if pos(x) < pos(y) then -1 else if pos(x) == pos(y) then 0 else 1
  }

  function TieBreak<T>(v: (T, T) -> int, pos: T -> nat): (T, T) -> int {
    (x, y) => TieBroken(v, pos, x, y)
  }

  /** Breaking ties keeps the comparator's contract. */
  lemma TieBreakKeepsContract<T(!new)>(v: (T, T) -> int, pos: T -> nat, ok: T -> bool)
    requires AntisymmetricOn(v, ok) && TransitiveOn(v, ok)
    ensures AntisymmetricOn(TieBreak(v, pos), ok) && TransitiveOn(TieBreak(v, pos), ok)
  {
    var w := TieBreak(v, pos);
    forall a, b | ok(a) && ok(b) ensures w(a, b) == -w(b, a) {
      assert v(a, b) == -v(b, a);
    }
    forall a, b, c | ok(a) && ok(b) && ok(c) && w(a, b) <= 0 && w(b, c) <= 0
      ensures w(a, c) <= 0
    {
      assert v(a, b) <= 0 && v(b, c) <= 0;
      if v(a, b) < 0 {
        StrictStep(v, ok, a, b, c);
      } else if v(b, c) < 0 {
        WeakThenStrict(v, ok, a, b, c);
      } else {
        assert v(a, c) <= 0;
        assert pos(a) <= pos(b) <= pos(c);
      }
    }
  }

  /** The leading run, made ascending, is in order with ties kept in input order: an
      ascending run only continues at elements not below their predecessor, and a
      descending one only at elements strictly below it. */
  lemma AscendingRunStable<T(!new)>(s: seq<T>, cmp: (T, T) -> Result<int>, v: (T, T) -> int, ok: T -> bool,
                                    pos: T -> nat, run: Run)
    requires |s| >= 2 && LeadingRun(s, cmp) == Ok(run)
    requires AllOk(s, ok) && AnswersOn(cmp, v, ok) && AntisymmetricOn(v, ok)
    requires forall i :: 0 <= i < |s| ==> pos(s[i]) == i
    ensures AdjacentSorted(MakeAscending(s, run)[..run.length], TieBreak(v, pos))
  {
    var a := MakeAscending(s, run);
    var p := a[..run.length];
    forall m | 0 < m < |p| ensures TieBreak(v, pos)(p[m - 1], p[m]) <= 0 {
      if run.descending {
        var k := run.length - m;
        assert InRun(s, cmp, true, k);
        assert ok(s[k]) && ok(s[k - 1]);
        assert p[m - 1] == s[k] && p[m] == s[k - 1];
      } else {
        assert InRun(s, cmp, false, m);
        assert ok(s[m]) && ok(s[m - 1]);
        assert v(s[m - 1], s[m]) == -v(s[m], s[m - 1]);
        assert p[m - 1] == s[m - 1] && p[m] == s[m];
      }
    }
  }

  /** The prefix up to `start` holds elements from input positions before `start`, and every
      element from `start` on is still at its input position. */
  predicate PositionsFrom<T>(a: seq<T>, pos: T -> nat, start: nat) {
    && (forall k :: 0 <= k < start && k < |a| ==> pos(a[k]) < start)
    && (forall k :: start <= k < |a| ==> pos(a[k]) == k)
  }

  /** A prefix in tie-broken order is in comparator order. */
  lemma TieBrokenPrefixOrdered<T(!new)>(a: seq<T>, start: nat, v: (T, T) -> int, ok: T -> bool, pos: T -> nat)
    requires start <= |a|
    requires AllOk(a, ok) && AntisymmetricOn(v, ok) && TransitiveOn(v, ok)
    requires AdjacentSorted(a[..start], TieBreak(v, pos))
    ensures forall p, q :: 0 <= p < q < start ==> v(a[p], a[q]) <= 0
  {
    var w := TieBreak(v, pos);
    TieBreakKeepsContract(v, pos, ok);
    var prefix := a[..start];
    assert AllOk(prefix, ok);
    AdjacentSortedIsSorted(prefix, w, ok);
    forall p, q | 0 <= p < q < start ensures v(a[p], a[q]) <= 0 {
      assert prefix[p] == a[p] && prefix[q] == a[q];
      assert w(prefix[p], prefix[q]) <= 0;
    }
  }

  /** Where the search puts the pivot, it compares after everything to its left, ties
      included, and strictly before everything to its right, in tie-broken order. */
  lemma StableInsertionPoint<T(!new)>(a: seq<T>, start: nat, cmp: (T, T) -> Result<int>,
                                      v: (T, T) -> int, ok: T -> bool, pos: T -> nat)
    requires 1 <= start < |a|
    requires AllOk(a, ok) && AnswersOn(cmp, v, ok) && AntisymmetricOn(v, ok) && TransitiveOn(v, ok)
    requires AdjacentSorted(a[..start], TieBreak(v, pos))
    requires PositionsFrom(a, pos, start)
    ensures InsertionPoint(a, a[start], cmp, 0, start).Ok?
    ensures var at := InsertionPoint(a, a[start], cmp, 0, start).value;
            && (forall k :: 0 <= k < at ==> TieBreak(v, pos)(a[start], a[k]) >= 0)
            && (forall k :: at <= k < start ==> TieBreak(v, pos)(a[start], a[k]) < 0)
  {
    TieBrokenPrefixOrdered(a, start, v, ok, pos);
    InsertionPointSplits(a, a[start], cmp, v, ok, 0, start, start);
    var at := InsertionPoint(a, a[start], cmp, 0, start).value;
    forall k | 0 <= k < at ensures TieBreak(v, pos)(a[start], a[k]) >= 0 {
      assert pos(a[k]) < start == pos(a[start]);
    }
  }

  /** Placing the element at `start` extends the prefix of earlier positions by one. */
  lemma PlaceKeepsPositions<T>(a: seq<T>, pos: T -> nat, start: nat, at: nat)
    requires at <= start < |a|
    requires PositionsFrom(a, pos, start)
    ensures PositionsFrom(Place(a, start, at), pos, start + 1)
  {
    var b := Place(a, start, at);
    forall k | 0 <= k < start + 1 ensures pos(b[k]) < start + 1 {
      assert Origin(at, start, k) <= start;
    }
    forall k | start + 1 <= k < |b| ensures pos(b[k]) == k {
      assert Origin(at, start, k) == k;
    }
  }

  /** Binary insertion keeps ties in input order: the pivot comes from a later position than
      every prefix element, and the search puts it after every element it does not compare
      below. */
  lemma {:induction false} BinaryInsertStable<T(!new)>(a: seq<T>, start: nat, cmp: (T, T) -> Result<int>,
                                                       v: (T, T) -> int, ok: T -> bool, pos: T -> nat)
    requires 1 <= start <= |a|
    requires AllOk(a, ok) && AnswersOn(cmp, v, ok) && AntisymmetricOn(v, ok) && TransitiveOn(v, ok)
    requires AdjacentSorted(a[..start], TieBreak(v, pos))
    requires PositionsFrom(a, pos, start)
    ensures BinaryInsertFrom(a, start, cmp).Ok?
    ensures AdjacentSorted(BinaryInsertFrom(a, start, cmp).value, TieBreak(v, pos))
    decreases |a| - start
  {
    if start == |a| {
      assert a[..start] == a;
    } else {
      StableInsertionPoint(a, start, cmp, v, ok, pos);
      var at := InsertionPoint(a, a[start], cmp, 0, start).value;
      TieBreakKeepsContract(v, pos, ok);
      PlaceSorted(a, start, at, TieBreak(v, pos), ok);
      var b := Place(a, start, at);
      AllOkPermutation(a, b, ok);
      PlaceKeepsPositions(a, pos, start, at);
      BinaryInsertStable(b, start + 1, cmp, v, ok, pos);
    }
  }

  /** Reversing a descending leading run moves its elements only within the run. */
  lemma AscendingRunPositions<T>(s: seq<T>, pos: T -> nat, run: Run)
    requires run.length <= |s|
    requires forall i :: 0 <= i < |s| ==> pos(s[i]) == i
    ensures PositionsFrom(MakeAscending(s, run), pos, run.length)
  {
    var a := MakeAscending(s, run);
    forall k | 0 <= k < run.length ensures pos(a[k]) < run.length {
      if run.descending {
        assert a[k] == s[run.length - 1 - k];
      } else {
        assert a[k] == s[k];
      }
    }
    forall k | run.length <= k < |a| ensures pos(a[k]) == k {
      assert a[k] == s[k];
    }
  }

  /** Under a comparator keeping its contract, and with `pos` giving each element's input
      position, the sorted list is in order with ties kept in input order. */
  lemma TimSortTieBroken<T(!new)>(s: seq<T>, cmp: (T, T) -> Result<int>, v: (T, T) -> int, ok: T -> bool,
                                  pos: T -> nat)
    requires AllOk(s, ok) && AnswersOn(cmp, v, ok) && AntisymmetricOn(v, ok) && TransitiveOn(v, ok)
    requires forall i :: 0 <= i < |s| ==> pos(s[i]) == i
    ensures TimSort(s, cmp).Ok?
    ensures SortedBy(TimSort(s, cmp).value, TieBreak(v, pos))
  {
    TimSortSorted(s, cmp, v, ok);
    if |s| >= 2 {
      var run := LeadingRun(s, cmp).value;
      AscendingRunStable(s, cmp, v, ok, pos, run);
      var a := MakeAscending(s, run);
      AllOkPermutation(s, a, ok);
      AscendingRunPositions(s, pos, run);
      BinaryInsertStable(a, run.length, cmp, v, ok, pos);
      var sorted := BinaryInsertFrom(a, run.length, cmp).value;
      AllOkPermutation(a, sorted, ok);
      TieBreakKeepsContract(v, pos, ok);
      AdjacentSortedIsSorted(sorted, TieBreak(v, pos), ok);
    }
  }

  /** `f` applied to every element. */
  function MapSeq<A, B>(s: seq<A>, f: A -> B): (r: seq<B>)
    ensures |r| == |s| && forall i :: 0 <= i < |s| ==> r[i] == f(s[i])
  {
    seq(|s|, i requires 0 <= i < |s| => f(s[i]))
  }

  /** A successful outcome with `f` applied to every element. */
  function MapOk<A, B>(r: Result<seq<A>>, f: A -> B): Result<seq<B>> {
    match r
    case Ok(x) => Ok(MapSeq(x, f))
    case Err(e) => Err(e)
  }

  /** The comparator on `f`'s images. */
  function Pull<A, B>(cmp: (B, B) -> Result<int>, f: A -> B): (A, A) -> Result<int> {
    (x, y) => cmp(f(x), f(y))
  }

  /** The run search only looks at the elements through the comparator, so it runs alike on
      the images of a list under `f` and on the list itself with the comparator pulled back. */
  lemma {:induction false} RunEndMap<A, B>(s: seq<A>, f: A -> B, cmp: (B, B) -> Result<int>, descending: bool, i: nat)
    requires 1 <= i <= |s|
    ensures RunEnd(MapSeq(s, f), cmp, descending, i) == RunEnd(s, Pull(cmp, f), descending, i)
    decreases |s| - i
  {
    if i < |s| {
      RunEndMap(s, f, cmp, descending, i + 1);
    }
  }

  lemma {:induction false} InsertionPointMap<A, B>(a: seq<A>, pivot: A, f: A -> B, cmp: (B, B) -> Result<int>,
                                                   left: nat, right: nat)
    requires left <= right <= |a|
    ensures InsertionPoint(MapSeq(a, f), f(pivot), cmp, left, right) == InsertionPoint(a, pivot, Pull(cmp, f), left, right)
    decreases right - left
  {
    if left < right {
      var mid := (left + right) / 2;
      assert MapSeq(a, f)[mid] == f(a[mid]);
      assert Pull(cmp, f)(pivot, a[mid]) == cmp(f(pivot), f(a[mid]));
      InsertionPointMap(a, pivot, f, cmp, left, mid);
      InsertionPointMap(a, pivot, f, cmp, mid + 1, right);
    }
  }

  lemma {:induction false} BinaryInsertMap<A, B>(a: seq<A>, f: A -> B, cmp: (B, B) -> Result<int>, start: nat)
    requires 1 <= start <= |a|
    ensures BinaryInsertFrom(MapSeq(a, f), start, cmp) == MapOk(BinaryInsertFrom(a, start, Pull(cmp, f)), f)
    decreases |a| - start
  {
    if start < |a| {
      var fa := MapSeq(a, f);
      InsertionPointMap(a, a[start], f, cmp, 0, start);
      var search := InsertionPoint(a, a[start], Pull(cmp, f), 0, start);
      if search.Ok? {
        var b := Place(a, start, search.value);
        assert Place(fa, start, search.value) == MapSeq(b, f);
        BinaryInsertMap(b, f, cmp, start + 1);
      }
    }
  }

  /** The sort runs alike on the images of a list and on the list with the comparator pulled
      back: it only ever moves elements and compares them. */
  lemma TimSortMap<A, B>(s: seq<A>, f: A -> B, cmp: (B, B) -> Result<int>)
    ensures TimSort(MapSeq(s, f), cmp) == MapOk(TimSort(s, Pull(cmp, f)), f)
  {
    var fs := MapSeq(s, f);
    if |s| < 2 {
      assert fs == MapSeq(s, f);
    } else {
      RunEndMap(s, f, cmp, Pull(cmp, f)(s[1], s[0]).Ok? && Pull(cmp, f)(s[1], s[0]).value < 0, 2);
      var lead := LeadingRun(s, Pull(cmp, f));
      assert LeadingRun(fs, cmp) == lead;
      if lead.Ok? {
        var a := MakeAscending(s, lead.value);
        assert MakeAscending(fs, lead.value) == MapSeq(a, f);
        BinaryInsertMap(a, f, cmp, lead.value.length);
      }
    }
  }

  /** The order on `f`'s images. */
  function PullOrder<A, B>(v: (B, B) -> int, f: A -> B): (A, A) -> int {
    (x, y) => v(f(x), f(y))
  }

  /** The property of `f`'s images. */
  function PullOk<A, B>(ok: B -> bool, f: A -> B): A -> bool {
    x => ok(f(x))
  }

  /** Pulling back along `f` keeps the comparator's contract. */
  lemma PullKeepsContract<A(!new), B(!new)>(cmp: (B, B) -> Result<int>, v: (B, B) -> int, ok: B -> bool, f: A -> B)
    requires AnswersOn(cmp, v, ok) && AntisymmetricOn(v, ok) && TransitiveOn(v, ok)
    ensures AnswersOn(Pull(cmp, f), PullOrder(v, f), PullOk(ok, f))
    ensures AntisymmetricOn(PullOrder(v, f), PullOk(ok, f)) && TransitiveOn(PullOrder(v, f), PullOk(ok, f))
  {
    var pv := PullOrder(v, f);
    var pok := PullOk(ok, f);
    forall a, b | pok(a) && pok(b) ensures Pull(cmp, f)(a, b) == Ok(pv(a, b)) && pv(a, b) == -pv(b, a) {
      assert cmp(f(a), f(b)) == Ok(v(f(a), f(b)));
      assert v(f(a), f(b)) == -v(f(b), f(a));
    }
    forall a, b, c | pok(a) && pok(b) && pok(c) && pv(a, b) <= 0 && pv(b, c) <= 0
      ensures pv(a, c) <= 0
    {
      assert v(f(a), f(b)) <= 0 && v(f(b), f(c)) <= 0;
    }
  }

  /** The positions `0` to `n - 1` in order. */
  function Positions(n: nat): (r: seq<nat>)
    ensures |r| == n && forall i :: 0 <= i < n ==> r[i] == i
  {
    seq(n, i => i)
  }

  /** The element at a position of the list, `d` past its end. */
  function ElementAt<T>(s: seq<T>, d: T): nat -> T {
    (i: nat) => if i < |s| then s[i] else d
  }

  function Identity(i: nat): nat {
    i
  }

  /** A reordering of the positions in tie-broken order is an order of the list's
      elements: each position occurs once, and equal elements keep their input order. */
  lemma StableOrder<T(!new)>(s: seq<T>, v: (T, T) -> int, ok: T -> bool, order: seq<nat>)
    requires |s| > 0 && AllOk(s, ok) && AntisymmetricOn(v, ok)
    requires multiset(order) == multiset(Positions(|s|))
    requires SortedBy(order, TieBreak(PullOrder(v, ElementAt(s, s[0])), Identity))
    ensures |order| == |s| && Distinct(order)
    ensures forall k :: 0 <= k < |s| ==> order[k] < |s|
    ensures forall p, q :: 0 <= p < |s| && 0 <= q < |s| && order[p] < order[q] && v(s[order[p]], s[order[q]]) == 0 ==> p < q
  {
    var n := |s|;
    var idx := Positions(n);
    assert |order| == |multiset(order)| == n;
    PermutationKeepsDistinctKeys(idx, order, Identity);
    forall k | 0 <= k < n ensures order[k] < n {
      assert order[k] in multiset(idx);
    }
    var pv := PullOrder(v, ElementAt(s, s[0]));
    forall p, q | 0 <= p < n && 0 <= q < n && order[p] < order[q] && v(s[order[p]], s[order[q]]) == 0
      ensures p < q
    {
      assert ok(s[order[p]]) && ok(s[order[q]]);
      assert pv(order[q], order[p]) == v(s[order[q]], s[order[p]]) == -v(s[order[p]], s[order[q]]) == 0;
      var x, y := order[q], order[p];
      assert q < p ==> TieBreak(pv, Identity)(x, y) <= 0;
    }
  }

  /** `TimSort` is stable: `order[k]` is the input position of the `k`-th sorted element,
      each input position occurs once, and elements that compare equal come out in their
      input order. */
  lemma TimSortStable<T(!new)>(s: seq<T>, cmp: (T, T) -> Result<int>, v: (T, T) -> int, ok: T -> bool)
    returns (order: seq<nat>)
    requires AllOk(s, ok) && AnswersOn(cmp, v, ok) && AntisymmetricOn(v, ok) && TransitiveOn(v, ok)
    ensures TimSort(s, cmp).Ok?
    ensures |order| == |s| && Distinct(order)
    ensures forall k :: 0 <= k < |s| ==> order[k] < |s| && TimSort(s, cmp).value[k] == s[order[k]]
    ensures forall p, q :: 0 <= p < |s| && 0 <= q < |s| && order[p] < order[q] && v(s[order[p]], s[order[q]]) == 0 ==> p < q
  {
    TimSortSorted(s, cmp, v, ok);
    if |s| < 2 {
      order := Positions(|s|);
    } else {
      var f := ElementAt(s, s[0]);
      var idx := Positions(|s|);
      assert MapSeq(idx, f) == s;
      TimSortMap(idx, f, cmp);
      PullKeepsContract(cmp, v, ok, f);
      forall i | 0 <= i < |idx| ensures PullOk(ok, f)(idx[i]) {
        assert f(idx[i]) == s[i];
      }
      TimSortTieBroken(idx, Pull(cmp, f), PullOrder(v, f), PullOk(ok, f), Identity);
      order := TimSort(idx, Pull(cmp, f)).value;
      assert TimSort(s, cmp).value == MapSeq(order, f);
      StableOrder(s, v, ok, order);
    }
  }

  //---------------------------------------------------------------------------------
  // Inputs with a known outcome

  lemma {:induction false} AscendingRunCovers<T(!new)>(s: seq<T>, cmp: (T, T) -> Result<int>, v: (T, T) -> int,
                                                       ok: T -> bool, i: nat)
    requires 1 <= i <= |s|
    requires AdjacentSorted(s, v) && AllOk(s, ok) && AnswersOn(cmp, v, ok) && AntisymmetricOn(v, ok)
    ensures RunEnd(s, cmp, false, i) == Ok(|s|)
    decreases |s| - i
  {
    if i < |s| {
      assert ok(s[i]) && ok(s[i - 1]);
      assert v(s[i], s[i - 1]) == -v(s[i - 1], s[i]);
      AscendingRunCovers(s, cmp, v, ok, i + 1);
    }
  }

  /** The sort is stable in the sense that an input already in order is one ascending run,
      and comes back unchanged. */
  lemma SortedInputUnchanged<T(!new)>(s: seq<T>, cmp: (T, T) -> Result<int>, v: (T, T) -> int, ok: T -> bool)
    requires AdjacentSorted(s, v)
    requires AllOk(s, ok) && AnswersOn(cmp, v, ok) && AntisymmetricOn(v, ok)
    ensures TimSort(s, cmp) == Ok(s)
  {
    if |s| >= 2 {
      assert ok(s[1]) && ok(s[0]);
      assert v(s[1], s[0]) == -v(s[0], s[1]);
      AscendingRunCovers(s, cmp, v, ok, 2);
      assert LeadingRun(s, cmp) == Ok(Run(|s|, false));
    }
  }

  lemma {:induction false} DescendingRunCovers<T>(s: seq<T>, cmp: (T, T) -> Result<int>, i: nat)
    requires 1 <= i <= |s|
    requires forall k :: 1 <= k < |s| ==> cmp(s[k], s[k - 1]).Ok? && cmp(s[k], s[k - 1]).value < 0
    ensures RunEnd(s, cmp, true, i) == Ok(|s|)
    decreases |s| - i
  {
    if i < |s| {
      DescendingRunCovers(s, cmp, i + 1);
    }
  }

  /** An input in which every element compares below its predecessor is one descending run:
      it is reversed and nothing else is compared, whatever the comparator answers for
      elements that are not neighbours. */
  lemma DescendingInputReversed<T>(s: seq<T>, cmp: (T, T) -> Result<int>)
    requires |s| >= 2
    requires forall k :: 1 <= k < |s| ==> cmp(s[k], s[k - 1]).Ok? && cmp(s[k], s[k - 1]).value < 0
    ensures TimSort(s, cmp) == Ok(Reverse(s))
  {
    DescendingRunCovers(s, cmp, 2);
    assert LeadingRun(s, cmp) == Ok(Run(|s|, true));
    assert s[..|s|] == s;
    assert MakeAscending(s, Run(|s|, true)) == Reverse(s);
  }

  //---------------------------------------------------------------------------------
  // Multisets and keys

  /** Reordering keeps every element, so it keeps `AllOk`. */
  lemma AllOkPermutation<T>(s: seq<T>, t: seq<T>, ok: T -> bool)
    requires multiset(s) == multiset(t) && AllOk(s, ok)
    ensures AllOk(t, ok)
  {
    forall i | 0 <= i < |t| ensures ok(t[i]) {
      assert t[i] in multiset(s);
      var j :| 0 <= j < |s| && s[j] == t[i];
    }
  }

  /** No element occurs twice. */
  predicate Distinct<T(==)>(s: seq<T>) {
    forall p, q :: 0 <= p < q < |s| ==> s[p] != s[q]
  }

  lemma OccursTwice<T>(t: seq<T>, p: nat, q: nat)
    requires p < q < |t|
    ensures t[p] == t[q] ==> multiset(t)[t[p]] >= 2
  {
    assert t == t[..q] + [t[q]] + t[q + 1..];
    assert t[..q][p] == t[p];
    assert t[p] in multiset(t[..q]);
  }

  lemma {:induction false} DistinctOccursOnce<T>(s: seq<T>, x: T)
    requires Distinct(s)
    ensures multiset(s)[x] <= 1
  {
    if s != [] {
      assert Distinct(s[1..]) by {
        forall p, q | 0 <= p < q < |s[1..]| ensures s[1..][p] != s[1..][q] {
          assert s[1..][p] == s[p + 1] && s[1..][q] == s[q + 1];
        }
      }
      DistinctOccursOnce(s[1..], x);
      assert s == [s[0]] + s[1..];
      forall i | 0 <= i < |s[1..]| ensures s[1..][i] != s[0] {
        assert s[1..][i] == s[i + 1];
      }
      assert s[0] !in multiset(s[1..]);
    }
  }

  /** A reordering of a list whose elements differ pairwise in `key` differs pairwise too. */
  lemma PermutationKeepsDistinctKeys<T, K>(s: seq<T>, t: seq<T>, key: T -> K)
    requires multiset(s) == multiset(t)
    requires forall p, q :: 0 <= p < q < |s| ==> key(s[p]) != key(s[q])
    ensures forall p, q :: 0 <= p < q < |t| ==> key(t[p]) != key(t[q])
  {
    assert Distinct(s);
    forall p, q | 0 <= p < q < |t| ensures key(t[p]) != key(t[q]) {
      OccursTwice(t, p, q);
      DistinctOccursOnce(s, t[p]);
      assert t[p] in multiset(s) && t[q] in multiset(s);
      var p' :| 0 <= p' < |s| && s[p'] == t[p];
      var q' :| 0 <= q' < |s| && s[q'] == t[q];
      assert p' != q';
      if p' < q' {
        assert key(s[p']) != key(s[q']);
      } else {
        assert key(s[q']) != key(s[p']);
      }
    }
  }
}
