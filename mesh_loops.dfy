/** The loop side of LoopedLandMesh: the looped index helpers, the walk that
    orders the border pixels into a loop (ComputeMaskLoop) and the decimation
    that keeps a target number of its points (DecimateLoop).  Everything here is
    pure; the methods of LoopedLandMesh are proved against these functions. */
module MeshLoops {
  import opened PixelBuffer

  /** GetLoopedIndex: an index one step below zero or at or past the end wraps
      into [0, itemCount).  Below -itemCount it does not wrap far enough. */
  function GetLoopedIndex(index: int, itemCount: nat): (r: int)
    requires index < itemCount || itemCount > 0
    ensures 0 <= index < itemCount ==> r == index
    ensures index < 0 <= index + itemCount ==> r == index + itemCount
    ensures itemCount <= index < 2 * itemCount ==> r == index - itemCount
    ensures 0 <= index + itemCount && itemCount > 0 ==> 0 <= r < itemCount
    ensures index + itemCount < 0 ==> r < 0
    ensures itemCount > 0 ==> (r - index) % itemCount == 0
  {
    if index < 0 then itemCount + index
    else if index >= itemCount then WrapCongruent(index, itemCount); index % itemCount
    else index
  }

  /** Reducing modulo n moves an index by a multiple of n. */
  lemma WrapCongruent(index: int, n: nat)
    requires n > 0
    ensures (index % n - index) % n == 0
  {
    var m := index % n - index;
    assert m == -(index / n) * n;
    LinearRunsDisjoint(m / n, m % n, -(index / n), 0, n);
  }

  // ---------------------------------------------------------------------
  // ComputeMaskLoop's walk

  /** The 8-neighbourhood in the order ComputeMaskLoop tries it. */
  const LOOP_SEARCH: seq<Int2> :=
    [Int2(-1, 0), Int2(-1, 1), Int2(0, 1), Int2(1, 1), Int2(1, 0), Int2(1, -1), Int2(0, -1), Int2(-1, -1)]

  /** The first direction, from the j-th on, leading from `pivot` to a point still
      in `remaining`; |LOOP_SEARCH| when there is none. */
  function FirstConnection(remaining: set<Int2>, pivot: Int2, j: nat): (r: nat)
    requires j <= |LOOP_SEARCH|
    decreases |LOOP_SEARCH| - j
    ensures j <= r <= |LOOP_SEARCH|
    ensures r < |LOOP_SEARCH| ==> pivot.Plus(LOOP_SEARCH[r]) in remaining
    ensures forall k :: j <= k < r ==> pivot.Plus(LOOP_SEARCH[k]) !in remaining
  {
    if j == |LOOP_SEARCH| then j
    else if pivot.Plus(LOOP_SEARCH[j]) in remaining then j
    else FirstConnection(remaining, pivot, j + 1)
  }

  /** The points the walk appends after `pivot`: it moves to the first
      neighbour still in `remaining`, takes it out, and stops when no neighbour
      is left. */
  function Walk(remaining: set<Int2>, pivot: Int2): seq<Int2>
    decreases |remaining|
  {
    var j := FirstConnection(remaining, pivot, 0);
    if j == |LOOP_SEARCH| then []
    else
      var next := pivot.Plus(LOOP_SEARCH[j]);
      [next] + Walk(remaining - {next}, next)
  }

  function Taken(w: seq<Int2>): set<Int2> {
    set x | x in w
  }

  /** The walk is the pivot followed by what it appended. */
  function MaskLoop(first: Int2, edges: set<Int2>): seq<Int2> {
    [first] + Walk(edges - {first}, first)
  }

  /** The walk takes only points of `remaining`. */
  lemma {:induction false} WalkInside(remaining: set<Int2>, pivot: Int2)
    ensures forall i :: 0 <= i < |Walk(remaining, pivot)| ==> Walk(remaining, pivot)[i] in remaining
    decreases |remaining|
  {
    var j := FirstConnection(remaining, pivot, 0);
    if j < |LOOP_SEARCH| {
      var next := pivot.Plus(LOOP_SEARCH[j]);
      var rest := remaining - {next};
      assert Walk(remaining, pivot) == [next] + Walk(rest, next);
      WalkInside(rest, next);
    }
  }

  /** The walk takes each point at most once. */
  lemma {:induction false} WalkDistinct(remaining: set<Int2>, pivot: Int2)
    ensures forall i, j :: 0 <= i < j < |Walk(remaining, pivot)| ==> Walk(remaining, pivot)[i] != Walk(remaining, pivot)[j]
    decreases |remaining|
  {
    var j := FirstConnection(remaining, pivot, 0);
    if j < |LOOP_SEARCH| {
      var next := pivot.Plus(LOOP_SEARCH[j]);
      var rest := remaining - {next};
      var tail := Walk(rest, next);
      assert Walk(remaining, pivot) == [next] + tail;
      WalkInside(rest, next);
      WalkDistinct(rest, next);
    }
  }

  /** Each point appended is one point taken out of the set. */
  lemma {:induction false} WalkCount(remaining: set<Int2>, pivot: Int2)
    ensures |Walk(remaining, pivot)| + |remaining - Taken(Walk(remaining, pivot))| == |remaining|
    decreases |remaining|
  {
    var w := Walk(remaining, pivot);
    var j := FirstConnection(remaining, pivot, 0);
    if j < |LOOP_SEARCH| {
      var next := pivot.Plus(LOOP_SEARCH[j]);
      var rest := remaining - {next};
      var tail := Walk(rest, next);
      assert w == [next] + tail;
      WalkCount(rest, next);
      assert remaining - Taken(w) == rest - Taken(tail);
      assert |rest| == |remaining| - 1;
    } else {
      assert remaining - Taken(w) == remaining;
    }
  }

  /** The point the walk stands on before taking its k-th point. */
  function Before(pivot: Int2, w: seq<Int2>, k: nat): Int2
    requires k <= |w|
  {
    if k == 0 then pivot else w[k - 1]
  }

  /** The k-th point of the walk is reached by the first direction in the
      table leading from the previous point to a point not yet taken. */
  lemma {:induction false} WalkStepAt(remaining: set<Int2>, pivot: Int2, k: nat)
    requires k < |Walk(remaining, pivot)|
    ensures var w := Walk(remaining, pivot);
      var j := FirstConnection(remaining - Taken(w[..k]), Before(pivot, w, k), 0);
      j < |LOOP_SEARCH| && w[k] == Before(pivot, w, k).Plus(LOOP_SEARCH[j])
    decreases k
  {
    var w := Walk(remaining, pivot);
    var j := FirstConnection(remaining, pivot, 0);
    var next := pivot.Plus(LOOP_SEARCH[j]);
    var rest := remaining - {next};
    var tail := Walk(rest, next);
    assert w == [next] + tail;
    if k == 0 {
      assert remaining - Taken(w[..0]) == remaining;
    } else {
      WalkStepAt(rest, next, k - 1);
      assert w[..k] == [next] + tail[..k - 1];
      assert remaining - Taken(w[..k]) == rest - Taken(tail[..k - 1]);
      assert Before(pivot, w, k) == Before(next, tail, k - 1);
    }
  }

  /** The walk ends exactly where no direction leads to a point not yet taken. */
  lemma {:induction false} WalkStopsAtDeadEnd(remaining: set<Int2>, pivot: Int2)
    ensures var w := Walk(remaining, pivot);
      FirstConnection(remaining - Taken(w), Before(pivot, w, |w|), 0) == |LOOP_SEARCH|
    decreases |remaining|
  {
    var w := Walk(remaining, pivot);
    var j := FirstConnection(remaining, pivot, 0);
    if j < |LOOP_SEARCH| {
      var next := pivot.Plus(LOOP_SEARCH[j]);
      var rest := remaining - {next};
      var tail := Walk(rest, next);
      assert w == [next] + tail;
      WalkStopsAtDeadEnd(rest, next);
      assert remaining - Taken(w) == rest - Taken(tail);
      assert Before(pivot, w, |w|) == Before(next, tail, |tail|);
    } else {
      assert remaining - Taken(w) == remaining;
    }
  }

  /** The mask loop starts at its pivot and holds only points of `edges`. */
  lemma MaskLoopInEdges(first: Int2, edges: set<Int2>)
    requires first in edges
    ensures MaskLoop(first, edges)[0] == first
    ensures forall i :: 0 <= i < |MaskLoop(first, edges)| ==> MaskLoop(first, edges)[i] in edges
  {
    var rest := edges - {first};
    assert MaskLoop(first, edges) == [first] + Walk(rest, first);
    WalkInside(rest, first);
  }

  /** No point occurs twice in the mask loop. */
  lemma MaskLoopDistinct(first: Int2, edges: set<Int2>)
    ensures forall i, j :: 0 <= i < j < |MaskLoop(first, edges)| ==> MaskLoop(first, edges)[i] != MaskLoop(first, edges)[j]
  {
    var rest := edges - {first};
    var w := Walk(rest, first);
    assert MaskLoop(first, edges) == [first] + w;
    WalkInside(rest, first);
    WalkDistinct(rest, first);
  }

  /** The mask loop takes one point out of the set per point it holds, so it
      holds no more than |edges|. */
  lemma MaskLoopCount(first: Int2, edges: set<Int2>)
    requires first in edges
    ensures |MaskLoop(first, edges)| + |edges - Taken(MaskLoop(first, edges))| == |edges|
  {
    var rest := edges - {first};
    var w := Walk(rest, first);
    var m := MaskLoop(first, edges);
    assert m == [first] + w;
    WalkCount(rest, first);
    assert edges - Taken(m) == rest - Taken(w);
    assert |rest| == |edges| - 1;
  }

  /** Each step of the mask loop moves by one entry of the neighbour table. */
  lemma MaskLoopSteps(first: Int2, edges: set<Int2>, k: nat)
    requires k + 1 < |MaskLoop(first, edges)|
    ensures exists j :: 0 <= j < |LOOP_SEARCH| && MaskLoop(first, edges)[k + 1] == MaskLoop(first, edges)[k].Plus(LOOP_SEARCH[j])
  {
    var rest := edges - {first};
    var w := Walk(rest, first);
    var m := MaskLoop(first, edges);
    assert m == [first] + w;
    WalkStepAt(rest, first, k);
    assert Before(first, w, k) == m[k];
    var j := FirstConnection(rest - Taken(w[..k]), Before(first, w, k), 0);
    assert m[k + 1] == w[k] == m[k].Plus(LOOP_SEARCH[j]);
  }

  // ---------------------------------------------------------------------
  // DecimateLoop

  /** IndexAndDecimateValue: a loop index with its score.  The score is the
      integer form of the source's float, see DecimateValue. */
  datatype IndexAndDecimateValue = IndexAndDecimateValue(index: nat, decimateValue: int)

  function Minus(a: Int2, b: Int2): Int2 { Int2(a.x - b.x, a.y - b.y) }

  function Dot(a: Int2, b: Int2): int { a.x * b.x + a.y * b.y }

  /** The score of point i: |dot(p[i] - p[i-1], p[i] - p[i+1])|, the next point
      taken around the loop.  Near-straight runs score high, corners low. */
  function DecimateValue(loop: seq<Int2>, i: nat): int
    requires 1 <= i < |loop|
  {
    var n := |loop|;
    var edgeA := Minus(loop[GetLoopedIndex(i, n)], loop[GetLoopedIndex(i - 1, n)]);
    var edgeB := Minus(loop[GetLoopedIndex(i, n)], loop[GetLoopedIndex(i + 1, n)]);
    Abs(Dot(edgeA, edgeB))
  }

  /** The list the scoring loop builds for indices 1 .. m, in index order. */
  function DecimateValues(loop: seq<Int2>, m: nat): (r: seq<IndexAndDecimateValue>)
    requires m < |loop|
    ensures |r| == m
  {
    if m == 0 then []
    else DecimateValues(loop, m - 1) + [IndexAndDecimateValue(m, DecimateValue(loop, m))]
  }

  /** The entries of the list are exactly the indices 1 .. m with their scores,
      and entry k holds index k + 1. */
  lemma {:induction false} DecimateValuesEntries(loop: seq<Int2>, m: nat)
    requires m < |loop|
    ensures |DecimateValues(loop, m)| == m
    ensures forall k :: 0 <= k < m ==> DecimateValues(loop, m)[k].index == k + 1
    ensures forall e :: e in DecimateValues(loop, m) <==>
      1 <= e.index <= m && e.decimateValue == DecimateValue(loop, e.index)
  {
    if m > 0 {
      DecimateValuesEntries(loop, m - 1);
      var prev := DecimateValues(loop, m - 1);
      var e := IndexAndDecimateValue(m, DecimateValue(loop, m));
      assert DecimateValues(loop, m) == prev + [e];
      forall x
        ensures x in DecimateValues(loop, m) <==> 1 <= x.index <= m && x.decimateValue == DecimateValue(loop, x.index)
      {
        if x in prev + [e] { assert x in prev || x == e; }
      }
    }
  }

  predicate SortedByValue(xs: seq<IndexAndDecimateValue>) {
    forall i, j :: 0 <= i < j < |xs| ==> xs[i].decimateValue <= xs[j].decimateValue
  }

  /** Insert x before the first entry scoring more than it. */
  function InsertByValue(x: IndexAndDecimateValue, xs: seq<IndexAndDecimateValue>): (r: seq<IndexAndDecimateValue>)
    requires SortedByValue(xs)
    ensures SortedByValue(r) && multiset(r) == multiset(xs) + multiset{x}
    ensures |r| == |xs| + 1
  {
    if xs == [] then [x]
    else if x.decimateValue <= xs[0].decimateValue then [x] + xs
    else
      var tail := InsertByValue(x, xs[1..]);
      InsertBehindHead(x, xs, tail);
      [xs[0]] + tail
  }

  /** Inserting behind the head of a sorted list keeps it sorted and adds x. */
  lemma InsertBehindHead(x: IndexAndDecimateValue, xs: seq<IndexAndDecimateValue>, tail: seq<IndexAndDecimateValue>)
    requires xs != [] && SortedByValue(xs) && xs[0].decimateValue < x.decimateValue
    requires SortedByValue(tail) && multiset(tail) == multiset(xs[1..]) + multiset{x}
    ensures SortedByValue([xs[0]] + tail)
    ensures multiset([xs[0]] + tail) == multiset(xs) + multiset{x}
  {
    assert xs == [xs[0]] + xs[1..];
    forall i | 0 <= i < |tail| ensures xs[0].decimateValue <= tail[i].decimateValue {
      assert tail[i] in multiset(tail);
      if tail[i] != x {
        assert tail[i] in multiset(xs[1..]);
        assert tail[i] in xs[1..];
      }
    }
  }

  /** List.Sort by CompareTo on the score: ascending, the order of equal scores
      being the library's.  Modelled by insertion, one admissible order. */
  function SortByValue(xs: seq<IndexAndDecimateValue>): (r: seq<IndexAndDecimateValue>)
    ensures SortedByValue(r) && multiset(r) == multiset(xs)
    ensures |r| == |xs|
  {
    if xs == [] then []
    else
      assert xs == [xs[0]] + xs[1..];
      InsertByValue(xs[0], SortByValue(xs[1..]))
  }

  /** The indices of the first k entries: the points to delete. */
  function FirstIndices(sorted: seq<IndexAndDecimateValue>, k: nat): set<nat>
    requires k <= |sorted|
  {
    set i | 0 <= i < k :: sorted[i].index
  }

  /** The loop's points at positions 0 .. n-1 that are not marked, in order. */
  function Unmarked(loop: seq<Int2>, marked: set<nat>, n: nat): seq<Int2>
    requires n <= |loop|
  {
    if n == 0 then []
    else Unmarked(loop, marked, n - 1) + (if n - 1 in marked then [] else [loop[n - 1]])
  }

  /** The positions Unmarked keeps, in order. */
  function KeptIndices(marked: set<nat>, n: nat): seq<nat> {
    if n == 0 then []
    else KeptIndices(marked, n - 1) + (if n - 1 in marked then [] else [n - 1])
  }

  /** What DecimateLoop returns once it decimates at all. */
  function Decimated(loop: seq<Int2>, itemCountTarget: int): seq<Int2>
    requires 3 <= itemCountTarget < |loop|
  {
    var sorted := SortByValue(DecimateValues(loop, |loop| - 1));
    Unmarked(loop, FirstIndices(sorted, |loop| - itemCountTarget), |loop|)
  }

  /** KeptIndices rise strictly and stay below n. */
  lemma {:induction false} KeptIndicesRise(marked: set<nat>, n: nat)
    ensures forall k :: 0 <= k < |KeptIndices(marked, n)| ==> KeptIndices(marked, n)[k] < n
    ensures forall k, l :: 0 <= k < l < |KeptIndices(marked, n)| ==> KeptIndices(marked, n)[k] < KeptIndices(marked, n)[l]
  {
    if n > 0 {
      KeptIndicesRise(marked, n - 1);
      var prev := KeptIndices(marked, n - 1);
      if n - 1 in marked {
        assert KeptIndices(marked, n) == prev;
      } else {
        var kept := prev + [n - 1];
        assert KeptIndices(marked, n) == kept;
        forall k, l | 0 <= k < l < |kept| ensures kept[k] < kept[l] {
          if l < |prev| {
            assert kept[k] == prev[k] && kept[l] == prev[l];
          }
        }
      }
    }
  }

  /** KeptIndices are exactly the unmarked positions below n. */
  lemma {:induction false} KeptIndicesUnmarked(marked: set<nat>, n: nat)
    ensures forall i :: 0 <= i < n ==> (i in KeptIndices(marked, n) <==> i !in marked)
  {
    if n > 0 {
      KeptIndicesUnmarked(marked, n - 1);
      KeptIndicesRise(marked, n - 1);
      var prev := KeptIndices(marked, n - 1);
      assert n - 1 !in prev;
      if n - 1 in marked {
        assert KeptIndices(marked, n) == prev;
      } else {
        assert KeptIndices(marked, n) == prev + [n - 1];
      }
    }
  }

  lemma {:induction false} UnmarkedLength(loop: seq<Int2>, marked: set<nat>, n: nat)
    requires n <= |loop|
    ensures |Unmarked(loop, marked, n)| == |KeptIndices(marked, n)|
  {
    if n > 0 {
      UnmarkedLength(loop, marked, n - 1);
    }
  }

  lemma {:induction false} UnmarkedAt(loop: seq<Int2>, marked: set<nat>, n: nat, k: nat)
    requires n <= |loop| && k < |KeptIndices(marked, n)|
    ensures |Unmarked(loop, marked, n)| == |KeptIndices(marked, n)|
    ensures KeptIndices(marked, n)[k] < n && Unmarked(loop, marked, n)[k] == loop[KeptIndices(marked, n)[k]]
  {
    UnmarkedLength(loop, marked, n);
    var prev := KeptIndices(marked, n - 1);
    var kept := Unmarked(loop, marked, n - 1);
    UnmarkedLength(loop, marked, n - 1);
    if n - 1 in marked {
      assert KeptIndices(marked, n) == prev;
      assert Unmarked(loop, marked, n) == kept;
      UnmarkedAt(loop, marked, n - 1, k);
    } else {
      assert KeptIndices(marked, n) == prev + [n - 1];
      assert Unmarked(loop, marked, n) == kept + [loop[n - 1]];
      if k < |prev| {
        UnmarkedAt(loop, marked, n - 1, k);
      }
    }
  }

  /** Unmarked is the loop read at KeptIndices. */
  lemma UnmarkedIsSubsequence(loop: seq<Int2>, marked: set<nat>, n: nat)
    requires n <= |loop|
    ensures |Unmarked(loop, marked, n)| == |KeptIndices(marked, n)|
    ensures forall k :: 0 <= k < |KeptIndices(marked, n)| ==>
      KeptIndices(marked, n)[k] < |loop| && Unmarked(loop, marked, n)[k] == loop[KeptIndices(marked, n)[k]]
  {
    UnmarkedLength(loop, marked, n);
    forall k | 0 <= k < |KeptIndices(marked, n)|
      ensures KeptIndices(marked, n)[k] < |loop| && Unmarked(loop, marked, n)[k] == loop[KeptIndices(marked, n)[k]]
    {
      UnmarkedAt(loop, marked, n, k);
    }
  }

  /** Unmarked drops one point per marked position below n. */
  lemma {:induction false} UnmarkedCount(loop: seq<Int2>, marked: set<nat>, n: nat)
    requires n <= |loop|
    ensures |Unmarked(loop, marked, n)| + |set i | i in marked && i < n| == n
  {
    if n > 0 {
      UnmarkedCount(loop, marked, n - 1);
      var below := set i | i in marked && i < n - 1;
      var upTo := set i | i in marked && i < n;
      if n - 1 in marked {
        assert upTo == below + {n - 1};
      } else {
        assert upTo == below;
      }
    }
  }

  /** A value at two positions of a sequence counts twice in its multiset. */
  lemma TwiceInMultiset<T>(s: seq<T>, i: nat, j: nat)
    requires i < j < |s| && s[i] == s[j]
    ensures multiset(s)[s[i]] >= 2
  {
    assert s == s[..j] + s[j..];
    assert s[i] in s[..j];
    assert s[j..][0] == s[j];
    assert multiset(s) == multiset(s[..j]) + multiset(s[j..]);
  }

  /** A value occurring once in a list of distinct values. */
  lemma {:induction false} OnceInDistinct(s: seq<IndexAndDecimateValue>, x: IndexAndDecimateValue)
    requires forall k :: 0 <= k < |s| ==> s[k].index == k + 1
    ensures multiset(s)[x] <= 1
  {
    if s != [] {
      var init := s[..|s| - 1];
      assert s == init + [s[|s| - 1]];
      forall k | 0 <= k < |init| ensures init[k].index == k + 1 { }
      OnceInDistinct(init, x);
      if x == s[|s| - 1] {
        assert forall k :: 0 <= k < |init| ==> init[k].index < x.index;
        assert x !in multiset(init);
      }
    }
  }

  /** A list holding the scored entries in any order: what the library sort
      may return. */
  predicate ScoreListOf(loop: seq<Int2>, xs: seq<IndexAndDecimateValue>)
    requires |loop| >= 1
  {
    multiset(xs) == multiset(DecimateValues(loop, |loop| - 1))
  }

  /** Such a list has one entry per index 1 .. |loop|-1, carrying its score. */
  lemma ScoreListEntries(loop: seq<Int2>, xs: seq<IndexAndDecimateValue>)
    requires |loop| >= 1 && ScoreListOf(loop, xs)
    ensures |xs| == |loop| - 1
    ensures forall k :: 0 <= k < |xs| ==> 1 <= xs[k].index < |loop| && xs[k].decimateValue == DecimateValue(loop, xs[k].index)
    ensures forall i :: 1 <= i < |loop| ==> IndexAndDecimateValue(i, DecimateValue(loop, i)) in xs
  {
    var values := DecimateValues(loop, |loop| - 1);
    DecimateValuesEntries(loop, |loop| - 1);
    assert |xs| == |multiset(xs)| == |multiset(values)| == |values|;
    forall k | 0 <= k < |xs|
      ensures 1 <= xs[k].index < |loop| && xs[k].decimateValue == DecimateValue(loop, xs[k].index)
    {
      assert xs[k] in multiset(xs);
      assert xs[k] in values;
    }
    forall i | 1 <= i < |loop| ensures IndexAndDecimateValue(i, DecimateValue(loop, i)) in xs {
      var e := IndexAndDecimateValue(i, DecimateValue(loop, i));
      assert e in values;
      assert e in multiset(xs);
    }
  }

  /** No index appears twice in such a list. */
  lemma ScoreListDistinct(loop: seq<Int2>, xs: seq<IndexAndDecimateValue>)
    requires |loop| >= 1 && ScoreListOf(loop, xs)
    ensures forall k, l :: 0 <= k < l < |xs| ==> xs[k].index != xs[l].index
  {
    ScoreListEntries(loop, xs);
    forall k, l | 0 <= k < l < |xs| ensures xs[k].index != xs[l].index {
      ScoreListPair(loop, xs, k, l);
    }
  }

  /** Two entries with the same index carry the same score, so they are the
      same entry, which the score multiset holds only once. */
  lemma ScoreListPair(loop: seq<Int2>, xs: seq<IndexAndDecimateValue>, k: nat, l: nat)
    requires |loop| >= 1 && ScoreListOf(loop, xs) && k < l < |xs|
    requires 1 <= xs[k].index < |loop| && 1 <= xs[l].index < |loop|
    requires xs[k].decimateValue == DecimateValue(loop, xs[k].index)
    requires xs[l].decimateValue == DecimateValue(loop, xs[l].index)
    ensures xs[k].index != xs[l].index
  {
    if xs[k].index == xs[l].index {
      TwiceInMultiset(xs, k, l);
      DecimateValuesEntries(loop, |loop| - 1);
      OnceInDistinct(DecimateValues(loop, |loop| - 1), xs[k]);
    }
  }

  /** Distinct indices give a set of the first k of them that has k elements. */
  lemma {:induction false} FirstIndicesCount(sorted: seq<IndexAndDecimateValue>, k: nat)
    requires k <= |sorted|
    requires forall a, b :: 0 <= a < b < |sorted| ==> sorted[a].index != sorted[b].index
    ensures |FirstIndices(sorted, k)| == k
  {
    if k > 0 {
      FirstIndicesCount(sorted, k - 1);
      assert FirstIndices(sorted, k) == FirstIndices(sorted, k - 1) + {sorted[k - 1].index};
      assert sorted[k - 1].index !in FirstIndices(sorted, k - 1);
    }
  }

  /** Deleting the first `count` entries of any sorted score list: every
      deleted point scores no more than any scored point that is kept. */
  lemma FirstIndicesScoreLowest(loop: seq<Int2>, sorted: seq<IndexAndDecimateValue>, count: nat, a: nat, b: nat)
    requires |loop| >= 1 && ScoreListOf(loop, sorted) && SortedByValue(sorted) && count <= |sorted|
    requires a in FirstIndices(sorted, count) && 1 <= b < |loop| && b !in FirstIndices(sorted, count)
    ensures 1 <= a < |loop| && DecimateValue(loop, a) <= DecimateValue(loop, b)
  {
    ScoreListEntries(loop, sorted);
    var x :| 0 <= x < count && sorted[x].index == a;
    var e := IndexAndDecimateValue(b, DecimateValue(loop, b));
    var y :| 0 <= y < |sorted| && sorted[y] == e;
    assert forall z :: 0 <= z < count ==> sorted[z].index in FirstIndices(sorted, count);
    assert y >= count;
    assert sorted[x].decimateValue <= sorted[y].decimateValue;
  }

  /** Deleting the first `count` entries of any score list leaves
      |loop| - count points, the loop's first point first among them. */
  lemma FirstIndicesKeep(loop: seq<Int2>, sorted: seq<IndexAndDecimateValue>, count: nat)
    requires |loop| >= 1 && ScoreListOf(loop, sorted) && count <= |sorted| && count < |loop|
    ensures |Unmarked(loop, FirstIndices(sorted, count), |loop|)| == |loop| - count
    ensures Unmarked(loop, FirstIndices(sorted, count), |loop|)[0] == loop[0]
  {
    var n := |loop|;
    var del := FirstIndices(sorted, count);
    ScoreListEntries(loop, sorted);
    ScoreListDistinct(loop, sorted);
    FirstIndicesCount(sorted, count);
    assert forall x :: x in del ==> 1 <= x < n;
    assert (set i | i in del && i < n) == del;
    UnmarkedCount(loop, del, n);
    UnmarkedKeepsFirst(loop, del, n);
  }

  /** With position 0 unmarked, Unmarked starts with the loop's first point. */
  lemma {:induction false} UnmarkedKeepsFirst(loop: seq<Int2>, marked: set<nat>, n: nat)
    requires 1 <= n <= |loop| && 0 !in marked
    ensures |Unmarked(loop, marked, n)| >= 1 && Unmarked(loop, marked, n)[0] == loop[0]
  {
    if n == 1 {
      assert Unmarked(loop, marked, 0) == [];
    } else {
      UnmarkedKeepsFirst(loop, marked, n - 1);
    }
  }

  /** Decimation keeps exactly the target number of points, the first one
      among them: index 0 is never scored, so never deleted. */
  lemma DecimatedCount(loop: seq<Int2>, itemCountTarget: int)
    requires 3 <= itemCountTarget < |loop|
    ensures |Decimated(loop, itemCountTarget)| == itemCountTarget
    ensures Decimated(loop, itemCountTarget)[0] == loop[0]
  {
    var sorted := SortByValue(DecimateValues(loop, |loop| - 1));
    FirstIndicesKeep(loop, sorted, |loop| - itemCountTarget);
  }

  /** The points decimation keeps are the loop read at the kept positions. */
  lemma DecimatedReadsKept(loop: seq<Int2>, itemCountTarget: int)
    requires 3 <= itemCountTarget < |loop|
    ensures var kept := KeptIndices(FirstIndices(SortByValue(DecimateValues(loop, |loop| - 1)), |loop| - itemCountTarget), |loop|);
      |kept| == |Decimated(loop, itemCountTarget)| &&
      forall k :: 0 <= k < |kept| ==> kept[k] < |loop| && Decimated(loop, itemCountTarget)[k] == loop[kept[k]]
  {
    var sorted := SortByValue(DecimateValues(loop, |loop| - 1));
    UnmarkedIsSubsequence(loop, FirstIndices(sorted, |loop| - itemCountTarget), |loop|);
  }

  /** The kept positions rise strictly and are exactly the undeleted ones, so
      decimation keeps the surviving points in their loop order. */
  lemma DecimatedKeepsOrder(loop: seq<Int2>, itemCountTarget: int)
    requires 3 <= itemCountTarget < |loop|
    ensures var del := FirstIndices(SortByValue(DecimateValues(loop, |loop| - 1)), |loop| - itemCountTarget);
      var kept := KeptIndices(del, |loop|);
      (forall k, l :: 0 <= k < l < |kept| ==> kept[k] < kept[l]) &&
      (forall i :: 0 <= i < |loop| ==> (i in kept <==> i !in del))
  {
    var sorted := SortByValue(DecimateValues(loop, |loop| - 1));
    KeptIndicesRise(FirstIndices(sorted, |loop| - itemCountTarget), |loop|);
    KeptIndicesUnmarked(FirstIndices(sorted, |loop| - itemCountTarget), |loop|);
  }

  /** Every deleted point scores no more than any kept point other than the
      first: the lowest scores go. */
  lemma DecimatedDropsLowest(loop: seq<Int2>, itemCountTarget: int, a: nat, b: nat)
    requires 3 <= itemCountTarget < |loop|
    requires var del := FirstIndices(SortByValue(DecimateValues(loop, |loop| - 1)), |loop| - itemCountTarget);
      a in del && 1 <= b < |loop| && b !in del
    ensures 1 <= a < |loop| && DecimateValue(loop, a) <= DecimateValue(loop, b)
  {
    var sorted := SortByValue(DecimateValues(loop, |loop| - 1));
    FirstIndicesScoreLowest(loop, sorted, |loop| - itemCountTarget, a, b);
  }

  /** DecimateLoop: the loop itself below a target of 3 or when it is no
      longer than the target, its decimation otherwise. */
  function DecimatedLoop(loop: seq<Int2>, itemCountTarget: int): seq<Int2> {
    if itemCountTarget < 3 || |loop| <= itemCountTarget then loop else Decimated(loop, itemCountTarget)
  }

  /** A decimated loop is never longer than the loop, never empty when the loop
      is not, and starts where the loop starts. */
  lemma DecimatedLoopShape(loop: seq<Int2>, itemCountTarget: int)
    requires loop != []
    ensures var r := DecimatedLoop(loop, itemCountTarget);
      0 < |r| <= |loop| && r[0] == loop[0]
  {
    if 3 <= itemCountTarget < |loop| {
      DecimatedCount(loop, itemCountTarget);
    }
  }
}
