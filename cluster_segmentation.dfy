/** The controller's cluster segmentation (EnvironmentHeightMapController.
    ComputeClustersProcess): a row-major seed search and a breadth-first flood
    fill over a packed RGBA32 buffer that writes a cluster id and a visited flag
    into each pixel it reaches, records each cluster's bounding box and value
    range, and finally runs the merge pass. */
module ClusterSegmentation {
  import opened PixelBuffer
  import opened ClusterMerge

  datatype Option<T> = None | Some(value: T)

  /** The readback is RGBA32: value, cluster id, visited flag, active mask. */
  const CHANNELS: nat := 4

  /** The 4-connected neighbour table of the flood fill, in the source's order. */
  const SEARCH_DIRECTIONS: seq<Int2> := [Int2(-1, 0), Int2(0, 1), Int2(1, 0), Int2(0, -1)]

  const DEFAULT_DIFFERENCE_THRESHOLD: byte := 5

  /** Ids start at 5 and grow by 5 per cluster. */
  const ID_STEP: int := 5

  function Value(d: seq<byte>, size: Int2, p: Int2): byte { Channel(d, size, CHANNELS, p, HEIGHT) }
  function Id(d: seq<byte>, size: Int2, p: Int2): byte { Channel(d, size, CHANNELS, p, CLUSTER_ID) }
  function Visited(d: seq<byte>, size: Int2, p: Int2): byte { Channel(d, size, CHANNELS, p, VISITED) }
  function Mask(d: seq<byte>, size: Int2, p: Int2): byte { Channel(d, size, CHANNELS, p, MASK) }

  /** A pixel the seed search may still pick: inside the image, not visited, active. */
  predicate Pending(d: seq<byte>, size: Int2, p: Int2) {
    InImage(size, p) && Visited(d, size, p) == 0 && Mask(d, size, p) != 0
  }

  ghost function PendingSet(d: seq<byte>, size: Int2): set<Int2> {
    set x, y | 0 <= x < size.x && 0 <= y < size.y && Pending(d, size, Int2(x, y)) :: Int2(x, y)
  }

  lemma PendingSetMembers(d: seq<byte>, size: Int2, p: Int2)
    ensures p in PendingSet(d, size) <==> Pending(d, size, p)
  {
    if Pending(d, size, p) {
      assert p == Int2(p.x, p.y);
    }
  }

  /** Row-major order, the order of the seed search. */
  predicate RowMajorBefore(q: Int2, p: Int2) {
    q.y < p.y || (q.y == p.y && q.x < p.x)
  }

  function Neighbour(p: Int2, i: nat): Int2
    requires i < |SEARCH_DIRECTIONS|
  {
    p.Plus(SEARCH_DIRECTIONS[i])
  }

  /** The enqueue test for neighbour `q` of the pixel `p` being processed: in
      range, a value within the threshold of p's, and active. */
  predicate Qualifies(d: seq<byte>, size: Int2, threshold: int, p: Int2, q: Int2) {
    InImage(size, q) && Abs(Value(d, size, p) as int - Value(d, size, q) as int) <= threshold && Mask(d, size, q) != 0
  }

  /** `(byte)currentClusterId` of the k-th cluster (counting from 0). */
  function ClusterIdByte(k: nat): byte {
    (ID_STEP * (k + 1)) % 256
  }

  predicate Painted(d: seq<byte>, size: Int2, p: Int2, id: byte) {
    Id(d, size, p) == id && Visited(d, size, p) == 255
  }

  ghost function Union(ms: seq<set<Int2>>): set<Int2> {
    if ms == [] then {} else Union(ms[..|ms| - 1]) + ms[|ms| - 1]
  }

  lemma {:induction false} UnionMembers(ms: seq<set<Int2>>, p: Int2)
    ensures p in Union(ms) <==> exists k :: 0 <= k < |ms| && p in ms[k]
  {
    if ms != [] {
      var init := ms[..|ms| - 1];
      UnionMembers(init, p);
      if p in Union(init) {
        var k :| 0 <= k < |init| && p in init[k];
        assert ms[k] == init[k];
      }
      if exists k :: 0 <= k < |ms| && p in ms[k] {
        var k :| 0 <= k < |ms| && p in ms[k];
        if k < |init| {
          assert ms[k] == init[k];
        }
      }
    }
  }

  /** The pixels processed so far: the closed clusters and the current one. */
  ghost function Done(members: seq<set<Int2>>, cur: set<Int2>): set<Int2> {
    Union(members) + cur
  }

  /** The qualifying neighbours among the first n directions, in table order:
      what the neighbour loop appends to the queue. */
  function QualifyingNeighbours(d: seq<byte>, size: Int2, threshold: int, p: Int2, n: nat): seq<Int2>
    requires n <= |SEARCH_DIRECTIONS|
  {
    if n == 0 then []
    else
      QualifyingNeighbours(d, size, threshold, p, n - 1) +
      (if Qualifies(d, size, threshold, p, Neighbour(p, n - 1)) then [Neighbour(p, n - 1)] else [])
  }

  /** Exactly the neighbours that pass the test are enqueued; so every one of
      them is in the image and active. */
  lemma {:induction false} QualifyingNeighboursExact(d: seq<byte>, size: Int2, threshold: int, p: Int2, n: nat)
    requires n <= |SEARCH_DIRECTIONS|
    ensures forall q :: q in QualifyingNeighbours(d, size, threshold, p, n) <==>
      exists i :: 0 <= i < n && q == Neighbour(p, i) && Qualifies(d, size, threshold, p, q)
    ensures forall q :: q in QualifyingNeighbours(d, size, threshold, p, n) ==> InImage(size, q) && Mask(d, size, q) != 0
  {
    if n > 0 {
      QualifyingNeighboursExact(d, size, threshold, p, n - 1);
    }
  }

  /** The neighbour test reads only values and masks. */
  lemma {:induction false} QualifyingNeighboursFrame(d: seq<byte>, e: seq<byte>, size: Int2, threshold: int, p: Int2, n: nat)
    requires n <= |SEARCH_DIRECTIONS| && InImage(size, p)
    requires forall q :: InImage(size, q) ==> Value(d, size, q) == Value(e, size, q) && Mask(d, size, q) == Mask(e, size, q)
    ensures QualifyingNeighbours(d, size, threshold, p, n) == QualifyingNeighbours(e, size, threshold, p, n)
  {
    if n > 0 {
      QualifyingNeighboursFrame(d, e, size, threshold, p, n - 1);
    }
  }

  // ---------------------------------------------------------------------------
  // The per-cluster accumulator (clusterRectBegin/End, clusterMinValue/MaxValue)

  datatype Accumulator = Accumulator(rectBegin: Int2, rectEnd: Int2, minValue: byte, maxValue: byte)

  /** The reset values: begin at the image size, end at zero, min 255, max 0. */
  function InitialAccumulator(size: Int2): Accumulator {
    Accumulator(size, Int2(0, 0), 255, 0)
  }

  /** UpdateClusterMetadataInfo: widen the rectangle to [pos, pos + (1, 1)) and
      the value range to `value`. */
  function UpdateClusterMetadataInfo(acc: Accumulator, pos: Int2, value: byte): Accumulator {
    var begin1 := if acc.rectBegin.x > pos.x then acc.rectBegin.(x := pos.x) else acc.rectBegin;
    var begin2 := if begin1.y > pos.y then begin1.(y := pos.y) else begin1;
    var next := pos.Plus(Int2(1, 1));
    var end1 := if acc.rectEnd.x < next.x then acc.rectEnd.(x := next.x) else acc.rectEnd;
    var end2 := if end1.y < next.y then end1.(y := next.y) else end1;
    var minValue := if acc.minValue > value then value else acc.minValue;
    var maxValue := if acc.maxValue < value then value else acc.maxValue;
    Accumulator(begin2, end2, minValue, maxValue)
  }

  /** [begin, end) is the tight bounding box of S and [minValue, maxValue] the
      tight range of S's values: every bound is attained by some member. */
  ghost predicate Bounded(begin: Int2, end: Int2, minValue: int, maxValue: int, S: set<Int2>, d: seq<byte>, size: Int2) {
    (forall p :: p in S ==>
      begin.x <= p.x < end.x && begin.y <= p.y < end.y && minValue <= Value(d, size, p) <= maxValue) &&
    (exists p :: p in S && p.x == begin.x) && (exists p :: p in S && p.y == begin.y) &&
    (exists p :: p in S && p.x == end.x - 1) && (exists p :: p in S && p.y == end.y - 1) &&
    (exists p :: p in S && Value(d, size, p) == minValue) && (exists p :: p in S && Value(d, size, p) == maxValue)
  }

  /** The accumulator describes the pixels processed so far in this cluster. */
  ghost predicate Summarises(acc: Accumulator, S: set<Int2>, d: seq<byte>, size: Int2) {
    if S == {} then acc == InitialAccumulator(size)
    else Bounded(acc.rectBegin, acc.rectEnd, acc.minValue, acc.maxValue, S, d, size)
  }

  /** Record k describes cluster k: its id, bounding box and value range. */
  ghost predicate Describes(r: ClusterMetaData, k: nat, S: set<Int2>, d: seq<byte>, size: Int2) {
    r.clusterId == ClusterIdByte(k) && S != {} &&
    Bounded(r.bounds.begin, r.bounds.end, r.minValue, r.maxValue, S, d, size)
  }

  /** The record added when the queue runs dry. */
  function RecordOf(currentClusterId: int, acc: Accumulator): ClusterMetaData {
    ClusterMetaData(currentClusterId % 256, acc.minValue, acc.maxValue, Rect(acc.rectBegin, acc.rectEnd))
  }

  /** Updating with a new pixel of the image keeps the accumulator tight. */
  lemma UpdateSummarises(acc: Accumulator, S: set<Int2>, d: seq<byte>, size: Int2, p: Int2)
    requires InImage(size, p) && p !in S && Summarises(acc, S, d, size)
    ensures Summarises(UpdateClusterMetadataInfo(acc, p, Value(d, size, p)), S + {p}, d, size)
  {
    var r := UpdateClusterMetadataInfo(acc, p, Value(d, size, p));
    if S == {} {
      assert r == Accumulator(p, p.Plus(Int2(1, 1)), Value(d, size, p), Value(d, size, p));
      assert S + {p} == {p};
    } else {
      UpdateBounds(acc, S, d, size, p);
      UpdateAttained(acc, S, d, size, p);
    }
  }

  lemma UpdateBounds(acc: Accumulator, S: set<Int2>, d: seq<byte>, size: Int2, p: Int2)
    requires S != {} && Bounded(acc.rectBegin, acc.rectEnd, acc.minValue, acc.maxValue, S, d, size)
    ensures var r := UpdateClusterMetadataInfo(acc, p, Value(d, size, p));
      forall q :: q in S + {p} ==>
        r.rectBegin.x <= q.x < r.rectEnd.x && r.rectBegin.y <= q.y < r.rectEnd.y &&
        r.minValue <= Value(d, size, q) <= r.maxValue
  {
  }

  lemma UpdateAttained(acc: Accumulator, S: set<Int2>, d: seq<byte>, size: Int2, p: Int2)
    requires S != {} && Bounded(acc.rectBegin, acc.rectEnd, acc.minValue, acc.maxValue, S, d, size)
    ensures var r := UpdateClusterMetadataInfo(acc, p, Value(d, size, p)); var T := S + {p};
      (exists q :: q in T && q.x == r.rectBegin.x) && (exists q :: q in T && q.y == r.rectBegin.y) &&
      (exists q :: q in T && q.x == r.rectEnd.x - 1) && (exists q :: q in T && q.y == r.rectEnd.y - 1) &&
      (exists q :: q in T && Value(d, size, q) == r.minValue) && (exists q :: q in T && Value(d, size, q) == r.maxValue)
  {
    var r := UpdateClusterMetadataInfo(acc, p, Value(d, size, p));
    var T := S + {p};
    var a :| a in S && a.x == acc.rectBegin.x;
    var b :| b in S && b.y == acc.rectBegin.y;
    var c :| c in S && c.x == acc.rectEnd.x - 1;
    var e :| e in S && e.y == acc.rectEnd.y - 1;
    var f :| f in S && Value(d, size, f) == acc.minValue;
    var g :| g in S && Value(d, size, g) == acc.maxValue;
    var qa := if p.x < acc.rectBegin.x then p else a;
    var qb := if p.y < acc.rectBegin.y then p else b;
    var qc := if p.x + 1 > acc.rectEnd.x then p else c;
    var qe := if p.y + 1 > acc.rectEnd.y then p else e;
    var qf := if Value(d, size, p) < acc.minValue then p else f;
    var qg := if Value(d, size, p) > acc.maxValue then p else g;
    assert qa in T && qa.x == r.rectBegin.x;
    assert qb in T && qb.y == r.rectBegin.y;
    assert qc in T && qc.x == r.rectEnd.x - 1;
    assert qe in T && qe.y == r.rectEnd.y - 1;
    assert qf in T && Value(d, size, qf) == r.minValue;
    assert qg in T && Value(d, size, qg) == r.maxValue;
  }

  /** The record emitted for a non-empty cluster describes it. */
  lemma RecordDescribes(k: nat, acc: Accumulator, S: set<Int2>, d: seq<byte>, size: Int2)
    requires S != {} && Summarises(acc, S, d, size)
    ensures Describes(RecordOf(ID_STEP * (k + 1), acc), k, S, d, size)
  {
  }

  /** Ids 5, 10, 15, ... taken as bytes are non-zero and pairwise distinct for
      the first 255 clusters; the 256th cluster wraps to id 0. */
  lemma ClusterIdsDistinct(j: nat, k: nat)
    requires j < k < 256
    ensures ClusterIdByte(j) != ClusterIdByte(k)
    ensures k < 255 ==> ClusterIdByte(k) != 0
  {
    var a, b := ID_STEP * (k + 1), ID_STEP * (j + 1);
    var qa, qb := a / 256, b / 256;
    assert a == 256 * qa + a % 256 && b == 256 * qb + b % 256;
    NotMultipleOf256(k - j, qa - qb);
    assert ClusterIdByte(j) == ClusterIdByte(k) ==> ID_STEP * (k - j) == 256 * (qa - qb);
    if k < 255 {
      NotMultipleOf256(k + 1, qa);
    }
  }

  lemma ClusterIdWraps()
    ensures ClusterIdByte(255) == 0
  {
  }

  /** 5n is a multiple of 256 only when n is (5 and 256 are coprime). */
  lemma NotMultipleOf256(n: int, m: int)
    requires 0 < n < 256
    ensures ID_STEP * n != 256 * m
  {
    // 1025 = 4 * 256 + 1 = 205 * 5, so 5n = 256m would make n = 256 (205m - 4n).
    assert ID_STEP * n == 256 * m ==> n == 256 * (205 * m - 4 * n);
  }

  /** The merge threshold `3f / imageSize.x` compares normalised sizes: the
      width test w / W <= 3 / W and the height test h / H <= 3 / W. On whole
      pixels they are the per-axis limits (3, floor(3H / W)). */
  function FragmentLimit(size: Int2): Int2
    requires size.x > 0
  {
    Int2(3, 3 * size.y / size.x)
  }

  lemma FragmentLimitExact(size: Int2, w: int, h: int)
    requires size.x > 0 && size.y > 0
    ensures w <= FragmentLimit(size).x <==> w * size.x <= 3 * size.x
    ensures h <= FragmentLimit(size).y <==> h * size.x <= 3 * size.y
  {
    var W, H := size.x, size.y;
    var q, r := 3 * H / W, 3 * H % W;
    assert 3 * H == q * W + r && 0 <= r < W;
    if h <= q {
      MulMonotone(h, q, W);
    } else {
      MulMonotone(q + 1, h, W);
    }
    if w <= 3 {
      MulMonotone(w, 3, W);
    } else {
      MulMonotone(4, w, W);
    }
  }

  // ---------------------------------------------------------------------------
  // Closure under the neighbour relation

  /** Every qualifying neighbour of a member of S is in S, waiting in `queue`,
      or was not pending to begin with. */
  ghost predicate Closed(d0: seq<byte>, size: Int2, threshold: int, S: set<Int2>, queue: seq<Int2>) {
    forall m, i :: m in S && 0 <= i < |SEARCH_DIRECTIONS| && Qualifies(d0, size, threshold, m, Neighbour(m, i)) ==>
      Neighbour(m, i) in S || Neighbour(m, i) in queue || !Pending(d0, size, Neighbour(m, i))
  }

  function Opposite(i: nat): nat
    requires i < |SEARCH_DIRECTIONS|
  {
    (i + 2) % 4
  }

  /** The table is symmetric, and so is the test between active pixels. */
  lemma NeighbourSymmetric(d: seq<byte>, size: Int2, threshold: int, m: Int2, i: nat)
    requires i < |SEARCH_DIRECTIONS| && Pending(d, size, m) && Qualifies(d, size, threshold, m, Neighbour(m, i))
    ensures Opposite(i) < |SEARCH_DIRECTIONS| && Neighbour(Neighbour(m, i), Opposite(i)) == m
    ensures Qualifies(d, size, threshold, Neighbour(m, i), m)
  {
  }

  // ---------------------------------------------------------------------------
  // Connectivity and seed order

  /** q is one table step from p and passes the neighbour test from p. */
  predicate Linked(d: seq<byte>, size: Int2, threshold: int, p: Int2, q: Int2) {
    Int2(q.x - p.x, q.y - p.y) in SEARCH_DIRECTIONS && Qualifies(d, size, threshold, p, q)
  }

  /** A chain of pixels pending in d0, each linked to the next. */
  ghost predicate LinkPath(d0: seq<byte>, size: Int2, threshold: int, path: seq<Int2>) {
    |path| > 0 && Pending(d0, size, path[|path| - 1]) &&
    (|path| > 1 ==>
      LinkPath(d0, size, threshold, path[..|path| - 1]) &&
      Linked(d0, size, threshold, path[|path| - 2], path[|path| - 1]))
  }

  /** Some chain of pending pixels leads from s to p. */
  ghost predicate Reaches(d0: seq<byte>, size: Int2, threshold: int, s: Int2, p: Int2) {
    exists path :: LinkPath(d0, size, threshold, path) && path[0] == s && path[|path| - 1] == p
  }

  lemma ReachStart(d0: seq<byte>, size: Int2, threshold: int, s: Int2)
    requires Pending(d0, size, s)
    ensures Reaches(d0, size, threshold, s, s)
  {
    assert LinkPath(d0, size, threshold, [s]);
  }

  lemma ReachExtend(d0: seq<byte>, size: Int2, threshold: int, s: Int2, m: Int2, p: Int2)
    requires Reaches(d0, size, threshold, s, m) && Linked(d0, size, threshold, m, p) && Pending(d0, size, p)
    ensures Reaches(d0, size, threshold, s, p)
  {
    var path :| LinkPath(d0, size, threshold, path) && path[0] == s && path[|path| - 1] == m;
    var path' := path + [p];
    assert path'[..|path|] == path;
    assert LinkPath(d0, size, threshold, path');
  }

  /** Neighbour i of p is one table step from p. */
  lemma NeighbourLinked(d: seq<byte>, size: Int2, threshold: int, p: Int2, i: nat)
    requires i < |SEARCH_DIRECTIONS| && Qualifies(d, size, threshold, p, Neighbour(p, i))
    ensures Linked(d, size, threshold, p, Neighbour(p, i))
  {
    assert Int2(Neighbour(p, i).x - p.x, Neighbour(p, i).y - p.y) == SEARCH_DIRECTIONS[i];
  }

  /** Some cluster before the k-th holds q. */
  ghost predicate InEarlier(members: seq<set<Int2>>, k: nat, q: Int2) {
    exists j :: 0 <= j < k && j < |members| && q in members[j]
  }

  /** Every cluster grew from its seed: the seed is a member and every member
      is reached from it through pending pixels; and each seed is the first
      pending pixel in row-major order outside the earlier clusters. */
  ghost predicate Seeded(d0: seq<byte>, size: Int2, threshold: int, members: seq<set<Int2>>, seeds: seq<Int2>) {
    |seeds| == |members| &&
    (forall k :: 0 <= k < |members| ==> seeds[k] in members[k]) &&
    (forall k, p :: 0 <= k < |members| && p in members[k] ==> Reaches(d0, size, threshold, seeds[k], p)) &&
    (forall k, q :: 0 <= k < |members| && Pending(d0, size, q) && RowMajorBefore(q, seeds[k]) ==>
      InEarlier(members, k, q))
  }

  /** The flood's view of the seeds: the current cluster's seed is the last
      one; it is the queue's only element until processed and a member after;
      every queued pixel is the seed or linked from a member. */
  ghost predicate SeedInv(d0: seq<byte>, size: Int2, threshold: int, members: seq<set<Int2>>, cur: set<Int2>,
                          seeds: seq<Int2>, queue: seq<Int2>) {
    |seeds| == |members| + 1 &&
    (forall k :: 0 <= k < |members| ==> seeds[k] in members[k]) &&
    (forall k, p :: 0 <= k < |members| && p in members[k] ==> Reaches(d0, size, threshold, seeds[k], p)) &&
    (forall p :: p in cur ==> Reaches(d0, size, threshold, seeds[|members|], p)) &&
    (cur == {} ==> queue == [seeds[|members|]]) &&
    (cur != {} ==> seeds[|members|] in cur) &&
    (forall q :: q in queue ==> q == seeds[|members|] || Fed(d0, size, threshold, cur, q))
  }

  ghost predicate Fed(d0: seq<byte>, size: Int2, threshold: int, cur: set<Int2>, q: Int2) {
    exists m :: m in cur && Linked(d0, size, threshold, m, q)
  }

  /** Every seed so far, the current one included, comes first in row-major
      order among the pending pixels not in an earlier cluster. */
  ghost predicate OrderInv(d0: seq<byte>, size: Int2, members: seq<set<Int2>>, seeds: seq<Int2>) {
    forall k, q :: 0 <= k < |seeds| && k <= |members| && Pending(d0, size, q) && RowMajorBefore(q, seeds[k]) ==>
      InEarlier(members, k, q)
  }

  /** Processing the head of the queue: it is reached from the seed, and the
      neighbours it enqueues are linked from it. */
  lemma SeedProcess(d0: seq<byte>, d: seq<byte>, size: Int2, threshold: int, members: seq<set<Int2>>,
                    cur: set<Int2>, seeds: seq<Int2>, queue: seq<Int2>)
    requires queue != [] && SeedInv(d0, size, threshold, members, cur, seeds, queue)
    requires Pending(d0, size, queue[0]) && queue[0] !in cur
    requires forall q :: InImage(size, q) ==> Value(d, size, q) == Value(d0, size, q) && Mask(d, size, q) == Mask(d0, size, q)
    ensures SeedInv(d0, size, threshold, members, cur + {queue[0]}, seeds,
                    queue[1..] + QualifyingNeighbours(d, size, threshold, queue[0], |SEARCH_DIRECTIONS|))
  {
    var p, s := queue[0], seeds[|members|];
    var cur' := cur + {p};
    var enq := QualifyingNeighbours(d, size, threshold, p, |SEARCH_DIRECTIONS|);
    assert p in queue;
    if p == s {
      ReachStart(d0, size, threshold, s);
    } else {
      var m :| m in cur && Linked(d0, size, threshold, m, p);
      ReachExtend(d0, size, threshold, s, m, p);
    }
    QualifyingNeighboursExact(d, size, threshold, p, |SEARCH_DIRECTIONS|);
    forall q | q in queue[1..] + enq
      ensures q == s || Fed(d0, size, threshold, cur', q)
    {
      if q in enq {
        var i :| 0 <= i < |SEARCH_DIRECTIONS| && q == Neighbour(p, i) && Qualifies(d, size, threshold, p, q);
        NeighbourLinked(d0, size, threshold, p, i);
      } else {
        assert q in queue;
        if q != s {
          var m :| m in cur && Linked(d0, size, threshold, m, q);
          assert m in cur';
        }
      }
    }
  }

  /** Dropping an already visited head keeps the seed view. */
  lemma SeedSkip(d0: seq<byte>, size: Int2, threshold: int, members: seq<set<Int2>>, cur: set<Int2>,
                 seeds: seq<Int2>, queue: seq<Int2>)
    requires queue != [] && cur != {} && SeedInv(d0, size, threshold, members, cur, seeds, queue)
    ensures SeedInv(d0, size, threshold, members, cur, seeds, queue[1..])
  {
    assert forall q :: q in queue[1..] ==> q in queue;
  }

  /** Closing the current cluster and starting one from seed s. */
  lemma SeedReseed(d0: seq<byte>, size: Int2, threshold: int, members: seq<set<Int2>>, cur: set<Int2>,
                   seeds: seq<Int2>, s: Int2)
    requires SeedInv(d0, size, threshold, members, cur, seeds, [])
    ensures cur != {}
    ensures SeedInv(d0, size, threshold, members + [cur], {}, seeds + [s], [s])
  {
    SeedClose(d0, size, threshold, members, cur, seeds);
  }

  lemma SeedClose(d0: seq<byte>, size: Int2, threshold: int, members: seq<set<Int2>>, cur: set<Int2>,
                  seeds: seq<Int2>)
    requires SeedInv(d0, size, threshold, members, cur, seeds, [])
    ensures cur != {}
    ensures var members' := members + [cur];
      (forall k :: 0 <= k < |members'| ==> seeds[k] in members'[k]) &&
      (forall k, p :: 0 <= k < |members'| && p in members'[k] ==> Reaches(d0, size, threshold, seeds[k], p))
  {
    var members' := members + [cur];
    forall k | 0 <= k < |members'|
      ensures seeds[k] in members'[k]
      ensures forall p :: p in members'[k] ==> Reaches(d0, size, threshold, seeds[k], p)
    {
      if k < |members| {
        assert members'[k] == members[k];
      }
    }
  }

  /** A cluster holding q before the k-th stays one when the list grows. */
  lemma InEarlierGrows(members: seq<set<Int2>>, cur: set<Int2>, k: nat, q: Int2)
    requires InEarlier(members, k, q)
    ensures InEarlier(members + [cur], k, q)
  {
    var j :| 0 <= j < k && j < |members| && q in members[j];
    assert (members + [cur])[j] == members[j];
  }

  /** The seed search on the current buffer finds the first pending pixel of
      d0 not yet processed: processed pixels are visited, and the others keep
      their visited flag and mask. */
  lemma OrderReseed(d0: seq<byte>, d: seq<byte>, size: Int2, members: seq<set<Int2>>, cur: set<Int2>,
                    seeds: seq<Int2>, s: Int2)
    requires |seeds| == |members| + 1 && OrderInv(d0, size, members, seeds) && FrameInv(d0, d, size, members, cur)
    requires forall q :: InImage(size, q) && RowMajorBefore(q, s) ==> !Pending(d, size, q)
    ensures OrderInv(d0, size, members + [cur], seeds + [s])
  {
    var members', seeds' := members + [cur], seeds + [s];
    UnionAppend(members, cur);
    forall k, q | 0 <= k < |seeds'| && k <= |members'| && Pending(d0, size, q) && RowMajorBefore(q, seeds'[k])
      ensures InEarlier(members', k, q)
    {
      if k < |seeds| {
        assert seeds'[k] == seeds[k];
        InEarlierGrows(members, cur, k, q);
      } else {
        assert q in Done(members, cur);
        UnionMembers(members', q);
      }
    }
  }

  /** The first seed: nothing pending comes before it. */
  lemma InitialSeeds(d0: seq<byte>, size: Int2, threshold: int, seed: Int2)
    requires forall q :: InImage(size, q) && RowMajorBefore(q, seed) ==> !Pending(d0, size, q)
    ensures SeedInv(d0, size, threshold, [], {}, [seed], [seed]) && OrderInv(d0, size, [], [seed])
  {
  }

  /** With the last cluster closed, every seed is accounted for. */
  lemma SeedFinish(d0: seq<byte>, size: Int2, threshold: int, members: seq<set<Int2>>, cur: set<Int2>,
                   seeds: seq<Int2>)
    requires SeedInv(d0, size, threshold, members, cur, seeds, []) && OrderInv(d0, size, members, seeds)
    ensures Seeded(d0, size, threshold, members + [cur], seeds)
  {
    var members' := members + [cur];
    SeedClose(d0, size, threshold, members, cur, seeds);
    forall k, q | 0 <= k < |members'| && Pending(d0, size, q) && RowMajorBefore(q, seeds[k])
      ensures InEarlier(members', k, q)
    {
      InEarlierGrows(members, cur, k, q);
    }
  }

  // ---------------------------------------------------------------------------
  // Loop invariant of ComputeClustersProcess, in groups

  ghost predicate FrameInv(d0: seq<byte>, d: seq<byte>, size: Int2, members: seq<set<Int2>>, cur: set<Int2>) {
    |d| == |d0| &&
    (forall p :: InImage(size, p) ==> Value(d, size, p) == Value(d0, size, p) && Mask(d, size, p) == Mask(d0, size, p)) &&
    (forall p :: InImage(size, p) && p !in Done(members, cur) ==>
      Id(d, size, p) == Id(d0, size, p) && Visited(d, size, p) == Visited(d0, size, p)) &&
    (forall k, p :: 0 <= k < |members| && p in members[k] ==> Painted(d, size, p, ClusterIdByte(k))) &&
    (forall p :: p in cur ==> Painted(d, size, p, ClusterIdByte(|members|)))
  }

  ghost predicate MembersInv(d0: seq<byte>, size: Int2, members: seq<set<Int2>>, cur: set<Int2>) {
    (forall k, p :: 0 <= k < |members| && p in members[k] ==> Pending(d0, size, p)) &&
    (forall p :: p in cur ==> Pending(d0, size, p)) &&
    (forall j, k :: 0 <= j < k < |members| ==> members[j] !! members[k]) &&
    (forall k :: 0 <= k < |members| ==> members[k] !! cur)
  }

  ghost predicate RecordsInv(d0: seq<byte>, size: Int2, records: seq<ClusterMetaData>, members: seq<set<Int2>>,
                             cur: set<Int2>, acc: Accumulator) {
    |records| == |members| &&
    (forall k :: 0 <= k < |members| ==> Describes(records[k], k, members[k], d0, size)) &&
    Summarises(acc, cur, d0, size)
  }

  ghost predicate QueueInv(d0: seq<byte>, d: seq<byte>, size: Int2, cur: set<Int2>, queue: seq<Int2>) {
    (forall q :: q in queue ==> InImage(size, q) && Mask(d0, size, q) != 0) &&
    (cur == {} ==> |queue| == 1 && Pending(d, size, queue[0]))
  }

  ghost predicate ClosureInv(d0: seq<byte>, size: Int2, threshold: int, members: seq<set<Int2>>,
                             cur: set<Int2>, queue: seq<Int2>) {
    (forall k :: 0 <= k < |members| ==> Closed(d0, size, threshold, members[k], [])) &&
    Closed(d0, size, threshold, cur, queue)
  }

  ghost predicate SegInv(d0: seq<byte>, d: seq<byte>, size: Int2, threshold: int, records: seq<ClusterMetaData>,
                         members: seq<set<Int2>>, cur: set<Int2>, acc: Accumulator, queue: seq<Int2>) {
    WellFormed(|d0|, size, CHANNELS) &&
    FrameInv(d0, d, size, members, cur) &&
    MembersInv(d0, size, members, cur) &&
    RecordsInv(d0, size, records, members, cur, acc) &&
    QueueInv(d0, d, size, cur, queue) &&
    ClosureInv(d0, size, threshold, members, cur, queue)
  }

  /** What ComputeClustersProcess guarantees before the merge: the clusters
      partition the initially pending pixels, each is closed under the
      neighbour test and grew from its seed, the seeds come in row-major
      order, each record describes its cluster, and the buffer holds each
      cluster's id and the visited flag on its pixels and nothing else new. */
  ghost predicate Segmentation(d0: seq<byte>, d: seq<byte>, size: Int2, threshold: int,
                               records: seq<ClusterMetaData>, members: seq<set<Int2>>, seeds: seq<Int2>) {
    |d| == |d0| && |records| == |members| && Seeded(d0, size, threshold, members, seeds) &&
    (forall k, p :: 0 <= k < |members| && p in members[k] ==> Pending(d0, size, p)) &&
    (forall p :: Pending(d0, size, p) ==> exists k :: 0 <= k < |members| && p in members[k]) &&
    (forall j, k :: 0 <= j < k < |members| ==> members[j] !! members[k]) &&
    (forall k :: 0 <= k < |members| ==>
      Describes(records[k], k, members[k], d0, size) && Closed(d0, size, threshold, members[k], [])) &&
    (forall p :: InImage(size, p) ==> Value(d, size, p) == Value(d0, size, p) && Mask(d, size, p) == Mask(d0, size, p)) &&
    (forall p :: InImage(size, p) && !Pending(d0, size, p) ==>
      Id(d, size, p) == Id(d0, size, p) && Visited(d, size, p) == Visited(d0, size, p)) &&
    (forall k, p :: 0 <= k < |members| && p in members[k] ==> Painted(d, size, p, ClusterIdByte(k)))
  }

  /** Each cluster is exactly its seed's component: the pixels a chain of
      pending pixels leads to from the seed. */
  lemma ClusterIsComponent(d0: seq<byte>, d: seq<byte>, size: Int2, threshold: int, records: seq<ClusterMetaData>,
                           members: seq<set<Int2>>, seeds: seq<Int2>, k: nat)
    requires Segmentation(d0, d, size, threshold, records, members, seeds) && k < |members|
    ensures forall p :: p in members[k] <==> Reaches(d0, size, threshold, seeds[k], p)
  {
    forall p | Reaches(d0, size, threshold, seeds[k], p)
      ensures p in members[k]
    {
      var path :| LinkPath(d0, size, threshold, path) && path[0] == seeds[k] && path[|path| - 1] == p;
      PathInCluster(d0, size, threshold, members[k], path);
    }
  }

  /** A chain of pending pixels starting in a closed cluster stays in it. */
  lemma {:induction false} PathInCluster(d0: seq<byte>, size: Int2, threshold: int, S: set<Int2>, path: seq<Int2>)
    requires Closed(d0, size, threshold, S, []) && LinkPath(d0, size, threshold, path) && path[0] in S
    ensures path[|path| - 1] in S
  {
    if |path| > 1 {
      var init := path[..|path| - 1];
      PathInCluster(d0, size, threshold, S, init);
      var m, q := path[|path| - 2], path[|path| - 1];
      assert Linked(d0, size, threshold, m, q);
      var i :| 0 <= i < |SEARCH_DIRECTIONS| && SEARCH_DIRECTIONS[i] == Int2(q.x - m.x, q.y - m.y);
      assert q == Neighbour(m, i);
      assert Pending(d0, size, q);
    }
  }

  /** Neighbouring pixels of two different clusters are further apart in
      value than the threshold. */
  lemma ClustersSeparated(d0: seq<byte>, d: seq<byte>, size: Int2, threshold: int, records: seq<ClusterMetaData>,
                          members: seq<set<Int2>>, seeds: seq<Int2>, j: nat, k: nat, p: Int2, i: nat)
    requires Segmentation(d0, d, size, threshold, records, members, seeds)
    requires j < |members| && k < |members| && j != k && i < |SEARCH_DIRECTIONS|
    requires p in members[j] && Neighbour(p, i) in members[k]
    ensures Abs(Value(d0, size, p) as int - Value(d0, size, Neighbour(p, i)) as int) > threshold
  {
    assert Closed(d0, size, threshold, members[j], []);
    assert members[j] !! members[k] by {
      if k < j {
        assert members[k] !! members[j];
      }
    }
    assert Pending(d0, size, Neighbour(p, i));
    SeparatedByThreshold(d0, size, threshold, members[j], members[k], p, i);
  }

  lemma SeparatedByThreshold(d0: seq<byte>, size: Int2, threshold: int, S: set<Int2>, T: set<Int2>, p: Int2, i: nat)
    requires Closed(d0, size, threshold, S, []) && S !! T && i < |SEARCH_DIRECTIONS|
    requires p in S && Neighbour(p, i) in T && Pending(d0, size, Neighbour(p, i))
    ensures Abs(Value(d0, size, p) as int - Value(d0, size, Neighbour(p, i)) as int) > threshold
  {
  }

  // ---------------------------------------------------------------------------
  // The local helpers of ComputeClustersProcess

  /** GetPixelValues: copy the four bytes at `index`; an access outside the
      buffer lands in the exception handler, which returns an empty array. */
  method GetPixelValues(data: array<byte>, index: int) returns (values: seq<byte>)
    ensures values == PixelValues(data[..], index, CHANNELS)
  {
    if index < 0 || index + CHANNELS > data.Length {
      return [];
    }
    values := [];
    var i := 0;
    while i < CHANNELS
      invariant 0 <= i <= CHANNELS
      invariant values == data[index..index + i]
    {
      values := values + [data[index + i]];
      i := i + 1;
    }
  }

  /** SearchForNonVisitedPixels: the first pixel in row-major order that is not
      visited and is active; (0, 0) and false when there is none. */
  method SearchForNonVisitedPixels(data: array<byte>, imageSize: Int2) returns (found: bool, result: Int2)
    requires WellFormed(data.Length, imageSize, CHANNELS)
    ensures found ==> Pending(data[..], imageSize, result)
    ensures found ==> forall q :: InImage(imageSize, q) && RowMajorBefore(q, result) ==> !Pending(data[..], imageSize, q)
    ensures !found ==> result == Int2(0, 0) && forall q :: InImage(imageSize, q) ==> !Pending(data[..], imageSize, q)
  {
    var y := 0;
    while y < imageSize.y
      invariant 0 <= y <= imageSize.y
      invariant forall q :: InImage(imageSize, q) && q.y < y ==> !Pending(data[..], imageSize, q)
    {
      var x := 0;
      while x < imageSize.x
        invariant 0 <= x <= imageSize.x
        invariant forall q :: InImage(imageSize, q) && RowMajorBefore(q, Int2(x, y)) ==> !Pending(data[..], imageSize, q)
      {
        result := Int2(x, y);
        var range := PixelInRange(data.Length, imageSize, CHANNELS, result);
        InRangeIffInImage(data.Length, imageSize, CHANNELS, result);
        PixelValuesOfPixel(data[..], imageSize, CHANNELS, result);
        var pixelValues := GetPixelValues(data, range.index);
        if pixelValues[VISITED] == 0 && pixelValues[MASK] != 0 {
          return true, result;
        }
        x := x + 1;
      }
      y := y + 1;
    }
    return false, Int2(0, 0);
  }

  /** The neighbour loop of the flood fill: each neighbour in table order is
      enqueued when it is in range, its value differs from the current pixel's
      by at most the threshold, and its mask is set. */
  method EnqueueNeighbours(data: array<byte>, imageSize: Int2, differenceThreshold: byte,
                           currentPosition: Int2, currentPixel: seq<byte>, clusterQueue: seq<Int2>)
    returns (queue: seq<Int2>)
    requires WellFormed(data.Length, imageSize, CHANNELS) && InImage(imageSize, currentPosition)
    requires currentPixel == PixelValues(data[..], PixelIndex(imageSize.x, CHANNELS, currentPosition), CHANNELS)
    ensures queue == clusterQueue +
      QualifyingNeighbours(data[..], imageSize, differenceThreshold, currentPosition, |SEARCH_DIRECTIONS|)
  {
    ghost var d := data[..];
    PixelValuesOfPixel(d, imageSize, CHANNELS, currentPosition);
    queue := clusterQueue;
    var i := 0;
    while i < |SEARCH_DIRECTIONS|
      invariant 0 <= i <= |SEARCH_DIRECTIONS|
      invariant data[..] == d
      invariant queue == clusterQueue + QualifyingNeighbours(d, imageSize, differenceThreshold, currentPosition, i)
    {
      ghost var before := queue;
      var neighborPos := currentPosition.Plus(SEARCH_DIRECTIONS[i]);
      assert neighborPos == Neighbour(currentPosition, i);
      var range := PixelInRange(data.Length, imageSize, CHANNELS, neighborPos);
      InRangeIffInImage(data.Length, imageSize, CHANNELS, neighborPos);
      if range.inRange {
        var neighborValues := GetPixelValues(data, range.index);
        assert data[..] == d;
        QualifiesByValues(d, imageSize, differenceThreshold, currentPosition, neighborPos, currentPixel, neighborValues);
        var dif := Abs(currentPixel[HEIGHT] as int - neighborValues[HEIGHT] as int);
        if dif <= differenceThreshold && neighborValues[MASK] != 0 {
          queue := queue + [neighborPos];
        }
      }
      assert queue == before + (if Qualifies(d, imageSize, differenceThreshold, currentPosition, neighborPos)
        then [neighborPos] else []);
      i := i + 1;
    }
  }

  /** The enqueue test on the copied channel runs is the neighbour test. */
  lemma QualifiesByValues(d: seq<byte>, size: Int2, threshold: int, p: Int2, q: Int2,
                          currentPixel: seq<byte>, neighborValues: seq<byte>)
    requires WellFormed(|d|, size, CHANNELS) && InImage(size, p) && InImage(size, q)
    requires currentPixel == PixelValues(d, PixelIndex(size.x, CHANNELS, p), CHANNELS)
    requires neighborValues == PixelValues(d, PixelIndex(size.x, CHANNELS, q), CHANNELS)
    ensures |currentPixel| == CHANNELS && |neighborValues| == CHANNELS
    ensures Abs(currentPixel[HEIGHT] as int - neighborValues[HEIGHT] as int) <= threshold && neighborValues[MASK] != 0
      <==> Qualifies(d, size, threshold, p, q)
  {
    PixelValuesOfPixel(d, size, CHANNELS, p);
    PixelValuesOfPixel(d, size, CHANNELS, q);
  }

  // ---------------------------------------------------------------------------
  // One step of the queue loop, as lemmas over the buffer contents

  /** Writing the id and the visited flag of pixel p changes those two bytes
      of p and nothing else. */
  lemma WriteVisit(d: seq<byte>, size: Int2, p: Int2, id: byte)
    requires WellFormed(|d|, size, CHANNELS) && InImage(size, p)
    ensures 0 <= PixelIndex(size.x, CHANNELS, p) && PixelIndex(size.x, CHANNELS, p) + CHANNELS <= |d|
    ensures var i := PixelIndex(size.x, CHANNELS, p);
      WritesVisit(d, d[i + CLUSTER_ID := id][i + VISITED := 255], size, p, id)
  {
    var i := PixelIndex(size.x, CHANNELS, p);
    PixelRunInside(size, CHANNELS, p);
    var e := d[i + CLUSTER_ID := id][i + VISITED := 255];
    forall q, c | InImage(size, q) && 0 <= c < CHANNELS
      ensures Channel(e, size, CHANNELS, q, c) ==
          if q == p && c == CLUSTER_ID then id
          else if q == p && c == VISITED then 255
          else Channel(d, size, CHANNELS, q, c)
    {
      PixelRunInside(size, CHANNELS, q);
      var j := PixelIndex(size.x, CHANNELS, q) + c;
      if j == i + CLUSTER_ID {
        PixelRunsDisjoint(size, CHANNELS, q, c, p, CLUSTER_ID);
      }
      if j == i + VISITED {
        PixelRunsDisjoint(size, CHANNELS, q, c, p, VISITED);
      }
    }
  }

  /** `e` is `d` with pixel p's id set to `id` and its visited flag to 255. */
  ghost predicate WritesVisit(d: seq<byte>, e: seq<byte>, size: Int2, p: Int2, id: byte) {
    |e| == |d| && Painted(e, size, p, id) &&
    forall q :: InImage(size, q) ==>
      Value(e, size, q) == Value(d, size, q) && Mask(e, size, q) == Mask(d, size, q) &&
      (q != p ==> Id(e, size, q) == Id(d, size, q) && Visited(e, size, q) == Visited(d, size, q))
  }

  lemma ProcessFrame(d0: seq<byte>, d: seq<byte>, e: seq<byte>, size: Int2, members: seq<set<Int2>>,
                     cur: set<Int2>, p: Int2)
    requires FrameInv(d0, d, size, members, cur) && MembersInv(d0, size, members, cur)
    requires InImage(size, p) && p !in Done(members, cur)
    requires WritesVisit(d, e, size, p, ClusterIdByte(|members|))
    ensures FrameInv(d0, e, size, members, cur + {p})
  {
    assert Done(members, cur + {p}) == Done(members, cur) + {p};
    forall k, q | 0 <= k < |members| && q in members[k]
      ensures Painted(e, size, q, ClusterIdByte(k))
    {
      UnionMembers(members, q);
      assert q in Done(members, cur) && q != p;
      assert Pending(d0, size, q);
      assert Painted(d, size, q, ClusterIdByte(k));
      assert Id(e, size, q) == Id(d, size, q) && Visited(e, size, q) == Visited(d, size, q);
    }
  }

  lemma RemoveShrinks(A: set<Int2>, D: set<Int2>, p: Int2)
    requires p in A && p !in D
    ensures |A - (D + {p})| < |A - D|
  {
    assert A - D == (A - (D + {p})) + {p};
  }

  lemma UnionAppend(ms: seq<set<Int2>>, S: set<Int2>)
    ensures Union(ms + [S]) == Union(ms) + S
  {
    assert (ms + [S])[..|ms|] == ms;
  }

  lemma ProcessMembers(d0: seq<byte>, size: Int2, members: seq<set<Int2>>, cur: set<Int2>, p: Int2)
    requires MembersInv(d0, size, members, cur) && Pending(d0, size, p) && p !in Done(members, cur)
    ensures MembersInv(d0, size, members, cur + {p})
  {
    forall k | 0 <= k < |members|
      ensures members[k] !! cur + {p}
    {
      UnionMembers(members, p);
    }
  }

  lemma ProcessQueue(d0: seq<byte>, d: seq<byte>, e: seq<byte>, size: Int2, threshold: int, cur: set<Int2>,
                     queue: seq<Int2>)
    requires queue != [] && QueueInv(d0, d, size, cur, queue)
    requires forall q :: InImage(size, q) ==> Mask(d, size, q) == Mask(d0, size, q)
    ensures QueueInv(d0, e, size, cur + {queue[0]},
                     queue[1..] + QualifyingNeighbours(d, size, threshold, queue[0], |SEARCH_DIRECTIONS|))
  {
    QualifyingNeighboursExact(d, size, threshold, queue[0], |SEARCH_DIRECTIONS|);
    assert forall q :: q in queue[1..] ==> q in queue;
  }

  lemma ProcessClosure(d0: seq<byte>, d: seq<byte>, size: Int2, threshold: int, members: seq<set<Int2>>,
                       cur: set<Int2>, queue: seq<Int2>)
    requires queue != [] && ClosureInv(d0, size, threshold, members, cur, queue) && InImage(size, queue[0])
    requires forall q :: InImage(size, q) ==> Value(d, size, q) == Value(d0, size, q) && Mask(d, size, q) == Mask(d0, size, q)
    ensures ClosureInv(d0, size, threshold, members, cur + {queue[0]},
                       queue[1..] + QualifyingNeighbours(d, size, threshold, queue[0], |SEARCH_DIRECTIONS|))
  {
    var p, rest := queue[0], queue[1..];
    assert queue == [p] + rest;
    var enq := QualifyingNeighbours(d, size, threshold, p, |SEARCH_DIRECTIONS|);
    QualifyingNeighboursExact(d, size, threshold, p, |SEARCH_DIRECTIONS|);
    forall m, j | m in cur + {p} && 0 <= j < |SEARCH_DIRECTIONS| && Qualifies(d0, size, threshold, m, Neighbour(m, j))
      ensures Neighbour(m, j) in cur + {p} || Neighbour(m, j) in rest + enq || !Pending(d0, size, Neighbour(m, j))
    {
      var q := Neighbour(m, j);
      if m == p {
        assert Qualifies(d, size, threshold, p, q);
        assert q in enq;
      } else {
        assert q in cur || q in queue || !Pending(d0, size, q);
      }
    }
  }

  /** A dequeued pixel whose visited flag is still 0 has not been processed
      and was pending from the start. */
  lemma ProcessReady(d0: seq<byte>, d: seq<byte>, size: Int2, members: seq<set<Int2>>, cur: set<Int2>,
                     queue: seq<Int2>)
    requires FrameInv(d0, d, size, members, cur) && queue != []
    requires forall q :: q in queue ==> InImage(size, q) && Mask(d0, size, q) != 0
    requires Visited(d, size, queue[0]) == 0
    ensures InImage(size, queue[0]) && queue[0] !in Done(members, cur) && Pending(d0, size, queue[0])
  {
    assert queue[0] in queue;
    UnionMembers(members, queue[0]);
  }

  /** Processing a dequeued pixel that is not yet visited: paint it, enqueue its
      qualifying neighbours, add it to the accumulator and the current cluster. */
  lemma ProcessStep(d0: seq<byte>, d: seq<byte>, size: Int2, threshold: int, records: seq<ClusterMetaData>,
                    members: seq<set<Int2>>, cur: set<Int2>, acc: Accumulator, queue: seq<Int2>,
                    e: seq<byte>, seeds: seq<Int2>)
    requires queue != [] && SegInv(d0, d, size, threshold, records, members, cur, acc, queue)
    requires SeedInv(d0, size, threshold, members, cur, seeds, queue)
    requires InImage(size, queue[0]) && Visited(d, size, queue[0]) == 0
    requires WritesVisit(d, e, size, queue[0], ClusterIdByte(|members|))
    ensures SegInv(d0, e, size, threshold, records, members, cur + {queue[0]},
                   UpdateClusterMetadataInfo(acc, queue[0], Value(d0, size, queue[0])),
                   queue[1..] + QualifyingNeighbours(d, size, threshold, queue[0], |SEARCH_DIRECTIONS|))
    ensures SeedInv(d0, size, threshold, members, cur + {queue[0]}, seeds,
                    queue[1..] + QualifyingNeighbours(d, size, threshold, queue[0], |SEARCH_DIRECTIONS|))
    ensures Pending(d0, size, queue[0]) && queue[0] !in Done(members, cur)
  {
    var p := queue[0];
    ProcessReady(d0, d, size, members, cur, queue);
    ProcessFrame(d0, d, e, size, members, cur, p);
    ProcessMembers(d0, size, members, cur, p);
    UpdateSummarises(acc, cur, d0, size, p);
    ProcessQueue(d0, d, e, size, threshold, cur, queue);
    ProcessClosure(d0, d, size, threshold, members, cur, queue);
    SeedProcess(d0, d, size, threshold, members, cur, seeds, queue);
  }

  /** Processing a pending pixel takes it out of the pixels left to do. */
  lemma ProcessShrinks(d0: seq<byte>, size: Int2, members: seq<set<Int2>>, cur: set<Int2>, p: Int2)
    requires Pending(d0, size, p) && p !in Done(members, cur)
    ensures |PendingSet(d0, size) - Done(members, cur + {p})| < |PendingSet(d0, size) - Done(members, cur)|
  {
    PendingSetMembers(d0, size, p);
    assert Done(members, cur + {p}) == Done(members, cur) + {p};
    RemoveShrinks(PendingSet(d0, size), Done(members, cur), p);
  }

  /** A dequeued pixel that is already visited is dropped. It cannot be a
      needed neighbour of the current cluster that is still pending: had an
      earlier cluster taken it, that cluster would have taken the current
      cluster's pixel too. */
  lemma SkipStep(d0: seq<byte>, d: seq<byte>, size: Int2, threshold: int, records: seq<ClusterMetaData>,
                 members: seq<set<Int2>>, cur: set<Int2>, acc: Accumulator, queue: seq<Int2>, seeds: seq<Int2>)
    requires queue != [] && SegInv(d0, d, size, threshold, records, members, cur, acc, queue)
    requires SeedInv(d0, size, threshold, members, cur, seeds, queue)
    requires InImage(size, queue[0]) && Visited(d, size, queue[0]) != 0
    ensures cur != {}
    ensures SegInv(d0, d, size, threshold, records, members, cur, acc, queue[1..])
    ensures SeedInv(d0, size, threshold, members, cur, seeds, queue[1..])
  {
    SkipQueue(d0, d, size, cur, queue);
    SkipClosure(d0, d, size, threshold, members, cur, queue);
    SeedSkip(d0, size, threshold, members, cur, seeds, queue);
  }

  lemma SkipQueue(d0: seq<byte>, d: seq<byte>, size: Int2, cur: set<Int2>, queue: seq<Int2>)
    requires queue != [] && QueueInv(d0, d, size, cur, queue) && Visited(d, size, queue[0]) != 0
    ensures cur != {} && QueueInv(d0, d, size, cur, queue[1..])
  {
    assert forall q :: q in queue[1..] ==> q in queue;
  }

  lemma SkipClosure(d0: seq<byte>, d: seq<byte>, size: Int2, threshold: int, members: seq<set<Int2>>,
                    cur: set<Int2>, queue: seq<Int2>)
    requires queue != [] && FrameInv(d0, d, size, members, cur) && MembersInv(d0, size, members, cur)
    requires ClosureInv(d0, size, threshold, members, cur, queue)
    requires InImage(size, queue[0]) && Visited(d, size, queue[0]) != 0
    ensures ClosureInv(d0, size, threshold, members, cur, queue[1..])
  {
    var p, rest := queue[0], queue[1..];
    assert queue == [p] + rest;
    forall m, j | m in cur && 0 <= j < |SEARCH_DIRECTIONS| && Qualifies(d0, size, threshold, m, Neighbour(m, j))
      ensures Neighbour(m, j) in cur || Neighbour(m, j) in rest || !Pending(d0, size, Neighbour(m, j))
    {
      var q := Neighbour(m, j);
      NeighbourSymmetric(d0, size, threshold, m, j);
      UnionMembers(members, q);
    }
  }

  /** When the queue runs dry the current cluster is complete: appending it and
      its record keeps every invariant except the queue's. */
  lemma CloseCluster(d0: seq<byte>, d: seq<byte>, size: Int2, threshold: int, records: seq<ClusterMetaData>,
                     members: seq<set<Int2>>, cur: set<Int2>, acc: Accumulator)
    requires SegInv(d0, d, size, threshold, records, members, cur, acc, [])
    ensures var records', members' := records + [RecordOf(ID_STEP * (|members| + 1), acc)], members + [cur];
      FrameInv(d0, d, size, members', {}) && MembersInv(d0, size, members', {}) &&
      RecordsInv(d0, size, records', members', {}, InitialAccumulator(size)) &&
      (forall k :: 0 <= k < |members'| ==> Closed(d0, size, threshold, members'[k], [])) &&
      Done(members', {}) == Done(members, cur)
  {
    UnionAppend(members, cur);
    assert cur != {};
    CloseFrame(d0, d, size, members, cur);
    CloseMembers(d0, size, members, cur);
    CloseRecords(d0, size, records, members, cur, acc);
    CloseClosure(d0, size, threshold, members, cur);
  }

  lemma CloseFrame(d0: seq<byte>, d: seq<byte>, size: Int2, members: seq<set<Int2>>, cur: set<Int2>)
    requires FrameInv(d0, d, size, members, cur)
    ensures FrameInv(d0, d, size, members + [cur], {})
  {
    UnionAppend(members, cur);
    var members' := members + [cur];
    forall k, p | 0 <= k < |members'| && p in members'[k]
      ensures Painted(d, size, p, ClusterIdByte(k))
    {
      if k < |members| {
        assert members'[k] == members[k];
      }
    }
  }

  lemma CloseMembers(d0: seq<byte>, size: Int2, members: seq<set<Int2>>, cur: set<Int2>)
    requires MembersInv(d0, size, members, cur)
    ensures MembersInv(d0, size, members + [cur], {})
  {
    var members' := members + [cur];
    forall k, p | 0 <= k < |members'| && p in members'[k]
      ensures Pending(d0, size, p)
    {
      if k < |members| {
        assert members'[k] == members[k];
      }
    }
    forall j, k | 0 <= j < k < |members'|
      ensures members'[j] !! members'[k]
    {
      assert members'[j] == members[j];
      if k < |members| {
        assert members'[k] == members[k];
      }
    }
  }

  lemma CloseRecords(d0: seq<byte>, size: Int2, records: seq<ClusterMetaData>, members: seq<set<Int2>>,
                     cur: set<Int2>, acc: Accumulator)
    requires RecordsInv(d0, size, records, members, cur, acc) && cur != {}
    ensures RecordsInv(d0, size, records + [RecordOf(ID_STEP * (|members| + 1), acc)], members + [cur], {},
                       InitialAccumulator(size))
  {
    var records', members' := records + [RecordOf(ID_STEP * (|members| + 1), acc)], members + [cur];
    RecordDescribes(|members|, acc, cur, d0, size);
    forall k | 0 <= k < |members'|
      ensures Describes(records'[k], k, members'[k], d0, size)
    {
      if k < |members| {
        assert records'[k] == records[k] && members'[k] == members[k];
      }
    }
  }

  lemma CloseClosure(d0: seq<byte>, size: Int2, threshold: int, members: seq<set<Int2>>, cur: set<Int2>)
    requires ClosureInv(d0, size, threshold, members, cur, [])
    ensures forall k :: 0 <= k < |members + [cur]| ==> Closed(d0, size, threshold, (members + [cur])[k], [])
  {
    var members' := members + [cur];
    forall k | 0 <= k < |members'|
      ensures Closed(d0, size, threshold, members'[k], [])
    {
      if k < |members| {
        assert members'[k] == members[k];
      }
    }
  }

  /** A new seed starts the next cluster. */
  lemma Reseed(d0: seq<byte>, d: seq<byte>, size: Int2, threshold: int, records: seq<ClusterMetaData>,
               members: seq<set<Int2>>, cur: set<Int2>, acc: Accumulator, seed: Int2)
    requires SegInv(d0, d, size, threshold, records, members, cur, acc, [])
    requires Pending(d, size, seed)
    ensures SegInv(d0, d, size, threshold, records + [RecordOf(ID_STEP * (|members| + 1), acc)], members + [cur],
                   {}, InitialAccumulator(size), [seed])
    ensures Done(members + [cur], {}) == Done(members, cur)
  {
    CloseCluster(d0, d, size, threshold, records, members, cur, acc);
  }

  /** With no pending pixel left, the closed clusters cover every pixel that
      was pending at the start. */
  lemma Finish(d0: seq<byte>, d: seq<byte>, size: Int2, threshold: int, records: seq<ClusterMetaData>,
               members: seq<set<Int2>>, cur: set<Int2>, acc: Accumulator, seeds: seq<Int2>)
    requires SegInv(d0, d, size, threshold, records, members, cur, acc, [])
    requires SeedInv(d0, size, threshold, members, cur, seeds, []) && OrderInv(d0, size, members, seeds)
    requires forall q :: InImage(size, q) ==> !Pending(d, size, q)
    ensures Segmentation(d0, d, size, threshold, records + [RecordOf(ID_STEP * (|members| + 1), acc)], members + [cur],
                         seeds)
  {
    var records', members' := records + [RecordOf(ID_STEP * (|members| + 1), acc)], members + [cur];
    CloseCluster(d0, d, size, threshold, records, members, cur, acc);
    FinishCover(d0, d, size, members');
    SeedFinish(d0, size, threshold, members, cur, seeds);
    FinishAssemble(d0, d, size, threshold, records', members', seeds);
  }

  lemma FinishCover(d0: seq<byte>, d: seq<byte>, size: Int2, members: seq<set<Int2>>)
    requires FrameInv(d0, d, size, members, {}) && MembersInv(d0, size, members, {})
    requires forall q :: InImage(size, q) ==> !Pending(d, size, q)
    ensures forall p :: Pending(d0, size, p) ==> exists k :: 0 <= k < |members| && p in members[k]
    ensures forall p :: InImage(size, p) && !Pending(d0, size, p) ==>
      Id(d, size, p) == Id(d0, size, p) && Visited(d, size, p) == Visited(d0, size, p)
  {
    forall p | Pending(d0, size, p)
      ensures exists k :: 0 <= k < |members| && p in members[k]
    {
      UnionMembers(members, p);
    }
    forall p | InImage(size, p) && !Pending(d0, size, p)
      ensures Id(d, size, p) == Id(d0, size, p) && Visited(d, size, p) == Visited(d0, size, p)
    {
      UnionMembers(members, p);
    }
  }

  lemma FinishAssemble(d0: seq<byte>, d: seq<byte>, size: Int2, threshold: int, records: seq<ClusterMetaData>,
                       members: seq<set<Int2>>, seeds: seq<Int2>)
    requires Seeded(d0, size, threshold, members, seeds)
    requires FrameInv(d0, d, size, members, {}) && MembersInv(d0, size, members, {})
    requires RecordsInv(d0, size, records, members, {}, InitialAccumulator(size))
    requires forall k :: 0 <= k < |members| ==> Closed(d0, size, threshold, members[k], [])
    requires forall p :: Pending(d0, size, p) ==> exists k :: 0 <= k < |members| && p in members[k]
    requires forall p :: InImage(size, p) && !Pending(d0, size, p) ==>
      Id(d, size, p) == Id(d0, size, p) && Visited(d, size, p) == Visited(d0, size, p)
    ensures Segmentation(d0, d, size, threshold, records, members, seeds)
  {
  }

  /** Channel c of a pixel of the image is the byte at its index. */
  lemma ChannelAt(d: seq<byte>, size: Int2, p: Int2, c: nat)
    requires WellFormed(|d|, size, CHANNELS) && InImage(size, p) && c < CHANNELS
    ensures 0 <= PixelIndex(size.x, CHANNELS, p) && PixelIndex(size.x, CHANNELS, p) + CHANNELS <= |d|
    ensures Channel(d, size, CHANNELS, p, c) == d[PixelIndex(size.x, CHANNELS, p) + c]
  {
    PixelRunInside(size, CHANNELS, p);
  }

  /** The two writes of the flood fill: the cluster id, then the visited flag. */
  method MarkVisited(data: array<byte>, imageSize: Int2, currentPosition: Int2, currentIndex: int, id: byte)
    requires WellFormed(data.Length, imageSize, CHANNELS) && InImage(imageSize, currentPosition)
    requires currentIndex == PixelIndex(imageSize.x, CHANNELS, currentPosition)
    modifies data
    ensures WritesVisit(old(data[..]), data[..], imageSize, currentPosition, id)
  {
    WriteVisit(data[..], imageSize, currentPosition, id);
    data[currentIndex + CLUSTER_ID] := id;
    data[currentIndex + VISITED] := 255;
  }

  lemma InitialInv(d0: seq<byte>, size: Int2, threshold: int, seed: Int2)
    requires WellFormed(|d0|, size, CHANNELS) && Pending(d0, size, seed)
    ensures SegInv(d0, d0, size, threshold, [], [], {}, InitialAccumulator(size), [seed])
  {
  }

  /** One turn of the queue loop on a non-empty queue: dequeue the head; if it
      is already visited drop it, otherwise enqueue its qualifying neighbours,
      write the cluster id and the visited flag, and widen the accumulator. */
  method VisitQueued(data: array<byte>, imageSize: Int2, differenceThreshold: byte, clusterQueue: seq<Int2>,
                     currentClusterId: int, acc: Accumulator, ghost d0: seq<byte>,
                     ghost records: seq<ClusterMetaData>, ghost members: seq<set<Int2>>, ghost cur: set<Int2>,
                     ghost seeds: seq<Int2>)
    returns (queue: seq<Int2>, acc': Accumulator, ghost cur': set<Int2>)
    requires data.Length == |d0| && clusterQueue != []
    requires SegInv(d0, data[..], imageSize, differenceThreshold, records, members, cur, acc, clusterQueue)
    requires SeedInv(d0, imageSize, differenceThreshold, members, cur, seeds, clusterQueue)
    requires currentClusterId == ID_STEP * (|members| + 1)
    modifies data
    ensures SegInv(d0, data[..], imageSize, differenceThreshold, records, members, cur', acc', queue)
    ensures SeedInv(d0, imageSize, differenceThreshold, members, cur', seeds, queue)
    ensures (cur != {} && cur' == cur && |queue| < |clusterQueue|) ||
      |PendingSet(d0, imageSize) - Done(members, cur')| < |PendingSet(d0, imageSize) - Done(members, cur)|
  {
    ghost var d := data[..];
    var currentPosition := clusterQueue[0];
    queue := clusterQueue[1..];
    assert InImage(imageSize, currentPosition) by {
      assert currentPosition in clusterQueue;
    }
    var currentIndex, visited := ReadVisited(data, imageSize, currentPosition);
    if visited != 0 {
      SkipStep(d0, d, imageSize, differenceThreshold, records, members, cur, acc, clusterQueue, seeds);
      return queue, acc, cur;
    }
    queue, acc', cur' := VisitPixel(data, imageSize, differenceThreshold, clusterQueue, currentIndex, currentClusterId, acc,
                                    d0, records, members, cur, seeds);
  }

  /** IsPixelInRange on a queued pixel, then its visited byte. */
  method ReadVisited(data: array<byte>, imageSize: Int2, p: Int2) returns (index: int, visited: byte)
    requires WellFormed(data.Length, imageSize, CHANNELS) && InImage(imageSize, p)
    ensures index == PixelIndex(imageSize.x, CHANNELS, p)
    ensures visited == Visited(data[..], imageSize, p)
  {
    var range := PixelInRange(data.Length, imageSize, CHANNELS, p);
    InRangeIffInImage(data.Length, imageSize, CHANNELS, p);
    index := range.index;
    ChannelAt(data[..], imageSize, p, VISITED);
    visited := data[index + VISITED];
  }

  /** The rest of the turn for a head whose visited flag is 0. */
  method VisitPixel(data: array<byte>, imageSize: Int2, differenceThreshold: byte, clusterQueue: seq<Int2>,
                    currentIndex: int, currentClusterId: int, acc: Accumulator, ghost d0: seq<byte>,
                    ghost records: seq<ClusterMetaData>, ghost members: seq<set<Int2>>, ghost cur: set<Int2>,
                    ghost seeds: seq<Int2>)
    returns (queue: seq<Int2>, acc': Accumulator, ghost cur': set<Int2>)
    requires data.Length == |d0| && clusterQueue != [] && InImage(imageSize, clusterQueue[0])
    requires currentIndex == PixelIndex(imageSize.x, CHANNELS, clusterQueue[0])
    requires Visited(data[..], imageSize, clusterQueue[0]) == 0
    requires SegInv(d0, data[..], imageSize, differenceThreshold, records, members, cur, acc, clusterQueue)
    requires SeedInv(d0, imageSize, differenceThreshold, members, cur, seeds, clusterQueue)
    requires currentClusterId == ID_STEP * (|members| + 1)
    modifies data
    ensures SegInv(d0, data[..], imageSize, differenceThreshold, records, members, cur', acc', queue)
    ensures SeedInv(d0, imageSize, differenceThreshold, members, cur', seeds, queue)
    ensures |PendingSet(d0, imageSize) - Done(members, cur')| < |PendingSet(d0, imageSize) - Done(members, cur)|
  {
    ghost var d := data[..];
    var currentPosition := clusterQueue[0];
    var currentPixel := GetPixelValues(data, currentIndex);
    assert data[..] == d;
    PixelValuesOfPixel(d, imageSize, CHANNELS, currentPosition);
    queue := EnqueueNeighbours(data, imageSize, differenceThreshold, currentPosition, currentPixel, clusterQueue[1..]);
    assert data[..] == d;
    MarkVisited(data, imageSize, currentPosition, currentIndex, currentClusterId % 256);
    ProcessStep(d0, d, imageSize, differenceThreshold, records, members, cur, acc, clusterQueue, data[..], seeds);
    ProcessShrinks(d0, imageSize, members, cur, currentPosition);
    acc' := UpdateClusterMetadataInfo(acc, currentPosition, currentPixel[HEIGHT]);
    cur' := cur + {currentPosition};
  }

  // ---------------------------------------------------------------------------
  // ComputeClustersProcess

  /** ComputeClustersProcess: with no pending pixel it returns at once and the
      callback is never invoked (None, buffer untouched). Otherwise the queue
      loop builds one cluster per seed, closes it when the queue runs dry, and
      stops when the seed search fails; the record list then goes through the
      merge pass, and the merged list is what the callback receives. */
  method ComputeClustersProcess(data: array<byte>, imageSize: Int2, differenceThreshold: byte)
    returns (clusters: Option<seq<ClusterMetaData>>, ghost records: seq<ClusterMetaData>,
             ghost members: seq<set<Int2>>, ghost seeds: seq<Int2>)
    requires WellFormed(data.Length, imageSize, CHANNELS)
    modifies data
    ensures clusters.None? <==> forall q :: InImage(imageSize, q) ==> !Pending(old(data[..]), imageSize, q)
    ensures clusters.None? ==> data[..] == old(data[..])
    ensures clusters.Some? ==>
      imageSize.x > 0 &&
      Segmentation(old(data[..]), data[..], imageSize, differenceThreshold, records, members, seeds) &&
      clusters.value == MergeResult(records, FragmentLimit(imageSize))
  {
    ghost var d0 := data[..];
    var nonVisitedFound, nonVisitedPoint := SearchForNonVisitedPixels(data, imageSize);
    if !nonVisitedFound {
      return None, [], [], [];
    }
    ghost var firstSeed := nonVisitedPoint;
    var clusterQueue := [nonVisitedPoint];
    var clusterMetadataList: seq<ClusterMetaData> := [];
    var currentClusterId := ID_STEP;
    var acc := InitialAccumulator(imageSize);
    ghost var cur: set<Int2> := {};
    members := [];
    seeds := [nonVisitedPoint];
    InitialInv(d0, imageSize, differenceThreshold, nonVisitedPoint);
    InitialSeeds(d0, imageSize, differenceThreshold, nonVisitedPoint);

    while true
      invariant data.Length == |d0|
      invariant SegInv(d0, data[..], imageSize, differenceThreshold, clusterMetadataList, members, cur, acc, clusterQueue)
      invariant SeedInv(d0, imageSize, differenceThreshold, members, cur, seeds, clusterQueue)
      invariant OrderInv(d0, imageSize, members, seeds)
      invariant currentClusterId == ID_STEP * (|members| + 1)
      decreases |PendingSet(d0, imageSize) - Done(members, cur)|, |clusterQueue|
    {
      if |clusterQueue| == 0 {
        ghost var d := data[..];
        ghost var recordsBefore, membersBefore, curBefore, accBefore := clusterMetadataList, members, cur, acc;
        clusterMetadataList := clusterMetadataList + [RecordOf(currentClusterId, acc)];
        members := members + [cur];
        nonVisitedFound, nonVisitedPoint := SearchForNonVisitedPixels(data, imageSize);
        assert data[..] == d;
        if !nonVisitedFound {
          Finish(d0, data[..], imageSize, differenceThreshold, recordsBefore, membersBefore, curBefore, accBefore,
                 seeds);
          break;
        }
        Reseed(d0, data[..], imageSize, differenceThreshold, recordsBefore, membersBefore, curBefore, accBefore,
               nonVisitedPoint);
        SeedReseed(d0, imageSize, differenceThreshold, membersBefore, curBefore, seeds, nonVisitedPoint);
        OrderReseed(d0, data[..], imageSize, membersBefore, curBefore, seeds, nonVisitedPoint);
        seeds := seeds + [nonVisitedPoint];
        clusterQueue := [nonVisitedPoint];
        acc := InitialAccumulator(imageSize);
        cur := {};
        currentClusterId := currentClusterId + ID_STEP;
      }

      clusterQueue, acc, cur := VisitQueued(data, imageSize, differenceThreshold, clusterQueue, currentClusterId, acc,
                                            d0, clusterMetadataList, members, cur, seeds);
    }

    records := clusterMetadataList;
    var merged := MergeClusters(clusterMetadataList, FragmentLimit(imageSize));
    clusters := Some(merged);
    assert Pending(d0, imageSize, firstSeed);
  }
}
