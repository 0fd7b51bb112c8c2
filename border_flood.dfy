/** The border search of LoopedLandMesh.ComputeBoundEdges, as a specification:
    floods through the pixels without the cluster's id inside the bounds,
    started from the perimeter, and the id pixels they touch.  The methods that
    run the floods are in LandMesh; this module says what they compute. */
module BorderFlood {
  import opened PixelBuffer
  import opened ClusterMerge

  /** The three channels of the mesher's snapshot. */
  function HeightAt(d: seq<byte>, size: Int2, q: Int2): byte { Channel(d, size, 3, q, HEIGHT) }
  function IdAt(d: seq<byte>, size: Int2, q: Int2): byte { Channel(d, size, 3, q, CLUSTER_ID) }
  function VisitedAt(d: seq<byte>, size: Int2, q: Int2): byte { Channel(d, size, 3, q, VISITED) }

  /** What the floods of one mesher work with: the image size, the cluster's
      id, the search bounds and the neighbour table. */
  datatype FloodArea = FloodArea(size: Int2, id: byte, bounds: Rect, dirs: seq<Int2>)

  // ---------------------------------------------------------------------------
  // Frames

  /** The border flood so far changed nothing but visited bytes, and set only
      those of pixels that do not carry the cluster's id, to 255. */
  ghost predicate FloodFrame(d0: seq<byte>, d: seq<byte>, size: Int2, id: byte) {
    |d| == |d0| &&
    (forall q {:trigger HeightAt(d, size, q)} :: InImage(size, q) ==> HeightAt(d, size, q) == HeightAt(d0, size, q)) &&
    (forall q {:trigger IdAt(d, size, q)} :: InImage(size, q) ==> IdAt(d, size, q) == IdAt(d0, size, q)) &&
    (forall q {:trigger VisitedAt(d, size, q)} :: InImage(size, q) ==>
      VisitedAt(d, size, q) == VisitedAt(d0, size, q) || (VisitedAt(d, size, q) == 255 && IdAt(d0, size, q) != id))
  }

  /** Every recorded edge is a pixel of the image carrying the cluster's id. */
  ghost predicate EdgesCarryId(d0: seq<byte>, size: Int2, id: byte, edges: set<Int2>) {
    forall e :: e in edges ==> InImage(size, e) && IdAt(d0, size, e) == id
  }

  /** d' is d with the visited byte of every pixel of P set to 255, and
      nothing else changed. */
  ghost predicate Marked(d: seq<byte>, d': seq<byte>, size: Int2, P: set<Int2>) {
    |d'| == |d| &&
    (forall q {:trigger HeightAt(d', size, q)} :: InImage(size, q) ==> HeightAt(d', size, q) == HeightAt(d, size, q)) &&
    (forall q {:trigger IdAt(d', size, q)} :: InImage(size, q) ==> IdAt(d', size, q) == IdAt(d, size, q)) &&
    (forall q {:trigger VisitedAt(d', size, q)} :: InImage(size, q) ==>
      VisitedAt(d', size, q) == (if q in P then 255 else VisitedAt(d, size, q)))
  }

  /** Two rounds of marking are one. */
  lemma MarkedTwice(d0: seq<byte>, d: seq<byte>, d': seq<byte>, size: Int2, F: set<Int2>, G: set<Int2>)
    requires Marked(d0, d, size, F) && Marked(d, d', size, G)
    ensures Marked(d0, d', size, F + G)
  {
  }

  /** The flood leaves ids alone, so edges carrying the id before carry it after. */
  lemma FloodKeepsIds(d0: seq<byte>, d: seq<byte>, size: Int2, id: byte, edges: set<Int2>)
    requires FloodFrame(d0, d, size, id) && EdgesCarryId(d0, size, id, edges)
    ensures EdgesCarryId(d, size, id, edges)
  {
  }

  /** Marking pixels without the id stays within the flood frame. */
  lemma MarkedFrame(d0: seq<byte>, d: seq<byte>, d': seq<byte>, size: Int2, id: byte, P: set<Int2>)
    requires FloodFrame(d0, d, size, id) && Marked(d, d', size, P)
    requires forall q :: q in P ==> IdAt(d0, size, q) != id
    ensures FloodFrame(d0, d', size, id)
  {
  }

  /** The pixels the flood may still visit. */
  function Unvisited(d: seq<byte>, size: Int2): set<Int2> {
    set x, y | 0 <= x < size.x && 0 <= y < size.y && VisitedAt(d, size, Int2(x, y)) == 0 :: Int2(x, y)
  }

  /** Marking an unvisited pixel takes it, and only it, out of the set, so
      the set strictly shrinks: this bounds the flood. */
  lemma MarkShrinksUnvisited(d: seq<byte>, d': seq<byte>, size: Int2, p: Int2)
    requires Marked(d, d', size, {p}) && InImage(size, p) && VisitedAt(d, size, p) == 0
    ensures |Unvisited(d', size)| < |Unvisited(d, size)|
  {
    forall q | q in Unvisited(d', size) ensures q in Unvisited(d, size) && q != p {
      assert VisitedAt(d', size, Int2(q.x, q.y)) == 0;
    }
    forall q | q in Unvisited(d, size) && q != p ensures q in Unvisited(d', size) {
      assert VisitedAt(d', size, Int2(q.x, q.y)) == 0;
    }
    assert Unvisited(d', size) == Unvisited(d, size) - {p};
    assert p in Unvisited(d, size);
  }

  /** Writing 255 to the visited byte of a pixel marks it. */
  lemma MarkOne(d: seq<byte>, size: Int2, p: Int2)
    requires WellFormed(|d|, size, 3) && InImage(size, p)
    ensures 0 <= PixelIndex(size.x, 3, p) + VISITED < |d|
    ensures Marked(d, d[PixelIndex(size.x, 3, p) + VISITED := 255], size, {p})
  {
    WriteChannel(d, size, 3, p, VISITED, 255);
  }

  // ---------------------------------------------------------------------------
  // Flood paths

  /** A pixel the flood may enter: in the image, without the id (read in
      `ids`) and not visited (read in `visits`). */
  ghost predicate Open(ids: seq<byte>, visits: seq<byte>, a: FloodArea, q: Int2) {
    InImage(a.size, q) && IdAt(ids, a.size, q) != a.id && VisitedAt(visits, a.size, q) == 0
  }

  /** One step of the flood: along a direction of the table, to a pixel
      inside the bounds. */
  predicate FloodStep(a: FloodArea, p: Int2, q: Int2) {
    Int2(q.x - p.x, q.y - p.y) in a.dirs && a.bounds.Contains(q)
  }

  /** A chain of open pixels, each one flood step from the one before. */
  ghost predicate FloodPath(ids: seq<byte>, visits: seq<byte>, a: FloodArea, path: seq<Int2>) {
    |path| > 0 && Open(ids, visits, a, path[|path| - 1]) &&
    (|path| > 1 ==>
      FloodPath(ids, visits, a, path[..|path| - 1]) && FloodStep(a, path[|path| - 2], path[|path| - 1]))
  }

  /** A flood from s reaches q: some flood path leads from s to q. */
  ghost predicate FloodReaches(ids: seq<byte>, visits: seq<byte>, a: FloodArea, s: Int2, q: Int2) {
    exists path :: FloodPath(ids, visits, a, path) && path[0] == s && path[|path| - 1] == q
  }

  lemma {:induction false} FloodPathStart(ids: seq<byte>, visits: seq<byte>, a: FloodArea, path: seq<Int2>)
    requires FloodPath(ids, visits, a, path)
    ensures Open(ids, visits, a, path[0])
  {
    if |path| > 1 {
      FloodPathStart(ids, visits, a, path[..|path| - 1]);
    }
  }

  /** Only open pixels reach or are reached. */
  lemma FloodReachedOpen(ids: seq<byte>, visits: seq<byte>, a: FloodArea, s: Int2, q: Int2)
    requires FloodReaches(ids, visits, a, s, q)
    ensures Open(ids, visits, a, s) && Open(ids, visits, a, q)
  {
    var path :| FloodPath(ids, visits, a, path) && path[0] == s && path[|path| - 1] == q;
    FloodPathStart(ids, visits, a, path);
  }

  lemma FloodReachStart(ids: seq<byte>, visits: seq<byte>, a: FloodArea, s: Int2)
    requires Open(ids, visits, a, s)
    ensures FloodReaches(ids, visits, a, s, s)
  {
    assert FloodPath(ids, visits, a, [s]);
  }

  lemma FloodReachExtend(ids: seq<byte>, visits: seq<byte>, a: FloodArea, s: Int2, m: Int2, q: Int2)
    requires FloodReaches(ids, visits, a, s, m) && FloodStep(a, m, q) && Open(ids, visits, a, q)
    ensures FloodReaches(ids, visits, a, s, q)
  {
    var path :| FloodPath(ids, visits, a, path) && path[0] == s && path[|path| - 1] == m;
    var path' := path + [q];
    assert path'[..|path|] == path;
    assert FloodPath(ids, visits, a, path');
  }

  /** Neighbour i of p inside the bounds is one flood step from p. */
  lemma NeighbourStep(a: FloodArea, p: Int2, i: nat)
    requires i < |a.dirs| && a.bounds.Contains(p.Plus(a.dirs[i]))
    ensures FloodStep(a, p, p.Plus(a.dirs[i]))
  {
    assert Int2(p.Plus(a.dirs[i]).x - p.x, p.Plus(a.dirs[i]).y - p.y) == a.dirs[i];
  }

  /** A flood step is a move along some direction of the table. */
  lemma StepNeighbour(a: FloodArea, p: Int2, q: Int2) returns (i: nat)
    requires FloodStep(a, p, q)
    ensures i < |a.dirs| && q == p.Plus(a.dirs[i])
  {
    i :| 0 <= i < |a.dirs| && a.dirs[i] == Int2(q.x - p.x, q.y - p.y);
  }

  // ---------------------------------------------------------------------------
  // The neighbour loop

  /** The neighbour loop queues a neighbour inside the bounds and the image
      that does not carry the id ... */
  predicate Enters(d: seq<byte>, a: FloodArea, q: Int2) {
    a.bounds.Contains(q) && InImage(a.size, q) && IdAt(d, a.size, q) != a.id
  }

  /** ... and records one that carries it as an edge. */
  predicate Borders(d: seq<byte>, a: FloodArea, q: Int2) {
    a.bounds.Contains(q) && InImage(a.size, q) && IdAt(d, a.size, q) == a.id
  }

  /** The neighbours of p queued among the first n directions, in table order. */
  function QueuedNeighbours(d: seq<byte>, a: FloodArea, p: Int2, n: nat): seq<Int2>
    requires n <= |a.dirs|
  {
    if n == 0 then []
    else
      var q := p.Plus(a.dirs[n - 1]);
      QueuedNeighbours(d, a, p, n - 1) + (if Enters(d, a, q) then [q] else [])
  }

  /** The neighbours of p recorded as edges among the first n directions. */
  function BorderNeighbours(d: seq<byte>, a: FloodArea, p: Int2, n: nat): set<Int2>
    requires n <= |a.dirs|
  {
    if n == 0 then {}
    else
      var q := p.Plus(a.dirs[n - 1]);
      BorderNeighbours(d, a, p, n - 1) + (if Borders(d, a, q) then {q} else {})
  }

  /** Exactly the neighbours that pass each test are queued or recorded. */
  lemma {:induction false} NeighboursExact(d: seq<byte>, a: FloodArea, p: Int2, n: nat)
    requires n <= |a.dirs|
    ensures forall q :: q in QueuedNeighbours(d, a, p, n) <==>
      exists i :: 0 <= i < n && q == p.Plus(a.dirs[i]) && Enters(d, a, q)
    ensures forall q :: q in BorderNeighbours(d, a, p, n) <==>
      exists i :: 0 <= i < n && q == p.Plus(a.dirs[i]) && Borders(d, a, q)
  {
    if n > 0 {
      NeighboursExact(d, a, p, n - 1);
    }
  }

  /** Both lists read only ids. */
  lemma {:induction false} NeighboursFrame(d: seq<byte>, e: seq<byte>, a: FloodArea, p: Int2, n: nat)
    requires n <= |a.dirs|
    requires forall q :: InImage(a.size, q) ==> IdAt(d, a.size, q) == IdAt(e, a.size, q)
    ensures QueuedNeighbours(d, a, p, n) == QueuedNeighbours(e, a, p, n)
    ensures BorderNeighbours(d, a, p, n) == BorderNeighbours(e, a, p, n)
  {
    if n > 0 {
      NeighboursFrame(d, e, a, p, n - 1);
    }
  }

  /** The id pixels recorded by processing every pixel of P. */
  ghost function Touched(d: seq<byte>, a: FloodArea, P: set<Int2>): set<Int2> {
    set p, q | p in P && q in BorderNeighbours(d, a, p, |a.dirs|) :: q
  }

  /** Touched(P) holds the table neighbours of members of P that lie inside
      the bounds and the image and carry the id, and nothing else. */
  lemma TouchedMembers(d: seq<byte>, a: FloodArea, P: set<Int2>, q: Int2)
    ensures q in Touched(d, a, P) <==>
      exists p, i :: p in P && 0 <= i < |a.dirs| && q == p.Plus(a.dirs[i]) && Borders(d, a, q)
  {
    forall p | p in P {
      NeighboursExact(d, a, p, |a.dirs|);
    }
  }

  lemma TouchedAdd(d: seq<byte>, a: FloodArea, P: set<Int2>, p: Int2)
    ensures Touched(d, a, P + {p}) == Touched(d, a, P) + BorderNeighbours(d, a, p, |a.dirs|)
  {
  }

  lemma TouchedUnion(d: seq<byte>, a: FloodArea, P: set<Int2>, Q: set<Int2>)
    ensures Touched(d, a, P + Q) == Touched(d, a, P) + Touched(d, a, Q)
  {
  }

  lemma TouchedEmpty(d: seq<byte>, a: FloodArea)
    ensures Touched(d, a, {}) == {}
  {
  }

  /** Recorded pixels carry the id. */
  lemma TouchedCarryId(d: seq<byte>, a: FloodArea, P: set<Int2>)
    ensures EdgesCarryId(d, a.size, a.id, Touched(d, a, P))
  {
    forall q | q in Touched(d, a, P)
      ensures InImage(a.size, q) && IdAt(d, a.size, q) == a.id
    {
      TouchedMembers(d, a, P, q);
    }
  }

  // ---------------------------------------------------------------------------
  // One flood: the breadth-first loop of ClusterSearchForPixel

  /** q is one flood step from some pixel of P. */
  ghost predicate FedBy(a: FloodArea, P: set<Int2>, q: Int2) {
    exists m :: m in P && FloodStep(a, m, q)
  }

  /** Every open neighbour inside the bounds of a processed pixel is processed
      or waiting in the queue. */
  ghost predicate FloodClosed(d0: seq<byte>, d: seq<byte>, a: FloodArea, P: set<Int2>, queue: seq<Int2>) {
    forall m, i {:trigger m in P, Open(d0, d, a, m.Plus(a.dirs[i]))} ::
      (m in P && 0 <= i < |a.dirs| && a.bounds.Contains(m.Plus(a.dirs[i])) && Open(d0, d, a, m.Plus(a.dirs[i]))) ==>
      m.Plus(a.dirs[i]) in P || m.Plus(a.dirs[i]) in queue
  }

  /** Every queued pixel is in the image, lacks the id, and is the pivot or a
      step from a processed pixel; the pivot is processed or queued. */
  ghost predicate QueueFed(d0: seq<byte>, a: FloodArea, pivot: Int2, P: set<Int2>, queue: seq<Int2>) {
    (forall q :: q in queue ==> InImage(a.size, q) && IdAt(d0, a.size, q) != a.id && (q == pivot || FedBy(a, P, q))) &&
    (pivot in P || pivot in queue)
  }

  /** The flood from pivot so far, started on buffer d: the processed pixels P
      are marked in dc and reached from the pivot, the queue is fed from P,
      P is closed up to the queue, and the edges are those P records. */
  ghost predicate BfsInv(d0: seq<byte>, d: seq<byte>, dc: seq<byte>, a: FloodArea, pivot: Int2, P: set<Int2>,
                         queue: seq<Int2>, edges: set<Int2>, edgesNow: set<Int2>) {
    Marked(d, dc, a.size, P) &&
    (forall q {:trigger FloodReaches(d0, d, a, pivot, q)} :: q in P ==> FloodReaches(d0, d, a, pivot, q)) &&
    QueueFed(d0, a, pivot, P, queue) &&
    FloodClosed(d0, d, a, P, queue) &&
    edgesNow == edges + Touched(d0, a, P)
  }

  lemma BfsStart(d0: seq<byte>, d: seq<byte>, a: FloodArea, pivot: Int2, edges: set<Int2>)
    requires |d| == |d0| && Open(d0, d, a, pivot)
    ensures BfsInv(d0, d, d, a, pivot, {}, [pivot], edges, edges)
  {
    TouchedEmpty(d0, a);
  }

  /** A dequeued pixel whose visited byte is still 0 is open and reached. */
  lemma BfsReady(d0: seq<byte>, d: seq<byte>, dc: seq<byte>, a: FloodArea, pivot: Int2, P: set<Int2>,
                 queue: seq<Int2>, edges: set<Int2>, edgesNow: set<Int2>)
    requires queue != [] && BfsInv(d0, d, dc, a, pivot, P, queue, edges, edgesNow)
    requires Open(d0, d, a, pivot) && VisitedAt(dc, a.size, queue[0]) == 0
    ensures Open(d0, d, a, queue[0]) && queue[0] !in P && FloodReaches(d0, d, a, pivot, queue[0])
  {
    var p := queue[0];
    assert p in queue;
    if p == pivot {
      FloodReachStart(d0, d, a, pivot);
    } else {
      var m :| m in P && FloodStep(a, m, p);
      FloodReachExtend(d0, d, a, pivot, m, p);
    }
  }

  /** Processing the head: its entering neighbours are queued and its
      bordering ones recorded, both read in the current buffer dc, and it is
      marked (in dc'). */
  lemma BfsVisit(d0: seq<byte>, d: seq<byte>, dc: seq<byte>, dc': seq<byte>, a: FloodArea, pivot: Int2, P: set<Int2>,
                 queue: seq<Int2>, edges: set<Int2>, edgesNow: set<Int2>, queue': seq<Int2>, edges': set<Int2>)
    requires queue != [] && BfsInv(d0, d, dc, a, pivot, P, queue, edges, edgesNow)
    requires FloodFrame(d0, d, a.size, a.id) && EdgesCarryId(d0, a.size, a.id, edges)
    requires Open(d0, d, a, pivot) && VisitedAt(dc, a.size, queue[0]) == 0
    requires queue' == queue[1..] + QueuedNeighbours(dc, a, queue[0], |a.dirs|)
    requires edges' == (edgesNow - set q | q in QueuedNeighbours(dc, a, queue[0], |a.dirs|)) +
      BorderNeighbours(dc, a, queue[0], |a.dirs|)
    requires Marked(d, dc', a.size, P + {queue[0]})
    ensures BfsInv(d0, d, dc', a, pivot, P + {queue[0]}, queue', edges, edges')
  {
    var p := queue[0];
    BfsIds(d0, d, dc, a, P, p);
    BfsVisitReach(d0, d, dc, a, pivot, P, queue, edges, edgesNow);
    var enq := QueuedNeighbours(d0, a, p, |a.dirs|);
    BfsVisitQueue(d0, a, pivot, P, queue, enq);
    BfsVisitClosure(d0, d, a, P, queue, enq);
    BfsVisitEdges(d0, a, P, p, edges, edgesNow, enq);
  }

  /** The whole visit of an unvisited head: the neighbour loop and the mark
      keep the invariant and the flood frame, and shrink the unvisited set. */
  lemma BfsMarkVisit(d0: seq<byte>, d: seq<byte>, dc: seq<byte>, dc': seq<byte>, a: FloodArea, pivot: Int2, P: set<Int2>,
                     queue: seq<Int2>, edges: set<Int2>, edgesNow: set<Int2>, queue': seq<Int2>, edges': set<Int2>)
    requires queue != [] && BfsInv(d0, d, dc, a, pivot, P, queue, edges, edgesNow)
    requires FloodFrame(d0, d, a.size, a.id) && FloodFrame(d0, dc, a.size, a.id) && EdgesCarryId(d0, a.size, a.id, edges)
    requires Open(d0, d, a, pivot) && VisitedAt(dc, a.size, queue[0]) == 0
    requires queue' == queue[1..] + QueuedNeighbours(dc, a, queue[0], |a.dirs|)
    requires edges' == (edgesNow - set q | q in QueuedNeighbours(dc, a, queue[0], |a.dirs|)) +
      BorderNeighbours(dc, a, queue[0], |a.dirs|)
    requires Marked(dc, dc', a.size, {queue[0]})
    ensures BfsInv(d0, d, dc', a, pivot, P + {queue[0]}, queue', edges, edges')
    ensures FloodFrame(d0, dc', a.size, a.id)
    ensures |Unvisited(dc', a.size)| < |Unvisited(dc, a.size)|
  {
    var p := queue[0];
    assert p in queue;
    MarkShrinksUnvisited(dc, dc', a.size, p);
    MarkedFrame(d0, dc, dc', a.size, a.id, {p});
    MarkedTwice(d, dc, dc', a.size, P, {p});
    BfsVisit(d0, d, dc, dc', a, pivot, P, queue, edges, edgesNow, queue', edges');
  }

  lemma BfsVisitReach(d0: seq<byte>, d: seq<byte>, dc: seq<byte>, a: FloodArea, pivot: Int2, P: set<Int2>,
                      queue: seq<Int2>, edges: set<Int2>, edgesNow: set<Int2>)
    requires queue != [] && BfsInv(d0, d, dc, a, pivot, P, queue, edges, edgesNow)
    requires Open(d0, d, a, pivot) && VisitedAt(dc, a.size, queue[0]) == 0
    ensures forall q :: q in P + {queue[0]} ==> FloodReaches(d0, d, a, pivot, q)
  {
    BfsReady(d0, d, dc, a, pivot, P, queue, edges, edgesNow);
  }

  /** The flood reads ids only, and it leaves them as they were. */
  lemma BfsIds(d0: seq<byte>, d: seq<byte>, dc: seq<byte>, a: FloodArea, P: set<Int2>, p: Int2)
    requires FloodFrame(d0, d, a.size, a.id) && Marked(d, dc, a.size, P)
    ensures QueuedNeighbours(dc, a, p, |a.dirs|) == QueuedNeighbours(d0, a, p, |a.dirs|)
    ensures BorderNeighbours(dc, a, p, |a.dirs|) == BorderNeighbours(d0, a, p, |a.dirs|)
  {
    NeighboursFrame(dc, d0, a, p, |a.dirs|);
  }

  lemma BfsVisitQueue(d0: seq<byte>, a: FloodArea, pivot: Int2, P: set<Int2>, queue: seq<Int2>, enq: seq<Int2>)
    requires queue != [] && QueueFed(d0, a, pivot, P, queue)
    requires enq == QueuedNeighbours(d0, a, queue[0], |a.dirs|)
    ensures QueueFed(d0, a, pivot, P + {queue[0]}, queue[1..] + enq)
  {
    var p := queue[0];
    NeighboursExact(d0, a, p, |a.dirs|);
    forall q | q in queue[1..] + enq
      ensures InImage(a.size, q) && IdAt(d0, a.size, q) != a.id && (q == pivot || FedBy(a, P + {p}, q))
    {
      if q in enq {
        var i :| 0 <= i < |a.dirs| && q == p.Plus(a.dirs[i]) && Enters(d0, a, q);
        NeighbourStep(a, p, i);
      } else {
        assert q in queue;
        if q != pivot {
          var m :| m in P && FloodStep(a, m, q);
          assert m in P + {p};
        }
      }
    }
    assert pivot in queue ==> pivot == p || pivot in queue[1..];
  }

  lemma BfsVisitClosure(d0: seq<byte>, d: seq<byte>, a: FloodArea, P: set<Int2>, queue: seq<Int2>, enq: seq<Int2>)
    requires queue != [] && FloodClosed(d0, d, a, P, queue)
    requires enq == QueuedNeighbours(d0, a, queue[0], |a.dirs|)
    ensures FloodClosed(d0, d, a, P + {queue[0]}, queue[1..] + enq)
  {
    var p := queue[0];
    NeighboursExact(d0, a, p, |a.dirs|);
    forall m, i | m in P + {p} && 0 <= i < |a.dirs| && a.bounds.Contains(m.Plus(a.dirs[i])) &&
        Open(d0, d, a, m.Plus(a.dirs[i]))
      ensures m.Plus(a.dirs[i]) in P + {p} || m.Plus(a.dirs[i]) in queue[1..] + enq
    {
      var n := m.Plus(a.dirs[i]);
      if m == p {
        assert Enters(d0, a, n);
        assert n in enq;
      } else {
        assert n in P || n in queue;
        assert n in queue ==> n == p || n in queue[1..];
      }
    }
  }

  lemma BfsVisitEdges(d0: seq<byte>, a: FloodArea, P: set<Int2>, p: Int2, edges: set<Int2>, edgesNow: set<Int2>,
                      enq: seq<Int2>)
    requires EdgesCarryId(d0, a.size, a.id, edges) && edgesNow == edges + Touched(d0, a, P)
    requires enq == QueuedNeighbours(d0, a, p, |a.dirs|)
    ensures (edgesNow - set q | q in enq) + BorderNeighbours(d0, a, p, |a.dirs|) == edges + Touched(d0, a, P + {p})
  {
    NeighboursExact(d0, a, p, |a.dirs|);
    TouchedCarryId(d0, a, P);
    assert edgesNow - (set q | q in enq) == edgesNow;
    TouchedAdd(d0, a, P, p);
  }

  /** A dequeued pixel that is already visited is dropped. */
  lemma BfsSkip(d0: seq<byte>, d: seq<byte>, dc: seq<byte>, a: FloodArea, pivot: Int2, P: set<Int2>,
                queue: seq<Int2>, edges: set<Int2>, edgesNow: set<Int2>)
    requires queue != [] && BfsInv(d0, d, dc, a, pivot, P, queue, edges, edgesNow)
    requires Open(d0, d, a, pivot) && VisitedAt(dc, a.size, queue[0]) != 0
    ensures BfsInv(d0, d, dc, a, pivot, P, queue[1..], edges, edgesNow)
  {
    var p := queue[0];
    assert p in queue;
    assert p in P || VisitedAt(d, a.size, p) != 0;
    forall q | q in queue[1..] ensures q in queue {
    }
    forall m, i | m in P && 0 <= i < |a.dirs| && a.bounds.Contains(m.Plus(a.dirs[i])) &&
        Open(d0, d, a, m.Plus(a.dirs[i]))
      ensures m.Plus(a.dirs[i]) in P || m.Plus(a.dirs[i]) in queue[1..]
    {
      assert m.Plus(a.dirs[i]) in queue ==> m.Plus(a.dirs[i]) == p || m.Plus(a.dirs[i]) in queue[1..];
    }
  }

  /** With the queue empty, P is exactly what the flood from the pivot reaches. */
  lemma BfsDone(d0: seq<byte>, d: seq<byte>, dc: seq<byte>, a: FloodArea, pivot: Int2, P: set<Int2>,
                edges: set<Int2>, edgesNow: set<Int2>)
    requires BfsInv(d0, d, dc, a, pivot, P, [], edges, edgesNow)
    ensures forall q :: q in P <==> FloodReaches(d0, d, a, pivot, q)
  {
    forall q | FloodReaches(d0, d, a, pivot, q)
      ensures q in P
    {
      var path :| FloodPath(d0, d, a, path) && path[0] == pivot && path[|path| - 1] == q;
      ClosedHoldsPath(d0, d, a, P, path);
    }
  }

  /** A flood path that starts in a closed set stays in it. */
  lemma {:induction false} ClosedHoldsPath(d0: seq<byte>, d: seq<byte>, a: FloodArea, P: set<Int2>, path: seq<Int2>)
    requires FloodClosed(d0, d, a, P, []) && FloodPath(d0, d, a, path) && path[0] in P
    ensures path[|path| - 1] in P
  {
    if |path| > 1 {
      ClosedHoldsPath(d0, d, a, P, path[..|path| - 1]);
      var m, q := path[|path| - 2], path[|path| - 1];
      var i := StepNeighbour(a, m, q);
      assert a.bounds.Contains(m.Plus(a.dirs[i])) && Open(d0, d, a, m.Plus(a.dirs[i]));
    }
  }

  /** No flood starts from a pixel the flood may not enter. */
  lemma NoFloodFrom(d0: seq<byte>, d: seq<byte>, a: FloodArea, pivot: Int2)
    requires !Open(d0, d, a, pivot)
    ensures forall q :: !FloodReaches(d0, d, a, pivot, q)
  {
    forall q | FloodReaches(d0, d, a, pivot, q)
      ensures false
    {
      FloodReachedOpen(d0, d, a, pivot, q);
    }
  }

  // ---------------------------------------------------------------------------
  // The perimeter search: one flood per pivot

  /** The pivot's own contribution: itself, when it is in the image and
      carries the id. */
  function PivotEdge(d: seq<byte>, a: FloodArea, p: Int2): set<Int2> {
    if InImage(a.size, p) && IdAt(d, a.size, p) == a.id then {p} else {}
  }

  ghost function PivotEdges(d: seq<byte>, a: FloodArea, S: set<Int2>): set<Int2> {
    set s | s in S && InImage(a.size, s) && IdAt(d, a.size, s) == a.id
  }

  /** A flood on the unvisited pixels of d0 from some pivot of S reaches q. */
  ghost predicate ReachedFrom(d0: seq<byte>, a: FloodArea, S: set<Int2>, q: Int2) {
    exists s :: s in S && FloodReaches(d0, d0, a, s, q)
  }

  /** After the floods from the pivots S, in any order: the flooded pixels F
      are marked and are what floods from S on d0 reach; the edges are the
      pivots carrying the id and the id pixels the floods touched. */
  ghost predicate SearchInv(d0: seq<byte>, d: seq<byte>, a: FloodArea, S: set<Int2>, F: set<Int2>, edges: set<Int2>) {
    Marked(d0, d, a.size, F) &&
    (forall q {:trigger q in F} :: q in F ==> ReachedFrom(d0, a, S, q)) &&
    (forall q {:trigger ReachedFrom(d0, a, S, q)} :: ReachedFrom(d0, a, S, q) ==> q in F) &&
    edges == PivotEdges(d0, a, S) + Touched(d0, a, F)
  }

  lemma SearchStart(d0: seq<byte>, a: FloodArea)
    ensures SearchInv(d0, d0, a, {}, {}, {})
  {
    TouchedEmpty(d0, a);
  }

  /** The search so far kept to the flood frame and recorded only id pixels. */
  lemma SearchFrame(d0: seq<byte>, d: seq<byte>, a: FloodArea, S: set<Int2>, F: set<Int2>, edges: set<Int2>)
    requires SearchInv(d0, d, a, S, F, edges)
    ensures FloodFrame(d0, d, a.size, a.id) && EdgesCarryId(d0, a.size, a.id, edges)
  {
    forall q | q in F
      ensures IdAt(d0, a.size, q) != a.id
    {
      var s :| s in S && FloodReaches(d0, d0, a, s, q);
      FloodReachedOpen(d0, d0, a, s, q);
    }
    TouchedCarryId(d0, a, F);
  }

  /** One more flood, from p on the current buffer d: what it floods and
      records joins the search's. */
  lemma SearchStep(d0: seq<byte>, d: seq<byte>, d': seq<byte>, a: FloodArea, S: set<Int2>, F: set<Int2>,
                   edges: set<Int2>, p: Int2, flooded: set<Int2>, edges': set<Int2>)
    requires SearchInv(d0, d, a, S, F, edges)
    requires forall q :: q in flooded <==> FloodReaches(d0, d, a, p, q)
    requires Marked(d, d', a.size, flooded)
    requires edges' == edges + PivotEdge(d0, a, p) + Touched(d0, a, flooded)
    ensures SearchInv(d0, d', a, S + {p}, F + flooded, edges')
  {
    MarkedTwice(d0, d, d', a.size, F, flooded);
    forall q
      ensures q in F + flooded <==> ReachedFrom(d0, a, S + {p}, q)
    {
      SearchStepReach(d0, d, a, S, F, p, q);
    }
    TouchedUnion(d0, a, F, flooded);
    PivotEdgesAdd(d0, a, S, p);
  }

  lemma PivotEdgesAdd(d: seq<byte>, a: FloodArea, S: set<Int2>, p: Int2)
    ensures PivotEdges(d, a, S + {p}) == PivotEdges(d, a, S) + PivotEdge(d, a, p)
  {
  }

  lemma SearchStepReach(d0: seq<byte>, d: seq<byte>, a: FloodArea, S: set<Int2>, F: set<Int2>, p: Int2, q: Int2)
    requires Marked(d0, d, a.size, F) && forall x :: x in F <==> ReachedFrom(d0, a, S, x)
    ensures (q in F || FloodReaches(d0, d, a, p, q)) <==> ReachedFrom(d0, a, S + {p}, q)
  {
    if FloodReaches(d0, d, a, p, q) {
      var path :| FloodPath(d0, d, a, path) && path[0] == p && path[|path| - 1] == q;
      WeakenPath(d0, d, a, F, path);
    }
    if ReachedFrom(d0, a, S + {p}, q) {
      var s :| s in S + {p} && FloodReaches(d0, d0, a, s, q);
      if s !in S {
        var path :| FloodPath(d0, d0, a, path) && path[0] == p && path[|path| - 1] == q;
        SplitPath(d0, d, a, S, F, p, path);
      }
    }
  }

  /** A flood path on the current buffer is one on d0. */
  lemma {:induction false} WeakenPath(d0: seq<byte>, d: seq<byte>, a: FloodArea, F: set<Int2>, path: seq<Int2>)
    requires Marked(d0, d, a.size, F) && FloodPath(d0, d, a, path)
    ensures FloodPath(d0, d0, a, path)
  {
    if |path| > 1 {
      WeakenPath(d0, d, a, F, path[..|path| - 1]);
    }
  }

  /** A flood path on d0 from p either ends in a pixel the earlier floods
      reached, or runs entirely through pixels still unvisited in d. */
  lemma {:induction false} SplitPath(d0: seq<byte>, d: seq<byte>, a: FloodArea, S: set<Int2>, F: set<Int2>, p: Int2,
                                     path: seq<Int2>)
    requires Marked(d0, d, a.size, F) && forall x :: x in F <==> ReachedFrom(d0, a, S, x)
    requires FloodPath(d0, d0, a, path) && path[0] == p
    ensures path[|path| - 1] in F || FloodReaches(d0, d, a, p, path[|path| - 1])
  {
    var q := path[|path| - 1];
    if |path| == 1 {
      if q !in F {
        FloodReachStart(d0, d, a, q);
      }
    } else {
      var m := path[|path| - 2];
      SplitPath(d0, d, a, S, F, p, path[..|path| - 1]);
      if m in F {
        var s :| s in S && FloodReaches(d0, d0, a, s, m);
        FloodReachExtend(d0, d0, a, s, m, q);
      } else if q !in F {
        FloodReachExtend(d0, d, a, p, m, q);
      }
    }
  }

  // ---------------------------------------------------------------------------
  // The pivots

  /** The perimeter ComputeBoundEdges starts floods from: rows 0 and height
      and columns 0 and width of the bounds, ends included. */
  predicate OnSearchPerimeter(bounds: Rect, q: Int2) {
    var o := Int2(q.x - bounds.begin.x, q.y - bounds.begin.y);
    ((o.y == 0 || o.y == bounds.Height()) && 0 <= o.x <= bounds.Width()) ||
    ((o.x == 0 || o.x == bounds.Width()) && 0 <= o.y <= bounds.Height())
  }

  /** The first n pivots of a row or a column search. */
  ghost function RowPivots(bounds: Rect, row: int, n: int): set<Int2> {
    set x | 0 <= x < n :: Int2(x, row).Plus(bounds.begin)
  }

  ghost function ColumnPivots(bounds: Rect, column: int, n: int): set<Int2> {
    set y | 0 <= y < n :: Int2(column, y).Plus(bounds.begin)
  }

  lemma RowPivotsStep(bounds: Rect, row: int, n: nat)
    ensures RowPivots(bounds, row, n + 1) == RowPivots(bounds, row, n) + {Int2(n, row).Plus(bounds.begin)}
  {
  }

  lemma ColumnPivotsStep(bounds: Rect, column: int, n: nat)
    ensures ColumnPivots(bounds, column, n + 1) == ColumnPivots(bounds, column, n) + {Int2(column, n).Plus(bounds.begin)}
  {
  }

  /** The two row searches and the two column searches start from exactly the
      perimeter. */
  lemma PerimeterPivots(bounds: Rect, q: Int2)
    ensures var w, h := bounds.Width(), bounds.Height();
      var pivots := RowPivots(bounds, 0, w + 1) + RowPivots(bounds, h, w + 1) + ColumnPivots(bounds, 0, h + 1) +
        ColumnPivots(bounds, w, h + 1);
      q in pivots <==> OnSearchPerimeter(bounds, q)
  {
    var o := Int2(q.x - bounds.begin.x, q.y - bounds.begin.y);
    assert q == o.Plus(bounds.begin);
  }

  /** What ComputeBoundEdges computes from the buffer d0 it starts on: the
      flooded pixels are marked in d, and are exactly those a flood from some
      perimeter pixel reaches through unvisited pixels without the id inside
      the bounds; the edges are exactly the perimeter pixels of the image
      carrying the id and the id pixels next to a flooded pixel inside the
      bounds. */
  ghost predicate BoundEdgesOf(d0: seq<byte>, d: seq<byte>, a: FloodArea, flooded: set<Int2>, edges: set<Int2>) {
    Marked(d0, d, a.size, flooded) &&
    (forall q :: q in flooded <==> exists s :: OnSearchPerimeter(a.bounds, s) && FloodReaches(d0, d0, a, s, q)) &&
    (forall q :: q in edges <==>
      (OnSearchPerimeter(a.bounds, q) && InImage(a.size, q) && IdAt(d0, a.size, q) == a.id) ||
      q in Touched(d0, a, flooded))
  }

  /** The search from every perimeter pixel is BoundEdgesOf. */
  lemma SearchIsBoundEdges(d0: seq<byte>, d: seq<byte>, a: FloodArea, S: set<Int2>, F: set<Int2>, edges: set<Int2>)
    requires SearchInv(d0, d, a, S, F, edges)
    requires forall q :: q in S <==> OnSearchPerimeter(a.bounds, q)
    ensures BoundEdgesOf(d0, d, a, F, edges)
  {
    forall q | q in F
      ensures exists s :: OnSearchPerimeter(a.bounds, s) && FloodReaches(d0, d0, a, s, q)
    {
      var s :| s in S && FloodReaches(d0, d0, a, s, q);
    }
    forall q | exists s :: OnSearchPerimeter(a.bounds, s) && FloodReaches(d0, d0, a, s, q)
      ensures q in F
    {
      var s :| OnSearchPerimeter(a.bounds, s) && FloodReaches(d0, d0, a, s, q);
      assert s in S;
      assert ReachedFrom(d0, a, S, q);
    }
  }
}
