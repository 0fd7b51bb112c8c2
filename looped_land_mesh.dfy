/** LoopedLandMesh: turns one cluster of the height map into a stack of
    decimated border loops and a triangle strip between consecutive loops.
    Its state is a class whose methods update the fields the source updates;
    the loops, layout and triangles are proved against MeshLoops and
    MeshTriangles. */
module LandMesh {
  import opened PixelBuffer
  import opened ClusterMerge
  import opened BorderFlood
  import opened MeshLoops
  import opened MeshTriangulation

  /** Mathf.Clamp on integers. */
  function Clamp(value: int, min: int, max: int): (r: int)
    ensures min <= max ==> min <= r <= max
    ensures min <= value <= max ==> r == value
  {
    if value < min then min else if value > max then max else value
  }

  /** The unclamped running value after the given steps: each step moves it
      down when the deltas decrement and up otherwise. */
  function RunningValue(initValue: int, verticalDecrement: bool, steps: seq<int>): int {
    if steps == [] then initValue
    else RunningValue(initValue, verticalDecrement, steps[..|steps| - 1]) + steps[|steps| - 1] * (if verticalDecrement then -1 else 1)
  }

  /** With non-negative steps the running value moves one way only. */
  lemma {:induction false} RunningValueMonotone(initValue: int, verticalDecrement: bool, steps: seq<int>, i: nat, j: nat)
    requires i <= j <= |steps| && forall k :: 0 <= k < |steps| ==> steps[k] >= 0
    ensures verticalDecrement ==> RunningValue(initValue, verticalDecrement, steps[..j]) <= RunningValue(initValue, verticalDecrement, steps[..i])
    ensures !verticalDecrement ==> RunningValue(initValue, verticalDecrement, steps[..i]) <= RunningValue(initValue, verticalDecrement, steps[..j])
    decreases j - i
  {
    if i < j {
      RunningValueMonotone(initValue, verticalDecrement, steps, i, j - 1);
      assert steps[..j][..j - 1] == steps[..j - 1];
    }
  }

  /** The clamped deltas of the constructor: with steps drawn from
      Random.Range(3, 10) they never increase when decrementing and never
      decrease otherwise, between 3 and 50. */
  lemma DeltasMonotone(initValue: int, verticalDecrement: bool, steps: seq<int>, i: nat, j: nat)
    requires i <= j < |steps| && forall k :: 0 <= k < |steps| ==> steps[k] >= 0
    ensures var di := Clamp(RunningValue(initValue, verticalDecrement, steps[..i + 1]), 3, 50);
      var dj := Clamp(RunningValue(initValue, verticalDecrement, steps[..j + 1]), 3, 50);
      3 <= di <= 50 && 3 <= dj <= 50 &&
      (verticalDecrement ==> dj <= di) && (!verticalDecrement ==> di <= dj)
  {
    RunningValueMonotone(initValue, verticalDecrement, steps, i + 1, j + 1);
  }

  /** The constructor's delta loop: nextValue = value + step * (±1), the
      clamped value stored, the unclamped one carried on. */
  method ComputeDecimateDeltas(verticalLoopsCount: nat, verticalDecrement: bool, initDraw: int, stepDraws: seq<int>)
    returns (deltas: array<int>)
    requires |stepDraws| == verticalLoopsCount
    ensures fresh(deltas) && deltas.Length == verticalLoopsCount
    ensures forall i :: 0 <= i < verticalLoopsCount ==>
      deltas[i] == Clamp(RunningValue(initDraw, verticalDecrement, stepDraws[..i + 1]), 3, 50) && 3 <= deltas[i] <= 50
  {
    deltas := new int[verticalLoopsCount];
    var initValue := initDraw;
    var i := 0;
    while i < verticalLoopsCount
      invariant 0 <= i <= verticalLoopsCount
      invariant initValue == RunningValue(initDraw, verticalDecrement, stepDraws[..i])
      invariant forall k :: 0 <= k < i ==> deltas[k] == Clamp(RunningValue(initDraw, verticalDecrement, stepDraws[..k + 1]), 3, 50)
    {
      var nextValue := initValue + stepDraws[i] * (if verticalDecrement then -1 else 1);
      assert stepDraws[..i + 1][..i] == stepDraws[..i];
      deltas[i] := Clamp(nextValue, 3, 50);
      initValue := nextValue;
      i := i + 1;
    }
  }

  // ---------------------------------------------------------------------
  // The 3-channel snapshot

  /** The snapshot holds the readback's height and cluster id for every pixel
      and a cleared visited byte. */
  ghost predicate IsSnapshotOf(copy: seq<byte>, source: seq<byte>, size: Int2) {
    WellFormed(|copy|, size, 3) &&
    forall q :: InImage(size, q) ==>
      HeightAt(copy, size, q) == Channel(source, size, 4, q, HEIGHT) &&
      IdAt(copy, size, q) == Channel(source, size, 4, q, CLUSTER_ID) &&
      VisitedAt(copy, size, q) == 0
  }

  /** Row-major scan order: q comes before pixel (x, y). */
  predicate ScannedBefore(q: Int2, x: int, y: int) {
    q.y < y || (q.y == y && q.x < x)
  }

  /** UpdateTextureData's copy so far: every visited byte 0, and height and
      id copied for the pixels before (x, y). */
  ghost predicate CopiedBefore(copy: seq<byte>, source: seq<byte>, size: Int2, x: int, y: int) {
    WellFormed(|copy|, size, 3) &&
    forall q :: InImage(size, q) ==>
      VisitedAt(copy, size, q) == 0 &&
      (ScannedBefore(q, x, y) ==>
        HeightAt(copy, size, q) == Channel(source, size, 4, q, HEIGHT) &&
        IdAt(copy, size, q) == Channel(source, size, 4, q, CLUSTER_ID))
  }

  /** Copying the height and id of pixel (x, y) moves the copy one pixel on. */
  lemma CopyStep(copy: seq<byte>, source: seq<byte>, size: Int2, x: int, y: int)
    requires WellFormed(|source|, size, 4) && CopiedBefore(copy, source, size, x, y)
    requires 0 <= x < size.x && 0 <= y < size.y
    ensures var i, j := PixelIndex(size.x, 3, Int2(x, y)), PixelIndex(size.x, 4, Int2(x, y));
      0 <= i && i + 3 <= |copy| && 0 <= j && j + 4 <= |source| &&
      CopiedBefore(copy[i + HEIGHT := source[j + HEIGHT]][i + CLUSTER_ID := source[j + CLUSTER_ID]], source, size, x + 1, y)
  {
    var p := Int2(x, y);
    var i, j := PixelIndex(size.x, 3, p), PixelIndex(size.x, 4, p);
    PixelRunInside(size, 3, p);
    PixelRunInside(size, 4, p);
    var c1 := copy[i + HEIGHT := source[j + HEIGHT]];
    var c2 := c1[i + CLUSTER_ID := source[j + CLUSTER_ID]];
    forall q | InImage(size, q)
      ensures VisitedAt(c2, size, q) == 0
      ensures ScannedBefore(q, x + 1, y) ==>
        HeightAt(c2, size, q) == Channel(source, size, 4, q, HEIGHT) &&
        IdAt(c2, size, q) == Channel(source, size, 4, q, CLUSTER_ID)
    {
      WriteChannelAt(copy, size, 3, p, HEIGHT, source[j + HEIGHT], q, HEIGHT);
      WriteChannelAt(copy, size, 3, p, HEIGHT, source[j + HEIGHT], q, CLUSTER_ID);
      WriteChannelAt(copy, size, 3, p, HEIGHT, source[j + HEIGHT], q, VISITED);
      WriteChannelAt(c1, size, 3, p, CLUSTER_ID, source[j + CLUSTER_ID], q, HEIGHT);
      WriteChannelAt(c1, size, 3, p, CLUSTER_ID, source[j + CLUSTER_ID], q, CLUSTER_ID);
      WriteChannelAt(c1, size, 3, p, CLUSTER_ID, source[j + CLUSTER_ID], q, VISITED);
    }
  }

  /** A finished row is the start of the next. */
  lemma RowCopied(copy: seq<byte>, source: seq<byte>, size: Int2, y: int)
    requires CopiedBefore(copy, source, size, size.x, y)
    ensures CopiedBefore(copy, source, size, 0, y + 1)
  {
  }

  /** A copy finished on every row is a snapshot of the source. */
  lemma SnapshotCopied(copy: seq<byte>, source: seq<byte>, size: Int2)
    requires CopiedBefore(copy, source, size, 0, size.y)
    ensures IsSnapshotOf(copy, source, size)
  {
  }

  // ---------------------------------------------------------------------
  // ExpandClusterBorders

  /** The 8-neighbourhood in the order ExpandClusterBorders counts it. */
  const EXPAND_SEARCH: seq<Int2> :=
    [Int2(-1, -1), Int2(0, -1), Int2(1, -1), Int2(-1, 0), Int2(1, 0), Int2(-1, 1), Int2(0, 1), Int2(1, 1)]

  /** How many of the first n neighbours of q lie in the image and carry id. */
  function NeighboursWithId(d: seq<byte>, size: Int2, id: byte, q: Int2, n: nat): (r: nat)
    requires n <= |EXPAND_SEARCH|
    ensures r <= n
  {
    if n == 0 then 0
    else
      var p := q.Plus(EXPAND_SEARCH[n - 1]);
      NeighboursWithId(d, size, id, q, n - 1) + (if InImage(size, p) && IdAt(d, size, p) == id then 1 else 0)
  }

  /** The pixels ExpandClusterBorders scans: the bounds grown by one pixel on
      every side, the far edges included. */
  predicate InExpandScan(bounds: Rect, q: Int2) {
    bounds.begin.x - 1 <= q.x <= bounds.begin.x + bounds.Width() &&
    bounds.begin.y - 1 <= q.y <= bounds.begin.y + bounds.Height()
  }

  /** A scanned pixel of the image is relabelled when some but not all of its
      eight neighbours carry the cluster's id. */
  predicate Expands(d: seq<byte>, size: Int2, bounds: Rect, id: byte, q: Int2) {
    InExpandScan(bounds, q) && InImage(size, q) &&
    NeighboursWithId(d, size, id, q, |EXPAND_SEARCH|) != 0 &&
    NeighboursWithId(d, size, id, q, |EXPAND_SEARCH|) != |EXPAND_SEARCH|
  }

  /** ExpandClusterBorders' outcome: exactly the expanding pixels take the
      id; heights and visited bytes stay. */
  ghost predicate ExpandedFrom(cur: seq<byte>, d: seq<byte>, size: Int2, bounds: Rect, id: byte) {
    |cur| == |d| &&
    forall q :: InImage(size, q) ==>
      IdAt(cur, size, q) == (if Expands(d, size, bounds, id, q) then id else IdAt(d, size, q)) &&
      HeightAt(cur, size, q) == HeightAt(d, size, q) && VisitedAt(cur, size, q) == VisitedAt(d, size, q)
  }

  /** Expansion only adds pixels to the cluster, and only inside the scanned
      rectangle. */
  lemma ExpandOnlyGrows(cur: seq<byte>, d: seq<byte>, size: Int2, bounds: Rect, id: byte, q: Int2)
    requires ExpandedFrom(cur, d, size, bounds, id) && InImage(size, q)
    ensures IdAt(d, size, q) == id ==> IdAt(cur, size, q) == id
    ensures IdAt(cur, size, q) != IdAt(d, size, q) ==> InExpandScan(bounds, q) && IdAt(cur, size, q) == id
  {
  }

  /** The pixels of `done` have been given id; nothing else differs from d. */
  ghost predicate RelabelledAt(cur: seq<byte>, d: seq<byte>, size: Int2, id: byte, done: seq<Int2>) {
    |cur| == |d| &&
    forall q :: InImage(size, q) ==>
      IdAt(cur, size, q) == (if q in done then id else IdAt(d, size, q)) &&
      HeightAt(cur, size, q) == HeightAt(d, size, q) && VisitedAt(cur, size, q) == VisitedAt(d, size, q)
  }

  /** One write of the relabelling pass. */
  lemma RelabelStep(cur: seq<byte>, d: seq<byte>, size: Int2, id: byte, done: seq<Int2>, p: Int2)
    requires WellFormed(|cur|, size, 3) && InImage(size, p) && RelabelledAt(cur, d, size, id, done)
    ensures 0 <= PixelIndex(size.x, 3, p) + CLUSTER_ID < |cur|
    ensures RelabelledAt(cur[PixelIndex(size.x, 3, p) + CLUSTER_ID := id], d, size, id, done + [p])
  {
    PixelRunInside(size, 3, p);
    var cur' := cur[PixelIndex(size.x, 3, p) + CLUSTER_ID := id];
    forall q | InImage(size, q)
      ensures IdAt(cur', size, q) == (if q in done + [p] then id else IdAt(d, size, q))
      ensures HeightAt(cur', size, q) == HeightAt(d, size, q) && VisitedAt(cur', size, q) == VisitedAt(d, size, q)
    {
      WriteChannelAt(cur, size, 3, p, CLUSTER_ID, id, q, CLUSTER_ID);
      WriteChannelAt(cur, size, 3, p, CLUSTER_ID, id, q, HEIGHT);
      WriteChannelAt(cur, size, 3, p, CLUSTER_ID, id, q, VISITED);
    }
  }

  /** Relabelling exactly the expanding pixels is ExpandClusterBorders' outcome. */
  lemma RelabelledExpands(cur: seq<byte>, d: seq<byte>, size: Int2, bounds: Rect, id: byte, pixels: seq<Int2>)
    requires RelabelledAt(cur, d, size, id, pixels)
    requires forall q :: q in pixels <==> Expands(d, size, bounds, id, q)
    ensures ExpandedFrom(cur, d, size, bounds, id)
  {
  }

  /** The scan of ExpandClusterBorders so far: the list holds exactly the
      expanding pixels whose offset from the bounds' origin comes before
      (x, y), each with its buffer index. */
  ghost predicate ScanList(d: seq<byte>, size: Int2, bounds: Rect, id: byte, pixels: seq<Int2>, indexes: seq<int>, x: int, y: int) {
    |indexes| == |pixels| &&
    (forall k :: 0 <= k < |pixels| ==> InImage(size, pixels[k]) && indexes[k] == PixelIndex(size.x, 3, pixels[k])) &&
    forall q :: q in pixels <==>
      Expands(d, size, bounds, id, q) && ScannedBefore(Int2(q.x - bounds.begin.x, q.y - bounds.begin.y), x, y)
  }

  /** Scanning pixel (x, y) of the grown bounds: it is listed exactly when
      it expands. */
  lemma ScanStep(d: seq<byte>, size: Int2, bounds: Rect, id: byte, pixels: seq<Int2>, indexes: seq<int>, x: int, y: int,
                 add: bool, index: int)
    requires ScanList(d, size, bounds, id, pixels, indexes, x, y)
    requires var p := Int2(x, y).Plus(bounds.begin);
      (add <==> Expands(d, size, bounds, id, p)) && (add ==> index == PixelIndex(size.x, 3, p))
    ensures var p := Int2(x, y).Plus(bounds.begin);
      ScanList(d, size, bounds, id, if add then pixels + [p] else pixels, if add then indexes + [index] else indexes, x + 1, y)
  {
    var p := Int2(x, y).Plus(bounds.begin);
    var pixels' := if add then pixels + [p] else pixels;
    forall q ensures q in pixels' <==>
      Expands(d, size, bounds, id, q) && ScannedBefore(Int2(q.x - bounds.begin.x, q.y - bounds.begin.y), x + 1, y)
    {
      if q == p {
        assert Int2(q.x - bounds.begin.x, q.y - bounds.begin.y) == Int2(x, y);
      }
    }
  }

  /** A finished row hands over to the next. */
  lemma ScanNextRow(d: seq<byte>, size: Int2, bounds: Rect, id: byte, pixels: seq<Int2>, indexes: seq<int>, y: int)
    requires ScanList(d, size, bounds, id, pixels, indexes, bounds.Width() + 1, y)
    ensures ScanList(d, size, bounds, id, pixels, indexes, -1, y + 1)
  {
  }

  /** A row of a bounds narrower than -1 scans nothing. */
  lemma ScanEmptyRow(d: seq<byte>, size: Int2, bounds: Rect, id: byte, pixels: seq<Int2>, indexes: seq<int>, y: int)
    requires bounds.Width() + 1 < -1 && ScanList(d, size, bounds, id, pixels, indexes, -1, y)
    ensures ScanList(d, size, bounds, id, pixels, indexes, bounds.Width() + 1, y)
  {
  }

  /** After the last row every expanding pixel is listed. */
  lemma ScanFinished(d: seq<byte>, size: Int2, bounds: Rect, id: byte, pixels: seq<Int2>, indexes: seq<int>, y: int)
    requires ScanList(d, size, bounds, id, pixels, indexes, -1, y) && y > bounds.Height()
    ensures forall q :: q in pixels <==> Expands(d, size, bounds, id, q)
  {
  }

  class LoopedLandMesh {
    const clusterMetadata: ClusterMetaData
    const verticalLoopsCount: nat
    const decimateRandomDeltas: array<int>
    /** The neighbour table the TextureDataUtility is built with. */
    const neighborSearchDirections: seq<Int2>

    var textureDataUtility: TextureDataUtility?
    var maskLoop: seq<Int2>
    var horizontalLoops: seq<seq<Int2>>
    var meshPoints: seq<MeshPoint>
    var triangles: seq<int>

    /** The snapshot is in place and there is one delta per vertical level. */
    ghost predicate Valid()
      reads this
    {
      textureDataUtility != null && textureDataUtility.Valid() && decimateRandomDeltas.Length == verticalLoopsCount
    }

    /** The random draws of the source are parameters: verticalDecrement is
        Random.value > 0.5, highDraw Random.Range(20, 30), lowDraw
        Random.Range(3, 7) and stepDraws one Random.Range(3, 10) per loop. */
    constructor (metadata: ClusterMetaData, verticalMeshResolution: nat, neighborSearchDirections: seq<Int2>,
                 verticalDecrement: bool, highDraw: int, lowDraw: int, stepDraws: seq<int>)
      requires |stepDraws| == verticalMeshResolution
      ensures clusterMetadata == metadata && verticalLoopsCount == verticalMeshResolution
      ensures this.neighborSearchDirections == neighborSearchDirections
      ensures decimateRandomDeltas.Length == verticalMeshResolution
      ensures forall i :: 0 <= i < verticalMeshResolution ==>
        decimateRandomDeltas[i] == Clamp(RunningValue(if verticalDecrement then highDraw else lowDraw, verticalDecrement, stepDraws[..i + 1]), 3, 50)
      ensures textureDataUtility == null && maskLoop == [] && horizontalLoops == [] && meshPoints == [] && triangles == []
    {
      var initValue := highDraw;
      if !verticalDecrement {
        initValue := lowDraw;
      }
      var deltas := ComputeDecimateDeltas(verticalMeshResolution, verticalDecrement, initValue, stepDraws);
      clusterMetadata := metadata;
      verticalLoopsCount := verticalMeshResolution;
      decimateRandomDeltas := deltas;
      this.neighborSearchDirections := neighborSearchDirections;
      textureDataUtility := null;
      maskLoop := [];
      horizontalLoops := [];
      meshPoints := [];
      triangles := [];
    }

    /** UpdateTextureData: a 3-channel snapshot of the RGBA readback with
        height and cluster id copied and the visited byte left 0, wrapped in a
        fresh TextureDataUtility.  The thread start is not modelled. */
    method UpdateTextureData(textureData: array<byte>, texturePixelSize: Int2)
      requires WellFormed(textureData.Length, texturePixelSize, 4) && decimateRandomDeltas.Length == verticalLoopsCount
      modifies this
      ensures Valid() && fresh(textureDataUtility) && fresh(textureDataUtility.data)
      ensures textureDataUtility.textureSize == texturePixelSize
      ensures textureDataUtility.searchDirections == neighborSearchDirections
      ensures IsSnapshotOf(textureDataUtility.data[..], textureData[..], texturePixelSize)
      ensures maskLoop == old(maskLoop) && horizontalLoops == old(horizontalLoops)
      ensures meshPoints == old(meshPoints) && triangles == old(triangles)
    {
      var size := texturePixelSize;
      var textureDataCopy := new byte[size.x * size.y * 3](_ => 0);
      ghost var src := textureData[..];
      var y := 0;
      while y < size.y
        modifies textureDataCopy
        invariant 0 <= y <= size.y
        invariant CopiedBefore(textureDataCopy[..], src, size, 0, y)
      {
        CopyRow(textureData, textureDataCopy, size, y);
        RowCopied(textureDataCopy[..], src, size, y);
        y := y + 1;
      }
      SnapshotCopied(textureDataCopy[..], src, size);
      textureDataUtility := new TextureDataUtility(textureDataCopy, size, 3, neighborSearchDirections);
    }

    /** The inner loop of UpdateTextureData's copy: row y, pixel by pixel. */
    static method CopyRow(textureData: array<byte>, textureDataCopy: array<byte>, size: Int2, y: int)
      requires WellFormed(textureData.Length, size, 4) && 0 <= y < size.y
      requires CopiedBefore(textureDataCopy[..], textureData[..], size, 0, y)
      modifies textureDataCopy
      ensures CopiedBefore(textureDataCopy[..], old(textureData[..]), size, size.x, y)
    {
      ghost var src := textureData[..];
      var x := 0;
      while x < size.x
        invariant 0 <= x <= size.x && textureData[..] == src
        invariant CopiedBefore(textureDataCopy[..], src, size, x, y)
      {
        CopyStep(textureDataCopy[..], src, size, x, y);
        CopyPixel(textureData, textureDataCopy, size, x, y);
        x := x + 1;
      }
    }

    /** The loop body of the copy: height and id of pixel (x, y) from the
        4-channel readback into the 3-channel buffer. */
    static method CopyPixel(textureData: array<byte>, textureDataCopy: array<byte>, size: Int2, x: int, y: int)
      requires WellFormed(textureData.Length, size, 4) && WellFormed(textureDataCopy.Length, size, 3)
      requires 0 <= x < size.x && 0 <= y < size.y
      modifies textureDataCopy
      ensures var i, j := PixelIndex(size.x, 3, Int2(x, y)), PixelIndex(size.x, 4, Int2(x, y));
        0 <= i && i + 3 <= textureDataCopy.Length && 0 <= j && j + 4 <= textureData.Length &&
        textureDataCopy[..] == old(textureDataCopy[..])[i + HEIGHT := textureData[j + HEIGHT]][i + CLUSTER_ID := textureData[j + CLUSTER_ID]]
    {
      PixelRunInside(size, 3, Int2(x, y));
      PixelRunInside(size, 4, Int2(x, y));
      var iOriginal := (x + y * size.x) * 4;
      var iCopy := (x + y * size.x) * 3;
      textureDataCopy[iCopy + HEIGHT] := textureData[iOriginal + HEIGHT];
      textureDataCopy[iCopy + CLUSTER_ID] := textureData[iOriginal + CLUSTER_ID];
    }

    /** ExpandClusterBorders: first collect every scanned pixel of the image
        with a neighbour count other than 0 and 8, then give each the cluster's
        id.  Only the id channel changes, so the set of pixels carrying the id
        only grows. */
    method ExpandClusterBorders()
      requires Valid()
      modifies textureDataUtility.data
      ensures ExpandedFrom(textureDataUtility.data[..], old(textureDataUtility.data[..]), textureDataUtility.textureSize,
        clusterMetadata.bounds, clusterMetadata.clusterId)
    {
      var utility := textureDataUtility;
      var size := utility.textureSize;
      var bounds := clusterMetadata.bounds;
      var id := clusterMetadata.clusterId;
      ghost var d := utility.data[..];
      var expandPixels, expandIndexesList := CollectExpandIndexes(utility, bounds, id);
      var i := 0;
      while i < |expandIndexesList|
        invariant 0 <= i <= |expandIndexesList|
        invariant RelabelledAt(utility.data[..], d, size, id, expandPixels[..i])
      {
        ghost var before := utility.data[..];
        var p := expandPixels[i];
        RelabelStep(before, d, size, id, expandPixels[..i], p);
        utility.UpdateTextureData(id, expandIndexesList[i], CLUSTER_ID);
        assert expandPixels[..i + 1] == expandPixels[..i] + [p];
        i := i + 1;
      }
      assert expandPixels[..i] == expandPixels;
      RelabelledExpands(utility.data[..], d, size, bounds, id, expandPixels);
    }

    /** The scan of ExpandClusterBorders: the pixels to relabel, in scan
        order, with their buffer indices. */
    static method CollectExpandIndexes(utility: TextureDataUtility, bounds: Rect, id: byte)
      returns (ghost expandPixels: seq<Int2>, expandIndexesList: seq<int>)
      requires utility.Valid()
      ensures |expandIndexesList| == |expandPixels|
      ensures forall k :: 0 <= k < |expandPixels| ==>
        InImage(utility.textureSize, expandPixels[k]) && expandIndexesList[k] == PixelIndex(utility.textureSize.x, 3, expandPixels[k])
      ensures forall q :: q in expandPixels <==> Expands(utility.data[..], utility.textureSize, bounds, id, q)
    {
      ghost var d := utility.data[..];
      expandPixels, expandIndexesList := [], [];
      var y := -1;
      while y <= bounds.Height()
        invariant -1 <= y && (y == -1 || y <= bounds.Height() + 1)
        invariant ScanList(d, utility.textureSize, bounds, id, expandPixels, expandIndexesList, -1, y)
      {
        expandPixels, expandIndexesList := CollectRow(utility, bounds, id, y, expandPixels, expandIndexesList);
        ScanNextRow(d, utility.textureSize, bounds, id, expandPixels, expandIndexesList, y);
        y := y + 1;
      }
      ScanFinished(d, utility.textureSize, bounds, id, expandPixels, expandIndexesList, y);
    }

    /** The scan over row y of the grown bounds. */
    static method CollectRow(utility: TextureDataUtility, bounds: Rect, id: byte, y: int,
                             ghost pixels: seq<Int2>, indexes: seq<int>)
      returns (ghost expandPixels: seq<Int2>, expandIndexesList: seq<int>)
      requires utility.Valid() && -1 <= y <= bounds.Height()
      requires ScanList(utility.data[..], utility.textureSize, bounds, id, pixels, indexes, -1, y)
      ensures ScanList(utility.data[..], utility.textureSize, bounds, id, expandPixels, expandIndexesList, bounds.Width() + 1, y)
    {
      var size := utility.textureSize;
      var rectBeginPosition := bounds.begin;
      ghost var d := utility.data[..];
      expandPixels, expandIndexesList := pixels, indexes;
      var x := -1;
      while x <= bounds.Width()
        invariant -1 <= x && (x == -1 || x <= bounds.Width() + 1)
        invariant ScanList(d, size, bounds, id, expandPixels, expandIndexesList, x, y)
      {
        expandPixels, expandIndexesList := ScanPixel(utility, bounds, id, x, y, expandPixels, expandIndexesList);
        x := x + 1;
      }
      if bounds.Width() + 1 < -1 {
        ScanEmptyRow(d, size, bounds, id, expandPixels, expandIndexesList, y);
      }
    }

    /** The body of the scan at pixel (x, y) + begin: listed when in range
        and some but not all of its neighbours carry the id. */
    static method ScanPixel(utility: TextureDataUtility, bounds: Rect, id: byte, x: int, y: int,
                            ghost pixels: seq<Int2>, indexes: seq<int>)
      returns (ghost expandPixels: seq<Int2>, expandIndexesList: seq<int>)
      requires utility.Valid() && -1 <= x <= bounds.Width() && -1 <= y <= bounds.Height()
      requires ScanList(utility.data[..], utility.textureSize, bounds, id, pixels, indexes, x, y)
      ensures ScanList(utility.data[..], utility.textureSize, bounds, id, expandPixels, expandIndexesList, x + 1, y)
    {
      var rectBeginPosition := bounds.begin;
      var pixel := Int2(x, y).Plus(rectBeginPosition);
      var neighborCounter := CountNeighbours(utility, x, y, rectBeginPosition, id);
      var r := utility.IsPixelInRange(pixel);
      InRangeIffInImage(utility.data.Length, utility.textureSize, 3, pixel);
      assert InExpandScan(bounds, pixel);
      var add := r.inRange && neighborCounter != 0 && neighborCounter != 8;
      ScanStep(utility.data[..], utility.textureSize, bounds, id, pixels, indexes, x, y, add, r.index);
      expandPixels, expandIndexesList := pixels, indexes;
      if r.inRange {
        if neighborCounter != 0 && neighborCounter != 8 {
          expandIndexesList := expandIndexesList + [r.index];
          expandPixels := expandPixels + [pixel];
        }
      }
    }

    /** The inner loop of the scan: the neighbours of pixel (x, y) + begin in
        range whose id is the cluster's. */
    static method CountNeighbours(utility: TextureDataUtility, x: int, y: int, rectBeginPosition: Int2, id: byte)
      returns (neighborCounter: nat)
      requires utility.Valid()
      ensures neighborCounter == NeighboursWithId(utility.data[..], utility.textureSize, id, Int2(x, y).Plus(rectBeginPosition), |EXPAND_SEARCH|)
    {
      var size := utility.textureSize;
      var q := Int2(x, y).Plus(rectBeginPosition);
      var searchSpace := EXPAND_SEARCH;
      neighborCounter := 0;
      var k := 0;
      while k < |searchSpace|
        invariant 0 <= k <= |searchSpace|
        invariant neighborCounter == NeighboursWithId(utility.data[..], size, id, q, k)
      {
        var neighbour := Int2(x, y).Plus(searchSpace[k]).Plus(rectBeginPosition);
        assert neighbour == q.Plus(EXPAND_SEARCH[k]);
        var r := utility.IsPixelInRange(neighbour);
        InRangeIffInImage(utility.data.Length, size, 3, neighbour);
        if r.inRange {
          PixelValuesOfPixel(utility.data[..], size, 3, neighbour);
          var neighborValues := utility.GetPixelValues(r.index);
          if neighborValues[CLUSTER_ID] == id {
            neighborCounter := neighborCounter + 1;
          }
        }
        k := k + 1;
      }
    }

    /** The setting of every flood of this mesher. */
    function Area(): FloodArea
      reads this
      requires textureDataUtility != null
    {
      FloodArea(textureDataUtility.textureSize, clusterMetadata.clusterId, clusterMetadata.bounds,
                textureDataUtility.searchDirections)
    }

    /** ComputeBoundEdges: from every perimeter pixel of the bounds, record it
        as an edge when it carries the cluster's id, and otherwise flood the
        pixels without the id inside the bounds, recording the id pixels the
        flood touches.  The flooded pixels are exactly those reachable from the
        perimeter, and exactly they are marked visited; the edges are exactly
        the perimeter pixels with the id and the id pixels next to the flood. */
    method ComputeBoundEdges() returns (edges: set<Int2>, ghost flooded: set<Int2>)
      requires Valid()
      modifies textureDataUtility.data
      ensures BoundEdgesOf(old(textureDataUtility.data[..]), textureDataUtility.data[..], Area(), flooded, edges)
      ensures FloodFrame(old(textureDataUtility.data[..]), textureDataUtility.data[..], textureDataUtility.textureSize, clusterMetadata.clusterId)
      ensures EdgesCarryId(textureDataUtility.data[..], textureDataUtility.textureSize, clusterMetadata.clusterId, edges)
    {
      var utility := textureDataUtility;
      var searchRect := clusterMetadata.bounds;
      var w, h := searchRect.Width(), searchRect.Height();
      ghost var d0 := utility.data[..];
      ghost var S: set<Int2> := {};
      flooded := {};
      edges := {};
      SearchStart(d0, Area());
      var j := 0;
      while j < 2
        invariant 0 <= j <= 2
        invariant SearchInv(d0, utility.data[..], Area(), S, flooded, edges)
        invariant S == (if j >= 1 then RowPivots(searchRect, 0, w + 1) else {}) + (if j >= 2 then RowPivots(searchRect, h, w + 1) else {})
      {
        var searchRow := if j == 0 then 0 else h;
        edges, S, flooded := SearchRow(searchRow, edges, d0, S, flooded);
        j := j + 1;
      }
      ghost var rows := S;
      j := 0;
      while j < 2
        invariant 0 <= j <= 2
        invariant SearchInv(d0, utility.data[..], Area(), S, flooded, edges)
        invariant S == rows + (if j >= 1 then ColumnPivots(searchRect, 0, h + 1) else {}) + (if j >= 2 then ColumnPivots(searchRect, w, h + 1) else {})
      {
        var searchColumn := if j == 0 then 0 else w;
        edges, S, flooded := SearchColumn(searchColumn, edges, d0, S, flooded);
        j := j + 1;
      }
      forall q ensures q in S <==> OnSearchPerimeter(searchRect, q) {
        PerimeterPivots(searchRect, q);
      }
      SearchIsBoundEdges(d0, utility.data[..], Area(), S, flooded, edges);
      SearchFrame(d0, utility.data[..], Area(), S, flooded, edges);
      FloodKeepsIds(d0, utility.data[..], utility.textureSize, clusterMetadata.clusterId, edges);
    }

    /** The inner loop of ComputeBoundEdges over a row of the bounds: a flood
        from every pixel of the row, both ends included. */
    method SearchRow(searchRow: int, edges: set<Int2>, ghost d0: seq<byte>, ghost S: set<Int2>, ghost F: set<Int2>)
      returns (edges': set<Int2>, ghost S': set<Int2>, ghost F': set<Int2>)
      requires Valid() && SearchInv(d0, textureDataUtility.data[..], Area(), S, F, edges)
      modifies textureDataUtility.data
      ensures SearchInv(d0, textureDataUtility.data[..], Area(), S', F', edges')
      ensures S' == S + RowPivots(clusterMetadata.bounds, searchRow, clusterMetadata.bounds.Width() + 1)
    {
      var searchRect := clusterMetadata.bounds;
      edges', S', F' := edges, S, F;
      var it := 0;
      while it <= searchRect.Width()
        invariant 0 <= it && (it == 0 || it <= searchRect.Width() + 1)
        invariant SearchInv(d0, textureDataUtility.data[..], Area(), S', F', edges')
        invariant S' == S + RowPivots(searchRect, searchRow, it)
      {
        var pivotPoint := Int2(it, searchRow).Plus(searchRect.begin);
        ghost var before := textureDataUtility.data[..];
        ghost var edgesBefore := edges';
        SearchFrame(d0, before, Area(), S', F', edges');
        ghost var flooded;
        edges', flooded := ClusterSearchForPixel(pivotPoint, edges', d0);
        SearchStep(d0, before, textureDataUtility.data[..], Area(), S', F', edgesBefore, pivotPoint, flooded, edges');
        RowPivotsStep(searchRect, searchRow, it);
        S', F' := S' + {pivotPoint}, F' + flooded;
        it := it + 1;
      }
    }

    /** The inner loop of ComputeBoundEdges over a column of the bounds. */
    method SearchColumn(searchColumn: int, edges: set<Int2>, ghost d0: seq<byte>, ghost S: set<Int2>, ghost F: set<Int2>)
      returns (edges': set<Int2>, ghost S': set<Int2>, ghost F': set<Int2>)
      requires Valid() && SearchInv(d0, textureDataUtility.data[..], Area(), S, F, edges)
      modifies textureDataUtility.data
      ensures SearchInv(d0, textureDataUtility.data[..], Area(), S', F', edges')
      ensures S' == S + ColumnPivots(clusterMetadata.bounds, searchColumn, clusterMetadata.bounds.Height() + 1)
    {
      var searchRect := clusterMetadata.bounds;
      edges', S', F' := edges, S, F;
      var it := 0;
      while it <= searchRect.Height()
        invariant 0 <= it && (it == 0 || it <= searchRect.Height() + 1)
        invariant SearchInv(d0, textureDataUtility.data[..], Area(), S', F', edges')
        invariant S' == S + ColumnPivots(searchRect, searchColumn, it)
      {
        var pivotPoint := Int2(searchColumn, it).Plus(searchRect.begin);
        ghost var before := textureDataUtility.data[..];
        ghost var edgesBefore := edges';
        SearchFrame(d0, before, Area(), S', F', edges');
        ghost var flooded;
        edges', flooded := ClusterSearchForPixel(pivotPoint, edges', d0);
        SearchStep(d0, before, textureDataUtility.data[..], Area(), S', F', edgesBefore, pivotPoint, flooded, edges');
        ColumnPivotsStep(searchRect, searchColumn, it);
        S', F' := S' + {pivotPoint}, F' + flooded;
        it := it + 1;
      }
    }

    /** ClusterSearchForPixel, the local function of ComputeBoundEdges: a
        pivot carrying the id is an edge; an unvisited pivot without it starts a
        breadth-first flood (Flood).  Pivots outside the image, and visited
        ones, change nothing. */
    method ClusterSearchForPixel(pivotPoint: Int2, edges: set<Int2>, ghost d0: seq<byte>)
      returns (edges': set<Int2>, ghost flooded: set<Int2>)
      requires Valid()
      requires FloodFrame(d0, textureDataUtility.data[..], textureDataUtility.textureSize, clusterMetadata.clusterId)
      requires EdgesCarryId(d0, textureDataUtility.textureSize, clusterMetadata.clusterId, edges)
      modifies textureDataUtility.data
      ensures forall q :: q in flooded <==> FloodReaches(d0, old(textureDataUtility.data[..]), Area(), pivotPoint, q)
      ensures Marked(old(textureDataUtility.data[..]), textureDataUtility.data[..], textureDataUtility.textureSize, flooded)
      ensures edges' == edges + PivotEdge(d0, Area(), pivotPoint) + Touched(d0, Area(), flooded)
    {
      var id := clusterMetadata.clusterId;
      ghost var d := textureDataUtility.data[..];
      ghost var a := Area();
      edges' := edges;
      flooded := {};
      TouchedEmpty(d0, a);
      var inRange, index, pValues := ProbePixel(pivotPoint);
      if !inRange {
        NoFloodFrom(d0, d, a, pivotPoint);
        return;
      }
      if pValues[CLUSTER_ID] == id {
        edges' := edges' + {pivotPoint};
        NoFloodFrom(d0, d, a, pivotPoint);
        return;
      }
      if pValues[VISITED] != 0 {
        NoFloodFrom(d0, d, a, pivotPoint);
        return;
      }
      edges', flooded := Flood(pivotPoint, edges, d0);
    }

    /** The flood of ClusterSearchForPixel from an open pivot: dequeue, skip
        visited pixels, otherwise process the neighbours and mark the pixel.
        It floods exactly what is reachable from the pivot and records the id
        pixels next to the flood. */
    method Flood(pivotPoint: Int2, edges: set<Int2>, ghost d0: seq<byte>) returns (edges': set<Int2>, ghost flooded: set<Int2>)
      requires Valid()
      requires FloodFrame(d0, textureDataUtility.data[..], textureDataUtility.textureSize, clusterMetadata.clusterId)
      requires EdgesCarryId(d0, textureDataUtility.textureSize, clusterMetadata.clusterId, edges)
      requires Open(d0, textureDataUtility.data[..], Area(), pivotPoint)
      modifies textureDataUtility.data
      ensures forall q :: q in flooded <==> FloodReaches(d0, old(textureDataUtility.data[..]), Area(), pivotPoint, q)
      ensures Marked(old(textureDataUtility.data[..]), textureDataUtility.data[..], textureDataUtility.textureSize, flooded)
      ensures edges' == edges + Touched(d0, Area(), flooded)
    {
      var utility := textureDataUtility;
      var size := utility.textureSize;
      ghost var d := utility.data[..];
      ghost var a := Area();
      var clusterQueue := [pivotPoint];
      edges' := edges;
      flooded := {};
      BfsStart(d0, d, a, pivotPoint, edges);
      while true
        invariant FloodFrame(d0, utility.data[..], size, clusterMetadata.clusterId)
        invariant BfsInv(d0, d, utility.data[..], a, pivotPoint, flooded, clusterQueue, edges, edges')
        decreases |Unvisited(utility.data[..], size)|, |clusterQueue|
      {
        if |clusterQueue| == 0 {
          break;
        }
        assert clusterQueue[0] in clusterQueue;
        var _, currentIndex, currentPixel := ProbePixel(clusterQueue[0]);
        if currentPixel[VISITED] != 0 {
          BfsSkip(d0, d, utility.data[..], a, pivotPoint, flooded, clusterQueue, edges, edges');
          clusterQueue := clusterQueue[1..];
        } else {
          ghost var dc, queue, edgesNow := utility.data[..], clusterQueue, edges';
          clusterQueue, edges' := FloodVisit(clusterQueue, currentIndex, edges');
          BfsMarkVisit(d0, d, dc, utility.data[..], a, pivotPoint, flooded, queue, edges, edgesNow, clusterQueue, edges');
          flooded := flooded + {queue[0]};
        }
      }
      BfsDone(d0, d, utility.data[..], a, pivotPoint, flooded, edges, edges');
    }

    /** IsPixelInRange followed by GetPixelValues: whether the pixel is in the
        image, its buffer index and, when it is, its channels. */
    method ProbePixel(p: Int2) returns (inRange: bool, index: int, values: seq<byte>)
      requires Valid()
      ensures inRange <==> InImage(textureDataUtility.textureSize, p)
      ensures inRange ==> index == PixelIndex(textureDataUtility.textureSize.x, 3, p) && |values| == 3
      ensures inRange ==> values[HEIGHT] == HeightAt(textureDataUtility.data[..], textureDataUtility.textureSize, p)
      ensures inRange ==> values[CLUSTER_ID] == IdAt(textureDataUtility.data[..], textureDataUtility.textureSize, p)
      ensures inRange ==> values[VISITED] == VisitedAt(textureDataUtility.data[..], textureDataUtility.textureSize, p)
    {
      var utility := textureDataUtility;
      var r := utility.IsPixelInRange(p);
      InRangeIffInImage(utility.data.Length, utility.textureSize, 3, p);
      inRange, index := r.inRange, r.index;
      if inRange {
        PixelValuesOfPixel(utility.data[..], utility.textureSize, 3, p);
      }
      values := utility.GetPixelValues(index);
    }

    /** The body of the flood for an unvisited head of the queue: its
        neighbours are processed, then it is marked visited. */
    method FloodVisit(queue: seq<Int2>, currentIndex: int, edgesNow: set<Int2>) returns (clusterQueue: seq<Int2>, edges': set<Int2>)
      requires Valid() && queue != [] && InImage(textureDataUtility.textureSize, queue[0])
      requires currentIndex == PixelIndex(textureDataUtility.textureSize.x, 3, queue[0])
      modifies textureDataUtility.data
      ensures Marked(old(textureDataUtility.data[..]), textureDataUtility.data[..], textureDataUtility.textureSize, {queue[0]})
      ensures clusterQueue == queue[1..] + QueuedNeighbours(old(textureDataUtility.data[..]), Area(), queue[0], |textureDataUtility.searchDirections|)
      ensures edges' == (edgesNow - set q | q in QueuedNeighbours(old(textureDataUtility.data[..]), Area(), queue[0], |textureDataUtility.searchDirections|)) +
        BorderNeighbours(old(textureDataUtility.data[..]), Area(), queue[0], |textureDataUtility.searchDirections|)
    {
      var utility := textureDataUtility;
      clusterQueue, edges' := FloodNeighbours(queue[0], queue[1..], edgesNow);
      MarkOne(utility.data[..], utility.textureSize, queue[0]);
      utility.UpdateTextureData(255, currentIndex, VISITED);
    }

    /** The neighbour loop of the flood: in table order, neighbours inside
        the bounds and the image without the id are queued and taken out of
        the edges; those with the id are added to the edges. */
    method FloodNeighbours(currentPosition: Int2, queue: seq<Int2>, edges: set<Int2>)
      returns (clusterQueue: seq<Int2>, edges': set<Int2>)
      requires Valid()
      ensures clusterQueue == queue + QueuedNeighbours(textureDataUtility.data[..], Area(), currentPosition, |textureDataUtility.searchDirections|)
      ensures edges' == (edges - set q | q in QueuedNeighbours(textureDataUtility.data[..], Area(), currentPosition, |textureDataUtility.searchDirections|)) +
        BorderNeighbours(textureDataUtility.data[..], Area(), currentPosition, |textureDataUtility.searchDirections|)
    {
      var utility := textureDataUtility;
      var size := utility.textureSize;
      var id := clusterMetadata.clusterId;
      var searchRect := clusterMetadata.bounds;
      ghost var a := Area();
      clusterQueue, edges' := queue, edges;
      var it := 0;
      while it < utility.GetNeighborSearchDirectionsCount()
        invariant 0 <= it <= |utility.searchDirections|
        invariant clusterQueue == queue + QueuedNeighbours(utility.data[..], a, currentPosition, it)
        invariant edges' == (edges - set q | q in QueuedNeighbours(utility.data[..], a, currentPosition, it)) +
          BorderNeighbours(utility.data[..], a, currentPosition, it)
      {
        ghost var queued := QueuedNeighbours(utility.data[..], a, currentPosition, it);
        ghost var bordering := BorderNeighbours(utility.data[..], a, currentPosition, it);
        NeighboursExact(utility.data[..], a, currentPosition, it);
        var sd := utility.GetNeighborSearchDirectionAt(it);
        var neighborPos := currentPosition.Plus(sd);
        if searchRect.Contains(neighborPos) {
          var rn := utility.IsPixelInRange(neighborPos);
          InRangeIffInImage(utility.data.Length, size, 3, neighborPos);
          if rn.inRange {
            PixelValuesOfPixel(utility.data[..], size, 3, neighborPos);
            var neighborValues := utility.GetPixelValues(rn.index);
            if neighborValues[CLUSTER_ID] != id {
              assert neighborPos !in bordering;
              clusterQueue := clusterQueue + [neighborPos];
              edges' := edges' - {neighborPos};
            } else {
              edges' := edges' + {neighborPos};
            }
          }
        }
        it := it + 1;
      }
    }

    /** ComputeMaskLoop: starting from an arbitrary edge (HashSet.First), take
        it out and repeatedly step to the first neighbour, in the table's
        order, that is still in the set. */
    method ComputeMaskLoop(edges: set<Int2>)
      requires edges != {}
      modifies this
      ensures maskLoop != [] && maskLoop[0] in edges && maskLoop == MaskLoop(maskLoop[0], edges)
      ensures textureDataUtility == old(textureDataUtility) && horizontalLoops == old(horizontalLoops)
      ensures meshPoints == old(meshPoints) && triangles == old(triangles)
    {
      var pivot :| pivot in edges;
      maskLoop := WalkEdges(edges, pivot);
    }

    /** The walk of ComputeMaskLoop from its first point. */
    static method WalkEdges(edges: set<Int2>, first: Int2) returns (loop: seq<Int2>)
      ensures loop == MaskLoop(first, edges)
    {
      var pivot := first;
      var remaining := edges - {pivot};
      loop := [pivot];
      while true
        invariant MaskLoop(first, edges) == loop + Walk(remaining, pivot)
        decreases |remaining|
      {
        // the first neighbour, in table order, still in the set
        var k := 0;
        while k < |LOOP_SEARCH| && pivot.Plus(LOOP_SEARCH[k]) !in remaining
          invariant 0 <= k <= |LOOP_SEARCH|
          invariant forall m :: 0 <= m < k ==> pivot.Plus(LOOP_SEARCH[m]) !in remaining
        {
          k := k + 1;
        }
        if k == |LOOP_SEARCH| {
          assert Walk(remaining, pivot) == [];
          break;
        }
        var searchPoint := pivot.Plus(LOOP_SEARCH[k]);
        assert FirstConnection(remaining, pivot, 0) == k;
        assert Walk(remaining, pivot) == [searchPoint] + Walk(remaining - {searchPoint}, searchPoint);
        AppendAssociative(loop, [searchPoint], Walk(remaining - {searchPoint}, searchPoint));
        remaining := remaining - {searchPoint};
        pivot := searchPoint;
        loop := loop + [pivot];
      }
    }

    /** DecimateLoop: below a target of 3, or when the loop is already no
        longer than the target, the loop itself; otherwise score every point
        but the first, sort by score, and drop the |loop| - target lowest. */
    method DecimateLoop(loop: seq<Int2>, itemCountTarget: int) returns (result: seq<Int2>)
      ensures result == DecimatedLoop(loop, itemCountTarget)
      ensures itemCountTarget < 3 || |loop| <= itemCountTarget ==> result == loop
      ensures 3 <= itemCountTarget < |loop| ==> |result| == itemCountTarget && result[0] == loop[0]
    {
      if itemCountTarget < 3 {
        return loop;
      }
      if |loop| <= itemCountTarget {
        return loop;
      }
      var n := |loop|;
      var decimateValues := ScoreLoop(loop);
      decimateValues := SortByValue(decimateValues);
      var toDeleteHash := LowestIndices(decimateValues, n - itemCountTarget);
      result := KeepUnmarked(loop, toDeleteHash);
      DecimatedCount(loop, itemCountTarget);
    }

    /** The scoring loop of DecimateLoop: one entry per point but the first. */
    static method ScoreLoop(loop: seq<Int2>) returns (decimateValues: seq<IndexAndDecimateValue>)
      requires |loop| >= 1
      ensures decimateValues == DecimateValues(loop, |loop| - 1)
    {
      var n := |loop|;
      decimateValues := [];
      var i := 1;
      while i < n
        invariant 1 <= i <= n
        invariant decimateValues == DecimateValues(loop, i - 1)
      {
        var edgeA := Minus(loop[GetLoopedIndex(i, n)], loop[GetLoopedIndex(i - 1, n)]);
        var edgeB := Minus(loop[GetLoopedIndex(i, n)], loop[GetLoopedIndex(i + 1, n)]);
        decimateValues := decimateValues + [IndexAndDecimateValue(i, Abs(Dot(edgeA, edgeB)))];
        i := i + 1;
      }
    }

    /** The deletion loop of DecimateLoop: the indices of the first count
        entries of the sorted scores. */
    static method LowestIndices(decimateValues: seq<IndexAndDecimateValue>, count: nat) returns (toDeleteHash: set<nat>)
      requires count <= |decimateValues|
      ensures toDeleteHash == FirstIndices(decimateValues, count)
    {
      toDeleteHash := {};
      var i := 0;
      while i < count
        invariant 0 <= i <= count
        invariant toDeleteHash == FirstIndices(decimateValues, i)
      {
        toDeleteHash := toDeleteHash + {decimateValues[i].index};
        i := i + 1;
      }
    }

    /** The result loop of DecimateLoop: the points whose index is not marked,
        in order. */
    static method KeepUnmarked(loop: seq<Int2>, toDeleteHash: set<nat>) returns (result: seq<Int2>)
      ensures result == Unmarked(loop, toDeleteHash, |loop|)
    {
      result := [];
      var i := 0;
      while i < |loop|
        invariant 0 <= i <= |loop|
        invariant result == Unmarked(loop, toDeleteHash, i)
      {
        if i !in toDeleteHash {
          result := result + [loop[i]];
        }
        i := i + 1;
      }
    }

    /** GenerateMeshPoints: the points of every horizontal loop, loop after
        loop, each with its loop's index (the source's height hDelta * hIndex). */
    method GenerateMeshPoints() returns (points: seq<MeshPoint>)
      ensures points == MeshPoints(horizontalLoops)
    {
      points := [];
      var hIndex := 0;
      while hIndex < |horizontalLoops|
        invariant 0 <= hIndex <= |horizontalLoops|
        invariant points == MeshPoints(horizontalLoops[..hIndex])
      {
        var loop := horizontalLoops[hIndex];
        var j := 0;
        while j < |loop|
          invariant 0 <= j <= |loop|
          invariant points == MeshPoints(horizontalLoops[..hIndex]) + Tagged(loop[..j], hIndex)
        {
          assert Tagged(loop[..j + 1], hIndex) == Tagged(loop[..j], hIndex) + [MeshPoint(loop[j], hIndex)];
          points := points + [MeshPoint(loop[j], hIndex)];
          j := j + 1;
        }
        assert loop[..j] == loop;
        assert horizontalLoops[..hIndex + 1][..hIndex] == horizontalLoops[..hIndex];
        hIndex := hIndex + 1;
      }
      assert horizontalLoops[..hIndex] == horizontalLoops;
    }

    /** TriangulateMeshLoops: for each pair of consecutive loops, walk a pivot
        along each, emitting one triangle per step and advancing one pivot,
        until both have gone round; then move the index base past the bottom
        loop.  angleTest(level, b, u) stands for the float angle comparison. */
    method TriangulateMeshLoops(angleTest: (nat, nat, nat) -> bool)
      requires NonEmptyLoops(horizontalLoops)
      modifies this
      ensures horizontalLoops == old(horizontalLoops)
      ensures triangles == old(triangles) + MeshTriangles(horizontalLoops, angleTest, 0, 0)
      ensures textureDataUtility == old(textureDataUtility) && maskLoop == old(maskLoop) && meshPoints == old(meshPoints)
    {
      ghost var start := triangles;
      var meshPointIndexCarrie: nat := 0;
      var vI := 0;
      while vI + 1 < |horizontalLoops|
        invariant 0 <= vI && (vI == 0 || vI < |horizontalLoops|)
        invariant horizontalLoops == old(horizontalLoops) && textureDataUtility == old(textureDataUtility)
        invariant maskLoop == old(maskLoop) && meshPoints == old(meshPoints)
        invariant start + MeshTriangles(horizontalLoops, angleTest, 0, 0) ==
          triangles + MeshTriangles(horizontalLoops, angleTest, vI, meshPointIndexCarrie)
      {
        ghost var before := triangles;
        ghost var level := LevelTriangles(vI, |horizontalLoops[vI]|, |horizontalLoops[vI + 1]|, meshPointIndexCarrie, angleTest, 0, 0);
        ghost var later := MeshTriangles(horizontalLoops, angleTest, vI + 1, meshPointIndexCarrie + |horizontalLoops[vI]|);
        assert MeshTriangles(horizontalLoops, angleTest, vI, meshPointIndexCarrie) == level + later;
        meshPointIndexCarrie := TriangulateLevel(angleTest, vI, meshPointIndexCarrie);
        AppendAssociative(before, level, later);
        vI := vI + 1;
      }
    }

    /** One level of TriangulateMeshLoops: the strip between loops vI and
        vI + 1, whose bottom loop starts at index meshPointIndexCarrie; the
        index base then moves past the bottom loop. */
    method TriangulateLevel(angleTest: (nat, nat, nat) -> bool, vI: nat, meshPointIndexCarrie: nat) returns (carry': nat)
      requires NonEmptyLoops(horizontalLoops) && vI + 1 < |horizontalLoops|
      modifies this
      ensures horizontalLoops == old(horizontalLoops)
      ensures triangles == old(triangles) + LevelTriangles(vI, |horizontalLoops[vI]|, |horizontalLoops[vI + 1]|, meshPointIndexCarrie, angleTest, 0, 0)
      ensures carry' == meshPointIndexCarrie + |horizontalLoops[vI]|
      ensures textureDataUtility == old(textureDataUtility) && maskLoop == old(maskLoop) && meshPoints == old(meshPoints)
    {
      var bottomCount, upCount := |horizontalLoops[vI]|, |horizontalLoops[vI + 1]|;
      ghost var all := LevelTriangles(vI, bottomCount, upCount, meshPointIndexCarrie, angleTest, 0, 0);
      ghost var emitted: seq<int> := [];
      var bottomPivotIndex, upPivotIndex := 0, 0;
      while true
        invariant horizontalLoops == old(horizontalLoops) && textureDataUtility == old(textureDataUtility)
        invariant maskLoop == old(maskLoop) && meshPoints == old(meshPoints)
        invariant bottomPivotIndex <= bottomCount && upPivotIndex <= upCount
        invariant !(bottomPivotIndex == bottomCount && upPivotIndex == upCount)
        invariant triangles == old(triangles) + emitted
        invariant all == emitted + LevelTriangles(vI, bottomCount, upCount, meshPointIndexCarrie, angleTest, bottomPivotIndex, upPivotIndex)
        decreases (bottomCount - bottomPivotIndex) + (upCount - upPivotIndex)
      {
        var bottomLoop := horizontalLoops[vI];
        var upLoop := horizontalLoops[vI + 1];
        ghost var t := LevelTurn(vI, bottomCount, upCount, meshPointIndexCarrie, angleTest, bottomPivotIndex, upPivotIndex);
        ghost var rest := LevelTriangles(vI, bottomCount, upCount, meshPointIndexCarrie, angleTest, bottomPivotIndex, upPivotIndex);
        var oneTwoConnect := angleTest(vI, bottomPivotIndex, upPivotIndex);
        if upPivotIndex == |upLoop| {
          oneTwoConnect := true;
        }
        if bottomPivotIndex == |bottomLoop| {
          oneTwoConnect := false;
        }
        var meshIndexes: seq<int>;
        if oneTwoConnect {
          meshIndexes := [LoopIndex(bottomPivotIndex + 1, |bottomLoop|) + meshPointIndexCarrie,
                          LoopIndex(upPivotIndex, |upLoop|) + |bottomLoop| + meshPointIndexCarrie,
                          LoopIndex(bottomPivotIndex, |bottomLoop|) + meshPointIndexCarrie];
          if bottomPivotIndex < |bottomLoop| {
            bottomPivotIndex := bottomPivotIndex + 1;
          }
        } else {
          meshIndexes := [LoopIndex(bottomPivotIndex, |bottomLoop|) + meshPointIndexCarrie,
                          LoopIndex(upPivotIndex + 1, |upLoop|) + |bottomLoop| + meshPointIndexCarrie,
                          LoopIndex(upPivotIndex, |upLoop|) + |bottomLoop| + meshPointIndexCarrie];
          if upPivotIndex < |upLoop| {
            upPivotIndex := upPivotIndex + 1;
          }
        }
        assert meshIndexes == t.triangle && bottomPivotIndex == t.bottomPivotIndex && upPivotIndex == t.upPivotIndex;
        triangles := triangles + meshIndexes;
        if upPivotIndex >= |upLoop| && bottomPivotIndex >= |bottomLoop| {
          assert rest == meshIndexes;
          AppendAssociative(old(triangles), emitted, meshIndexes);
          carry' := meshPointIndexCarrie + |bottomLoop|;
          return;
        }
        ghost var rest' := LevelTriangles(vI, bottomCount, upCount, meshPointIndexCarrie, angleTest, bottomPivotIndex, upPivotIndex);
        assert rest == meshIndexes + rest';
        AppendAssociative(emitted, meshIndexes, rest');
        AppendAssociative(old(triangles), emitted, meshIndexes);
        emitted := emitted + meshIndexes;
      }
    }

    /** The loop of ComputeHorizontalLoopProcess that builds the levels: level
        i is the mask loop decimated to pointCount plus level i's delta. */
    method DecimateLevels(pointCount: int)
      requires Valid() && maskLoop != [] && horizontalLoops == []
      modifies this
      ensures NonEmptyLoops(horizontalLoops) && LevelsOf(horizontalLoops, maskLoop, pointCount, decimateRandomDeltas[..])
      ensures maskLoop == old(maskLoop) && textureDataUtility == old(textureDataUtility)
      ensures meshPoints == old(meshPoints) && triangles == old(triangles)
    {
      ghost var mask, deltas := maskLoop, decimateRandomDeltas[..];
      var i := 0;
      while i < verticalLoopsCount
        invariant 0 <= i <= verticalLoopsCount && NonEmptyLoops(horizontalLoops)
        invariant LevelsOf(horizontalLoops, mask, pointCount, deltas[..i])
        invariant maskLoop == mask && textureDataUtility == old(textureDataUtility)
        invariant meshPoints == old(meshPoints) && triangles == old(triangles)
      {
        var decimatedLoop := DecimateLoop(maskLoop, pointCount + decimateRandomDeltas[i]);
        LevelsOfAppend(horizontalLoops, mask, pointCount, deltas, i, decimatedLoop);
        horizontalLoops := horizontalLoops + [decimatedLoop];
        i := i + 1;
      }
      assert deltas[..i] == deltas;
    }

    /** ComputeHorizontalLoopProcess, the body of the meshing thread: expand
        the borders, collect the edges, walk them into the mask loop, decimate
        it once per vertical level, lay the loops out and triangulate.  The
        ghost results name the buffer after the expansion, the flooded pixels
        and the edges ComputeBoundEdges found in it.  With no edge
        HashSet.First throws and the thread ends there (false) with the mesh
        fields untouched.  Otherwise the mask loop is the walk from one of the
        edges, every level is a non-empty decimation of it and every triangle
        index names a mesh point. */
    method ComputeHorizontalLoopProcess(angleTest: (nat, nat, nat) -> bool)
      returns (completed: bool, ghost expanded: seq<byte>, ghost flooded: set<Int2>, ghost edges: set<Int2>)
      requires Valid() && horizontalLoops == [] && triangles == []
      modifies this, textureDataUtility.data
      ensures textureDataUtility == old(textureDataUtility) && Valid()
      ensures ExpandedFrom(expanded, old(textureDataUtility.data[..]), textureDataUtility.textureSize,
        clusterMetadata.bounds, clusterMetadata.clusterId)
      ensures BoundEdgesOf(expanded, textureDataUtility.data[..], Area(), flooded, edges)
      ensures completed <==> edges != {}
      ensures !completed ==>
        maskLoop == old(maskLoop) && horizontalLoops == old(horizontalLoops) &&
        meshPoints == old(meshPoints) && triangles == old(triangles)
      ensures completed ==>
        maskLoop != [] && maskLoop[0] in edges && maskLoop == MaskLoop(maskLoop[0], edges) &&
        NonEmptyLoops(horizontalLoops) && LevelsOf(horizontalLoops, maskLoop, PointCount(|maskLoop|), decimateRandomDeltas[..]) &&
        meshPoints == MeshPoints(horizontalLoops) &&
        |triangles| == 3 * TriangleCount(horizontalLoops, 0) &&
        (forall i :: 0 <= i < |triangles| ==> 0 <= triangles[i] < |meshPoints|)
    {
      ExpandClusterBorders();
      expanded := textureDataUtility.data[..];
      var boundEdges;
      boundEdges, flooded := ComputeBoundEdges();
      edges := boundEdges;
      if boundEdges == {} {
        return false, expanded, flooded, edges;
      }
      ComputeMaskLoop(boundEdges);
      BuildMesh(angleTest);
      completed := true;
    }

    /** The part of ComputeHorizontalLoopProcess after the mask loop is known:
        one decimated loop per level, their points, then the triangles. */
    method BuildMesh(angleTest: (nat, nat, nat) -> bool)
      requires Valid() && maskLoop != [] && horizontalLoops == [] && triangles == []
      modifies this
      ensures textureDataUtility == old(textureDataUtility) && maskLoop == old(maskLoop)
      ensures NonEmptyLoops(horizontalLoops) && LevelsOf(horizontalLoops, maskLoop, PointCount(|maskLoop|), decimateRandomDeltas[..])
      ensures meshPoints == MeshPoints(horizontalLoops)
      ensures |triangles| == 3 * TriangleCount(horizontalLoops, 0)
      ensures forall i :: 0 <= i < |triangles| ==> 0 <= triangles[i] < |meshPoints|
    {
      var pointCount := PointCount(|maskLoop|);
      DecimateLevels(pointCount);
      ghost var levels, deltas := horizontalLoops, decimateRandomDeltas[..];
      var points := GenerateMeshPoints();
      meshPoints := points;
      TriangulateMeshLoops(angleTest);
      assert horizontalLoops == levels && triangles == MeshTriangles(levels, angleTest, 0, 0);
      assert decimateRandomDeltas[..] == deltas;
      TrianglesIndexMeshPoints(levels, angleTest);
    }
  }

  /** The levels are the mask loop decimated once per delta, towards
      pointCount plus that level's delta. */
  ghost predicate LevelsOf(levels: seq<seq<Int2>>, mask: seq<Int2>, pointCount: int, deltas: seq<int>) {
    |levels| == |deltas| &&
    forall i :: 0 <= i < |deltas| ==> levels[i] == DecimatedLoop(mask, pointCount + deltas[i])
  }

  /** One more level: the next delta's decimation extends the prefix. */
  lemma LevelsOfAppend(levels: seq<seq<Int2>>, mask: seq<Int2>, pointCount: int, deltas: seq<int>, i: nat, loop: seq<Int2>)
    requires NonEmptyLoops(levels) && mask != [] && i < |deltas|
    requires LevelsOf(levels, mask, pointCount, deltas[..i])
    requires loop == DecimatedLoop(mask, pointCount + deltas[i])
    ensures NonEmptyLoops(levels + [loop]) && LevelsOf(levels + [loop], mask, pointCount, deltas[..i + 1])
  {
    DecimatedLoopShape(mask, pointCount + deltas[i]);
    NonEmptySnoc(levels, loop);
    LevelsOfSnoc(levels, mask, pointCount, deltas[..i], deltas[i], loop);
    assert deltas[..i + 1] == deltas[..i] + [deltas[i]];
  }

  lemma NonEmptySnoc(levels: seq<seq<Int2>>, loop: seq<Int2>)
    requires NonEmptyLoops(levels) && |loop| > 0
    ensures NonEmptyLoops(levels + [loop])
  {
  }

  lemma LevelsOfSnoc(levels: seq<seq<Int2>>, mask: seq<Int2>, pointCount: int, deltas: seq<int>, delta: int, loop: seq<Int2>)
    requires LevelsOf(levels, mask, pointCount, deltas) && loop == DecimatedLoop(mask, pointCount + delta)
    ensures LevelsOf(levels + [loop], mask, pointCount, deltas + [delta])
  {
  }

  /** (int)(count * 0.15f), as integer arithmetic. */
  function PointCount(count: nat): nat {
    count * 15 / 100
  }
}
