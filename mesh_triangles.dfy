/** The mesh side of LoopedLandMesh: how GenerateMeshPoints lays the loops
    out in one vertex list, and which index triples TriangulateMeshLoops emits
    between consecutive loops.  The methods of LoopedLandMesh are proved
    against these functions. */
module MeshTriangulation {
  import opened PixelBuffer

  /** A vertex: a loop point with the index of its loop.  The source turns the
      loop index into a height, hDelta * hIndex. */
  datatype MeshPoint = MeshPoint(position: Int2, level: nat)

  /** The points of one loop at one level. */
  function Tagged(loop: seq<Int2>, level: nat): seq<MeshPoint> {
    seq(|loop|, j requires 0 <= j < |loop| => MeshPoint(loop[j], level))
  }

  /** GenerateMeshPoints: the points of every loop, loop after loop. */
  function MeshPoints(loops: seq<seq<Int2>>): seq<MeshPoint> {
    if loops == [] then []
    else MeshPoints(loops[..|loops| - 1]) + Tagged(loops[|loops| - 1], |loops| - 1)
  }

  /** Where loop k starts in the vertex list: the lengths of the loops before it. */
  function Offset(loops: seq<seq<Int2>>, k: nat): nat
    requires k <= |loops|
  {
    if k == 0 then 0 else Offset(loops, k - 1) + |loops[k - 1]|
  }

  lemma {:induction false} OffsetPrefix(loops: seq<seq<Int2>>, m: nat, k: nat)
    requires k <= m <= |loops|
    ensures Offset(loops[..m], k) == Offset(loops, k)
  {
    if k > 0 {
      OffsetPrefix(loops, m, k - 1);
      assert loops[..m][k - 1] == loops[k - 1];
    }
  }

  lemma {:induction false} OffsetMonotone(loops: seq<seq<Int2>>, k: nat, l: nat)
    requires k <= l <= |loops|
    ensures Offset(loops, k) <= Offset(loops, l)
    decreases l - k
  {
    if k < l {
      OffsetMonotone(loops, k, l - 1);
    }
  }

  lemma {:induction false} MeshPointsLength(loops: seq<seq<Int2>>)
    ensures |MeshPoints(loops)| == Offset(loops, |loops|)
  {
    if loops != [] {
      var prefix := loops[..|loops| - 1];
      MeshPointsLength(prefix);
      OffsetPrefix(loops, |loops| - 1, |loops| - 1);
    }
  }

  /** The layout of GenerateMeshPoints: point j of loop k is vertex
      Offset(loops, k) + j, tagged with level k. */
  lemma {:induction false} MeshPointAt(loops: seq<seq<Int2>>, k: nat, j: nat)
    requires k < |loops| && j < |loops[k]|
    ensures Offset(loops, k) + j < |MeshPoints(loops)|
    ensures MeshPoints(loops)[Offset(loops, k) + j] == MeshPoint(loops[k][j], k)
  {
    var last := |loops| - 1;
    var prefix := loops[..last];
    MeshPointsLength(loops);
    MeshPointsLength(prefix);
    OffsetPrefix(loops, last, last);
    OffsetMonotone(loops, k + 1, |loops|);
    assert MeshPoints(loops) == MeshPoints(prefix) + Tagged(loops[last], last);
    if k < last {
      OffsetPrefix(loops, last, k);
      OffsetMonotone(prefix, k + 1, last);
      assert prefix[k] == loops[k];
      MeshPointAt(prefix, k, j);
    }
  }

  // ---------------------------------------------------------------------
  // TriangulateMeshLoops

  /** The GetLoopedIndex local to TriangulateMeshLoops: the pivot index taken
      modulo the loop's length, so the pivot one past the end is point 0. */
  function LoopIndex(index: nat, listCount: nat): (r: nat)
    requires listCount > 0
    ensures r < listCount
    ensures index < listCount ==> r == index
    ensures index == listCount ==> r == 0
  {
    index % listCount
  }

  /** Which triangle a step emits.  The angle test's answer is overridden when
      the upper loop is used up (a bottom-two triangle) and, taking precedence,
      when the bottom loop is used up (an upper-two triangle). */
  function OneTwoConnect(angleTest: bool, bottomPivotIndex: nat, upPivotIndex: nat, bottomCount: nat, upCount: nat): bool {
    var c := if upPivotIndex == upCount then true else angleTest;
    if bottomPivotIndex == bottomCount then false else c
  }

  /** One step: a triangle's three vertex indices and the pivots after it. */
  datatype Turn = Turn(triangle: seq<int>, bottomPivotIndex: nat, upPivotIndex: nat)

  function TriangleTurn(bottomCount: nat, upCount: nat, carry: nat, b: nat, u: nat, oneTwoConnect: bool): Turn
    requires bottomCount > 0 && upCount > 0
  {
    if oneTwoConnect then
      Turn([LoopIndex(b + 1, bottomCount) + carry, LoopIndex(u, upCount) + bottomCount + carry, LoopIndex(b, bottomCount) + carry],
           if b < bottomCount then b + 1 else b, u)
    else
      Turn([LoopIndex(b, bottomCount) + carry, LoopIndex(u + 1, upCount) + bottomCount + carry, LoopIndex(u, upCount) + bottomCount + carry],
           b, if u < upCount then u + 1 else u)
  }

  /** The step of level `level` from pivots (b, u); angleTest(level, b, u)
      stands for the source's float angle comparison. */
  function LevelTurn(level: nat, bottomCount: nat, upCount: nat, carry: nat, angleTest: (nat, nat, nat) -> bool, b: nat, u: nat): (t: Turn)
    requires bottomCount > 0 && upCount > 0 && b <= bottomCount && u <= upCount && !(b == bottomCount && u == upCount)
    ensures (t.bottomPivotIndex == b + 1 && t.upPivotIndex == u) || (t.bottomPivotIndex == b && t.upPivotIndex == u + 1)
    ensures t.bottomPivotIndex <= bottomCount && t.upPivotIndex <= upCount
  {
    TriangleTurn(bottomCount, upCount, carry, b, u, OneTwoConnect(angleTest(level, b, u), b, u, bottomCount, upCount))
  }

  /** A step emits one triangle with two vertices on one loop and one on the
      other: bottom vertices index [carry, carry + bottomCount) and upper ones
      the next upCount indices. */
  lemma TurnTriangle(level: nat, bottomCount: nat, upCount: nat, carry: nat, angleTest: (nat, nat, nat) -> bool, b: nat, u: nat)
    requires bottomCount > 0 && upCount > 0 && b <= bottomCount && u <= upCount && !(b == bottomCount && u == upCount)
    ensures var t := LevelTurn(level, bottomCount, upCount, carry, angleTest, b, u);
      |t.triangle| == 3 &&
      (forall i :: 0 <= i < 3 ==> carry <= t.triangle[i] < carry + bottomCount + upCount) &&
      if t.bottomPivotIndex == b + 1 then
        t.triangle[0] < carry + bottomCount && t.triangle[2] < carry + bottomCount && carry + bottomCount <= t.triangle[1]
      else
        t.triangle[0] < carry + bottomCount && carry + bottomCount <= t.triangle[1] && carry + bottomCount <= t.triangle[2]
  {
  }

  /** The triangles level `level` emits from pivots (b, u) to the end. */
  function LevelTriangles(level: nat, bottomCount: nat, upCount: nat, carry: nat, angleTest: (nat, nat, nat) -> bool, b: nat, u: nat): seq<int>
    requires bottomCount > 0 && upCount > 0 && b <= bottomCount && u <= upCount && !(b == bottomCount && u == upCount)
    decreases (bottomCount - b) + (upCount - u)
  {
    var t := LevelTurn(level, bottomCount, upCount, carry, angleTest, b, u);
    if t.upPivotIndex >= upCount && t.bottomPivotIndex >= bottomCount then t.triangle
    else t.triangle + LevelTriangles(level, bottomCount, upCount, carry, angleTest, t.bottomPivotIndex, t.upPivotIndex)
  }

  /** A level emits one triangle per pivot step, bottomCount + upCount of them
      from the start, and every index lies on the two loops of the level. */
  lemma {:induction false} LevelTrianglesShape(level: nat, bottomCount: nat, upCount: nat, carry: nat, angleTest: (nat, nat, nat) -> bool, b: nat, u: nat)
    requires bottomCount > 0 && upCount > 0 && b <= bottomCount && u <= upCount && !(b == bottomCount && u == upCount)
    ensures |LevelTriangles(level, bottomCount, upCount, carry, angleTest, b, u)| == 3 * ((bottomCount - b) + (upCount - u))
    ensures forall i :: 0 <= i < |LevelTriangles(level, bottomCount, upCount, carry, angleTest, b, u)| ==>
      carry <= LevelTriangles(level, bottomCount, upCount, carry, angleTest, b, u)[i] < carry + bottomCount + upCount
    decreases (bottomCount - b) + (upCount - u)
  {
    var t := LevelTurn(level, bottomCount, upCount, carry, angleTest, b, u);
    TurnTriangle(level, bottomCount, upCount, carry, angleTest, b, u);
    if !(t.upPivotIndex >= upCount && t.bottomPivotIndex >= bottomCount) {
      LevelTrianglesShape(level, bottomCount, upCount, carry, angleTest, t.bottomPivotIndex, t.upPivotIndex);
      var rest := LevelTriangles(level, bottomCount, upCount, carry, angleTest, t.bottomPivotIndex, t.upPivotIndex);
      assert LevelTriangles(level, bottomCount, upCount, carry, angleTest, b, u) == t.triangle + rest;
    }
  }

  /** Every loop has a point: GetLoopedIndex divides by each loop's length. */
  predicate NonEmptyLoops(loops: seq<seq<Int2>>) {
    forall k :: 0 <= k < |loops| ==> |loops[k]| > 0
  }

  /** The triangles of levels vI .. |loops| - 2, level vI's bottom loop
      starting at index carry. */
  function MeshTriangles(loops: seq<seq<Int2>>, angleTest: (nat, nat, nat) -> bool, vI: nat, carry: nat): seq<int>
    requires NonEmptyLoops(loops)
    decreases |loops| - vI
  {
    if vI + 1 >= |loops| then []
    else
      LevelTriangles(vI, |loops[vI]|, |loops[vI + 1]|, carry, angleTest, 0, 0) +
      MeshTriangles(loops, angleTest, vI + 1, carry + |loops[vI]|)
  }

  /** The number of triangles of levels vI .. |loops| - 2: one per point of
      each level's two loops. */
  function TriangleCount(loops: seq<seq<Int2>>, vI: nat): nat
    decreases |loops| - vI
  {
    if vI + 1 >= |loops| then 0 else |loops[vI]| + |loops[vI + 1]| + TriangleCount(loops, vI + 1)
  }

  /** Levels vI onwards emit three indices per triangle, each naming a vertex
      of levels vI and later. */
  lemma {:induction false} MeshTrianglesShape(loops: seq<seq<Int2>>, angleTest: (nat, nat, nat) -> bool, vI: nat)
    requires NonEmptyLoops(loops) && vI <= |loops|
    ensures |MeshTriangles(loops, angleTest, vI, Offset(loops, vI))| == 3 * TriangleCount(loops, vI)
    ensures forall i :: 0 <= i < |MeshTriangles(loops, angleTest, vI, Offset(loops, vI))| ==>
      Offset(loops, vI) <= MeshTriangles(loops, angleTest, vI, Offset(loops, vI))[i] < Offset(loops, |loops|)
    decreases |loops| - vI
  {
    if vI + 1 < |loops| {
      var carry := Offset(loops, vI);
      var level := LevelTriangles(vI, |loops[vI]|, |loops[vI + 1]|, carry, angleTest, 0, 0);
      var rest := MeshTriangles(loops, angleTest, vI + 1, carry + |loops[vI]|);
      assert MeshTriangles(loops, angleTest, vI, carry) == level + rest;
      LevelTrianglesShape(vI, |loops[vI]|, |loops[vI + 1]|, carry, angleTest, 0, 0);
      MeshTrianglesShape(loops, angleTest, vI + 1);
      OffsetMonotone(loops, vI + 1, |loops|);
      OffsetMonotone(loops, vI + 2, |loops|);
    }
  }

  /** Every index TriangulateMeshLoops emits names a vertex of the list
      GenerateMeshPoints builds, and there are three per triangle, one
      triangle per point of each level's two loops. */
  lemma TrianglesIndexMeshPoints(loops: seq<seq<Int2>>, angleTest: (nat, nat, nat) -> bool)
    requires NonEmptyLoops(loops)
    ensures |MeshTriangles(loops, angleTest, 0, 0)| == 3 * TriangleCount(loops, 0)
    ensures forall i :: 0 <= i < |MeshTriangles(loops, angleTest, 0, 0)| ==>
      0 <= MeshTriangles(loops, angleTest, 0, 0)[i] < |MeshPoints(loops)|
  {
    MeshTrianglesShape(loops, angleTest, 0);
    MeshPointsLength(loops);
  }
}
