# Landmass segmentation and looped land meshes

This project models the core of the terrain generator's two classes in Dafny and proves properties of the model:

- `EnvironmentHeightMapController` segments a height-field readback into clusters. Each cluster is a landmass.
- `LoopedLandMesh` turns one cluster into a stack of decimated contour loops and triangulates between them.

The pixel buffer is a flat, row-major `byte` array with a fixed number of channels per pixel.

- **Controller buffer.** It has four channels: height, cluster id, visited flag and active mask, at indexes 0, 1, 2 and 3.
- **Mesher buffer.** It has three channels (height, cluster id, visited) and is filled as a copy of the controller's buffer.

All index arithmetic lives once, in module `PixelBuffer`, parameterised by the channel count.

**Segmentation** (module `ClusterSegmentation`).

- `ComputeClustersProcess` finds the first pending pixel in row-major order. A pending pixel is active and not yet visited.
- From that seed it runs a queue-based flood over the 4-neighbourhood. A neighbour joins when it is inside the image, is active, and its height differs by at most the threshold. The threshold defaults to 5 and the only call uses that default; the model takes it as a byte parameter, so every property holds for 5 in particular.
- For each visited pixel it writes the cluster id and the visited flag, and it widens the cluster's bounding box and value range.
- When the queue runs dry it records the cluster, takes the next id (5, 10, 15, … truncated to a byte) and reseeds from the next pending pixel.
- Finally the record list goes through `MergeClusters` (module `ClusterMerge`):
  - the list is split into hosts and fragments; a fragment is a cluster whose normalised width or height is at most 3 / image width, that is, at most 3 pixels wide or at most 3·height/width pixels high;
  - each host, in turn, absorbs the value range of the first remaining fragment whose four corners lie in its box, and that fragment is removed;
  - fragments left over at the end are dropped.

**Meshing** (modules `LandMesh`, `MeshLoops`, `MeshTriangulation`).

- **Constructor.** `LoopedLandMesh` draws one decimation delta per vertical level as a running sum, clamped to [3, 50].
- **`UpdateTextureData`.** Copies the height and id channels into a fresh 3-channel buffer with the visited bytes cleared.
- **`ExpandClusterBorders`.** Gives the cluster's id to every pixel of the bounds grown by one pixel on each side where some, but not all, of its eight neighbours carry the id.
- **`ComputeBoundEdges`.** Floods inward from each pixel of the bounds' perimeter across unvisited pixels inside the bounds that do not carry the id. It collects every id-carrying pixel it meets, and the perimeter pixels that carry the id, setting the visited byte on the pixels it crosses. Module `BorderFlood` states what these floods compute: which pixels a flood reaches, which it marks and which edges it records.
- **`ComputeMaskLoop`.** Walks the edge set into an ordered loop by repeatedly taking the first free neighbour in a fixed 8-neighbour order.
- **`DecimateLoop`.** Scores every point but the first by the absolute dot product of the vectors to its looped neighbours, sorts the scores and deletes the lowest-scoring points until the target count is reached.
- **Mesh build.** `ComputeHorizontalLoopProcess` decimates the mask loop once per level to 15% of its length plus that level's delta. It then lays the levels out as mesh points and stitches each pair of consecutive loops with triangles, advancing one pivot per triangle.

Methods that work by changing state are imperative Dafny over `array`s and `class` fields. Each is proved against a specification function of the inputs or the old state. What the code promises is then proved about those functions as lemmas.

In three places the code does something other than its comments or its stated intent suggest, and the model follows the code:

- **Channel order.** At `EnvironmentHeightMapController.cs:258-260` the comment assigns the visited flag to the green channel and the cluster id to the blue one. The code writes the id at index 1 and the visited flag at index 2.
- **Bounding box.** The box accumulated in `UpdateClusterMetadataInfo` ends at `pos + (1, 1)`, so it is half-open, not an inclusive box.
- **Decimation order.** The score is meant to be low for points on a straight run and high at sharp bends. But it is the absolute dot product of the two edge vectors at a point, which is 0 at a right-angle corner and largest at a straight run. So deleting the lowest scores removes right-angle corners first and keeps collinear points. The model scores exactly as the code does (`LoopedLandMesh.cs:357-366`).

## Model

| member | source | states |
|---|---|---|
| PixelBuffer.InRangeIffInImage | Assets/Script/EnvironmentGeneration/EnvironmentHeightMapController.cs:368-380 | On a well-formed buffer, IsPixelInRange succeeds exactly for pixels inside the image. Outside it the index is -1. Inside it the index starts a whole channel run. |
| PixelBuffer.PixelValuesOfPixel | Assets/Script/EnvironmentGeneration/EnvironmentHeightMapController.cs:382-396 | For a pixel of the image, GetPixelValues returns all of that pixel's channels in channel order. |
| PixelBuffer.WriteChannel | Assets/Script/EnvironmentGeneration/EnvironmentHeightMapController.cs:342-343 | Writing one channel of one pixel changes that byte only. Every other channel of every pixel reads as before. |
| PixelBuffer.PixelRunsDisjoint | Assets/Script/EnvironmentGeneration/EnvironmentHeightMapController.cs:372-379 | Two pixels of the image never share a byte of their channel runs. |
| ClusterSegmentation.GetPixelValues | Assets/Script/EnvironmentGeneration/EnvironmentHeightMapController.cs:382-396 | The copied run equals the four bytes at the index. It is empty when any of them lies outside the buffer, which is the exception handler's return. |
| ClusterSegmentation.SearchForNonVisitedPixels | Assets/Script/EnvironmentGeneration/EnvironmentHeightMapController.cs:350-366 | A found pixel is pending and no pending pixel precedes it in row-major order. When none is found, no pixel is pending and the out position is (0, 0). |
| ClusterSegmentation.QualifyingNeighboursExact | Assets/Script/EnvironmentGeneration/EnvironmentHeightMapController.cs:327-340 | A position is enqueued if and only if it is a table neighbour that passes the test. Every enqueued position is in the image and active. |
| ClusterSegmentation.EnqueueNeighbours | Assets/Script/EnvironmentGeneration/EnvironmentHeightMapController.cs:327-340 | The new queue is the old queue followed by the qualifying neighbours in table order. |
| ClusterSegmentation.QualifiesByValues | Assets/Script/EnvironmentGeneration/EnvironmentHeightMapController.cs:334-336 | The byte-level test (height difference within the threshold and mask byte non-zero) holds if and only if the neighbour qualifies. |
| ClusterSegmentation.UpdateSummarises | Assets/Script/EnvironmentGeneration/EnvironmentHeightMapController.cs:398-419 | Updating with a new pixel keeps the accumulator the tight box and tight value range of the processed pixels. Every bound is attained by one of them. |
| ClusterSegmentation.UpdateBounds | Assets/Script/EnvironmentGeneration/EnvironmentHeightMapController.cs:398-419 | After the update, the box and the value range contain every processed pixel and the new one. |
| ClusterSegmentation.UpdateAttained | Assets/Script/EnvironmentGeneration/EnvironmentHeightMapController.cs:398-419 | After the update, each of the six bounds is attained by a processed pixel or by the new one. |
| ClusterSegmentation.RecordDescribes | Assets/Script/EnvironmentGeneration/EnvironmentHeightMapController.cs:294-304 | The record of cluster k carries id (5(k+1)) mod 256 and the tight box and value range of its pixels. |
| ClusterSegmentation.ClusterIdsDistinct | Assets/Script/EnvironmentGeneration/EnvironmentHeightMapController.cs:283-317 | The byte ids of the first 256 clusters are pairwise distinct. Those of the first 255 are non-zero. |
| ClusterSegmentation.ClusterIdWraps | Assets/Script/EnvironmentGeneration/EnvironmentHeightMapController.cs:283-317 | The 256th cluster gets id 0. |
| ClusterSegmentation.FragmentLimitExact | Assets/Script/EnvironmentGeneration/EnvironmentHeightMapController.cs:347 | The integer fragment limit agrees with the normalised test against 3 / width on both axes, when both sides are scaled by the image size. |
| ClusterSegmentation.ProcessStep | Assets/Script/EnvironmentGeneration/EnvironmentHeightMapController.cs:320-344 | Processing an unvisited queue head preserves the loop invariant (frame, partition, records, queue and closure). The pixel becomes a new member of the current cluster. |
| ClusterSegmentation.SkipStep | Assets/Script/EnvironmentGeneration/EnvironmentHeightMapController.cs:320-324 | Dropping an already-visited queue head preserves the loop invariant. It only happens once the cluster has a member. |
| ClusterSegmentation.ProcessShrinks | Assets/Script/EnvironmentGeneration/EnvironmentHeightMapController.cs:320-344 | Each processed pixel strictly shrinks the set of pending pixels not yet assigned, which bounds the loop. |
| ClusterSegmentation.CloseCluster | Assets/Script/EnvironmentGeneration/EnvironmentHeightMapController.cs:292-304 | Closing the current cluster when the queue is empty keeps every invariant. Every cluster so far is closed under the neighbour test. |
| ClusterSegmentation.Reseed | Assets/Script/EnvironmentGeneration/EnvironmentHeightMapController.cs:307-317 | Recording the cluster, resetting the accumulator and seeding the next pending pixel re-establishes the invariant for the next id. |
| ClusterSegmentation.Finish | Assets/Script/EnvironmentGeneration/EnvironmentHeightMapController.cs:307-309 | With nothing pending, the records, member sets and seeds form a complete segmentation of the initially pending pixels, seeds and connectivity included. |
| ClusterSegmentation.InitialInv | Assets/Script/EnvironmentGeneration/EnvironmentHeightMapController.cs:267-288 | The first seed and the reset accumulator satisfy the loop invariant. |
| ClusterSegmentation.MarkVisited | Assets/Script/EnvironmentGeneration/EnvironmentHeightMapController.cs:342-343 | Exactly the pixel's id byte and visited byte change, to the cluster id and 255. |
| ClusterSegmentation.VisitQueued | Assets/Script/EnvironmentGeneration/EnvironmentHeightMapController.cs:320-344 | One loop turn preserves the invariant. Either the queue shrinks inside a non-empty cluster or the unassigned pending set shrinks. |
| ClusterSegmentation.ComputeClustersProcess | Assets/Script/EnvironmentGeneration/EnvironmentHeightMapController.cs:265-348 | No result, and an unchanged buffer, if and only if no pixel was pending. Otherwise a segmentation with seeds, as listed below this table. |
| ClusterSegmentation.ClusterIsComponent | Assets/Script/EnvironmentGeneration/EnvironmentHeightMapController.cs:320-340 | Each cluster is exactly the set of pixels that a chain of qualifying 4-neighbour steps through pending pixels reaches from its seed. |
| ClusterSegmentation.PathInCluster | Assets/Script/EnvironmentGeneration/EnvironmentHeightMapController.cs:327-339 | A chain of qualifying steps that starts in a closed cluster stays in it. |
| ClusterSegmentation.ClustersSeparated | Assets/Script/EnvironmentGeneration/EnvironmentHeightMapController.cs:334-336 | Two 4-adjacent pixels in different clusters differ in height by more than the threshold. |
| ClusterMerge.ContainsAllIff | Assets/Script/EnvironmentGeneration/EnvironmentHeightMapController.cs:442-458 | All four corners of a non-empty box lie in the half-open host box if and only if it begins inside and ends strictly before the host's end on both axes. |
| ClusterMerge.ContainsAllCorners | Assets/Script/EnvironmentGeneration/EnvironmentHeightMapController.cs:442-458 | The corner loop returns whether every corner is contained. |
| ClusterMerge.FirstContained | Assets/Script/EnvironmentGeneration/EnvironmentHeightMapController.cs:441-462 | The index chosen is that of the first fragment whose corners all lie in the host, or the list length if there is none. |
| ClusterMerge.AbsorbFirstContained | Assets/Script/EnvironmentGeneration/EnvironmentHeightMapController.cs:439-473 | One host's turn: it absorbs the first contained fragment, which is removed, or stays unchanged when no fragment fits. |
| ClusterMerge.AbsorbWidens | Assets/Script/EnvironmentGeneration/EnvironmentHeightMapController.cs:463-471 | Absorbing keeps the host's id and bounds and widens its min and max to include the fragment's. |
| ClusterMerge.SplitOffFragments | Assets/Script/EnvironmentGeneration/EnvironmentHeightMapController.cs:424-434 | The split pass leaves exactly the non-fragments in list order and moves exactly the fragments, in list order. |
| ClusterMerge.SplitPermutes | Assets/Script/EnvironmentGeneration/EnvironmentHeightMapController.cs:424-434 | Hosts and fragments together are a permutation of the input list. |
| ClusterMerge.SplitMembership | Assets/Script/EnvironmentGeneration/EnvironmentHeightMapController.cs:424-434 | Every host is a cluster of the list that is not a fragment. Every fragment is a cluster of the list that is one. |
| ClusterMerge.MergeClusters | Assets/Script/EnvironmentGeneration/EnvironmentHeightMapController.cs:422-475 | The in-place merge leaves the list equal to the merge specification. |
| ClusterMerge.MergeKeepsHosts | Assets/Script/EnvironmentGeneration/EnvironmentHeightMapController.cs:436-474 | The merge pass keeps one entry per host, in order. Each entry is its host or its host after absorbing a fragment whose corners it contains. |
| ClusterMerge.MergeResultShape | Assets/Script/EnvironmentGeneration/EnvironmentHeightMapController.cs:422-475 | The result has one entry per host with the same id and bounds and a value range no narrower. No fragment survives. |
| ClusterMerge.MergeIdempotent | Assets/Script/EnvironmentGeneration/EnvironmentHeightMapController.cs:422-475 | Merging a merged list changes nothing. |
| ClusterMerge.MergeNothing | Assets/Script/EnvironmentGeneration/EnvironmentHeightMapController.cs:436-474 | The merge pass leaves the hosts unchanged when there is no fragment. |
| LandMesh.Clamp | Assets/Script/EnvironmentGeneration/LoopedLandMesh.cs:62 | The clamped value lies in [min, max], and a value already inside is unchanged. |
| LandMesh.DeltasMonotone | Assets/Script/EnvironmentGeneration/LoopedLandMesh.cs:51-64 | Every delta lies in [3, 50]. The sequence is non-increasing when the vertical decrement is set and non-decreasing otherwise. |
| LandMesh.RunningValueMonotone | Assets/Script/EnvironmentGeneration/LoopedLandMesh.cs:55-63 | With non-negative steps, the running value only falls under decrement and only rises otherwise. |
| LandMesh.ComputeDecimateDeltas | Assets/Script/EnvironmentGeneration/LoopedLandMesh.cs:51-64 | A fresh array with one delta per level. Delta i is the clamped running value after i + 1 steps. |
| LandMesh.LoopedLandMesh.constructor | Assets/Script/EnvironmentGeneration/LoopedLandMesh.cs:34-73 | Stores the metadata and level count, fills the deltas as above, and starts with no utility, loops, points or triangles. |
| LandMesh.LoopedLandMesh.UpdateTextureData | Assets/Script/EnvironmentGeneration/LoopedLandMesh.cs:82-98 | The fresh 3-channel buffer holds every pixel's height and id from the readback and a cleared visited byte. Nothing else of the mesh changes. |
| LandMesh.LoopedLandMesh.CountNeighbours | Assets/Script/EnvironmentGeneration/LoopedLandMesh.cs:164-175 | The neighbour count is the number of the eight neighbours inside the image that carry the cluster's id. |
| LandMesh.LoopedLandMesh.CollectExpandIndexes | Assets/Script/EnvironmentGeneration/LoopedLandMesh.cs:158-185 | The collected indexes are those of exactly the expanding pixels of the grown bounds, each the pixel's channel-run start. |
| LandMesh.LoopedLandMesh.ExpandClusterBorders | Assets/Script/EnvironmentGeneration/LoopedLandMesh.cs:140-192 | Exactly the expanding pixels take the cluster id. All other ids, all heights and all visited bytes stay. |
| LandMesh.ExpandOnlyGrows | Assets/Script/EnvironmentGeneration/LoopedLandMesh.cs:177-189 | Expansion never removes a pixel from the cluster. A pixel whose id changed lies in the grown bounds and now carries the cluster id. |
| LandMesh.LoopedLandMesh.ClusterSearchForPixel | Assets/Script/EnvironmentGeneration/LoopedLandMesh.cs:227-286 | The flooded pixels are exactly those reached from the pivot through unvisited pixels inside the bounds without the id; none when the pivot is outside the image, carries the id or is visited. Exactly they get visited byte 255 and nothing else changes. The edges become the old ones plus the pivot when it carries the id plus the id pixels next to a flooded pixel inside the bounds. |
| LandMesh.LoopedLandMesh.Flood | Assets/Script/EnvironmentGeneration/LoopedLandMesh.cs:243-285 | From an open pivot, the breadth-first loop floods exactly the pixels reached from it, marks exactly them and adds exactly the id pixels next to them. |
| LandMesh.LoopedLandMesh.ProbePixel | Assets/Script/EnvironmentGeneration/LoopedLandMesh.cs:255-256 | The pixel is in range exactly when it is in the image, and then its channels are read in order. |
| LandMesh.LoopedLandMesh.FloodNeighbours | Assets/Script/EnvironmentGeneration/LoopedLandMesh.cs:261-282 | The queue gains exactly the neighbours inside the bounds and the image without the id, in table order. The edges lose those and gain exactly the id-carrying neighbours inside the bounds and the image. |
| BorderFlood.NeighboursExact | Assets/Script/EnvironmentGeneration/LoopedLandMesh.cs:261-282 | A pixel is queued (recorded) if and only if it is a table neighbour inside the bounds and the image without (with) the id. |
| BorderFlood.TouchedMembers | Assets/Script/EnvironmentGeneration/LoopedLandMesh.cs:261-282 | The edges recorded by processing a set of pixels are exactly the id pixels inside the bounds and the image one table step from one of them. |
| BorderFlood.MarkShrinksUnvisited | Assets/Script/EnvironmentGeneration/LoopedLandMesh.cs:284 | Marking an unvisited pixel strictly shrinks the unvisited set, which bounds the flood. |
| BorderFlood.BfsVisit | Assets/Script/EnvironmentGeneration/LoopedLandMesh.cs:258-284 | Processing an unvisited queue head keeps the flood invariant: processed pixels are marked and reached, the queue is fed by them, they are closed up to the queue, and the edges are those they record. |
| BorderFlood.BfsSkip | Assets/Script/EnvironmentGeneration/LoopedLandMesh.cs:253-259 | Dropping a visited queue head keeps the flood invariant. |
| BorderFlood.BfsDone | Assets/Script/EnvironmentGeneration/LoopedLandMesh.cs:249-286 | When the queue is empty, the processed pixels are exactly those the flood reaches from the pivot. |
| BorderFlood.ClosedHoldsPath | Assets/Script/EnvironmentGeneration/LoopedLandMesh.cs:261-282 | A flood path that starts in a set closed under the neighbour loop stays in it. |
| BorderFlood.SearchStep | Assets/Script/EnvironmentGeneration/LoopedLandMesh.cs:200-224 | One more flood keeps the search invariant: the flooded pixels are what floods from the pivots so far reach on the starting buffer, whatever the order of the floods. |
| BorderFlood.SplitPath | Assets/Script/EnvironmentGeneration/LoopedLandMesh.cs:200-224 | A flood path on the starting buffer from a new pivot either ends in an earlier flood or runs through pixels still unvisited. |
| BorderFlood.PerimeterPivots | Assets/Script/EnvironmentGeneration/LoopedLandMesh.cs:200-224 | The two row searches and the two column searches start from exactly the perimeter of the bounds, ends included. |
| LandMesh.LoopedLandMesh.SearchRow | Assets/Script/EnvironmentGeneration/LoopedLandMesh.cs:200-211 | A row search keeps the search invariant and adds that row's pixels, both ends included, to the pivots. |
| LandMesh.LoopedLandMesh.SearchColumn | Assets/Script/EnvironmentGeneration/LoopedLandMesh.cs:213-224 | A column search keeps the search invariant and adds that column's pixels, both ends included, to the pivots. |
| LandMesh.LoopedLandMesh.ComputeBoundEdges | Assets/Script/EnvironmentGeneration/LoopedLandMesh.cs:194-287 | The flooded pixels are exactly those reached from the perimeter, and exactly they are marked visited. The edges are exactly the perimeter pixels with the id and the id pixels next to the flood inside the bounds. Every edge carries the id. |
| MeshLoops.FirstConnection | Assets/Script/EnvironmentGeneration/LoopedLandMesh.cs:312-322 | The chosen direction is the first of the 8-neighbour order that leads to a free edge. If none does, it is the order's length. |
| LandMesh.LoopedLandMesh.WalkEdges | Assets/Script/EnvironmentGeneration/LoopedLandMesh.cs:300-326 | The walk loop builds the mask-loop specification from the chosen first edge. |
| LandMesh.LoopedLandMesh.ComputeMaskLoop | Assets/Script/EnvironmentGeneration/LoopedLandMesh.cs:289-339 | The mask loop is non-empty, starts at an edge and is the walk from it. |
| MeshLoops.MaskLoopInEdges | Assets/Script/EnvironmentGeneration/LoopedLandMesh.cs:300-326 | The mask loop starts at the first edge and every point of it is an edge. |
| MeshLoops.MaskLoopDistinct | Assets/Script/EnvironmentGeneration/LoopedLandMesh.cs:300-326 | No edge appears twice in the mask loop. |
| MeshLoops.MaskLoopCount | Assets/Script/EnvironmentGeneration/LoopedLandMesh.cs:300-326 | The loop's length plus the edges it never reached equals the edge count. |
| MeshLoops.MaskLoopSteps | Assets/Script/EnvironmentGeneration/LoopedLandMesh.cs:312-322 | Consecutive loop points are 8-neighbours. |
| MeshLoops.WalkStopsAtDeadEnd | Assets/Script/EnvironmentGeneration/LoopedLandMesh.cs:308-326 | The walk ends only when no free edge neighbours its last point. |
| MeshLoops.GetLoopedIndex | Assets/Script/EnvironmentGeneration/LoopedLandMesh.cs:384-393 | Indexes in range are unchanged. Indexes from -n to 2n-1 wrap into [0, n) and result ≡ index (mod n). An index below -n stays negative. |
| MeshLoops.DecimateValuesEntries | Assets/Script/EnvironmentGeneration/LoopedLandMesh.cs:355-367 | The score list has one entry per point 1 … m, in index order, each carrying that point's score. |
| MeshLoops.SortByValue | Assets/Script/EnvironmentGeneration/LoopedLandMesh.cs:368 | The sort's result is ordered by score and is a permutation of its input. |
| MeshLoops.ScoreListDistinct | Assets/Script/EnvironmentGeneration/LoopedLandMesh.cs:355-372 | No point index appears twice in any permutation of the score list. |
| MeshLoops.FirstIndicesCount | Assets/Script/EnvironmentGeneration/LoopedLandMesh.cs:370-372 | The deletion set built from k entries with distinct indexes has k elements. |
| MeshLoops.DecimatedCount | Assets/Script/EnvironmentGeneration/LoopedLandMesh.cs:341-382 | Decimating a loop longer than a target of at least 3 leaves exactly the target number of points, and the first point stays. |
| MeshLoops.DecimatedReadsKept | Assets/Script/EnvironmentGeneration/LoopedLandMesh.cs:374-379 | The decimated loop lists the points of the loop at the kept indexes, in order. |
| MeshLoops.DecimatedKeepsOrder | Assets/Script/EnvironmentGeneration/LoopedLandMesh.cs:370-379 | The kept indexes rise strictly. An index is kept if and only if it is not in the deletion set. |
| MeshLoops.DecimatedDropsLowest | Assets/Script/EnvironmentGeneration/LoopedLandMesh.cs:355-372 | Every deleted point scores no more than any scored point that is kept. |
| MeshLoops.DecimatedLoopShape | Assets/Script/EnvironmentGeneration/LoopedLandMesh.cs:341-382 | A decimated non-empty loop is non-empty, no longer than the loop and starts where it starts. |
| LandMesh.LoopedLandMesh.DecimateLoop | Assets/Script/EnvironmentGeneration/LoopedLandMesh.cs:341-382 | The result is the decimation specification. It is the loop itself below a target of 3 or when the loop already fits. Otherwise it has exactly the target length and keeps the first point. |
| LandMesh.LoopedLandMesh.ScoreLoop | Assets/Script/EnvironmentGeneration/LoopedLandMesh.cs:355-367 | The scoring loop returns the score list of points 1 … n-1. |
| LandMesh.LoopedLandMesh.LowestIndices | Assets/Script/EnvironmentGeneration/LoopedLandMesh.cs:370-372 | The deletion set is the indexes of the first `count` sorted entries. |
| LandMesh.LoopedLandMesh.KeepUnmarked | Assets/Script/EnvironmentGeneration/LoopedLandMesh.cs:374-379 | The result is the loop without the marked positions, in order. |
| LandMesh.LoopedLandMesh.DecimateLevels | Assets/Script/EnvironmentGeneration/LoopedLandMesh.cs:109-113 | Level i is the mask loop decimated to the point count plus delta i. Every level is non-empty. |
| MeshTriangulation.MeshPointAt | Assets/Script/EnvironmentGeneration/LoopedLandMesh.cs:124-138 | Point j of level k lies at index offset(k) + j of the mesh points and carries level k. |
| MeshTriangulation.MeshPointsLength | Assets/Script/EnvironmentGeneration/LoopedLandMesh.cs:124-138 | There are as many mesh points as loop points over all levels. |
| LandMesh.LoopedLandMesh.GenerateMeshPoints | Assets/Script/EnvironmentGeneration/LoopedLandMesh.cs:124-138 | The points are every level's loop in order, each point tagged with its level. |
| MeshTriangulation.LoopIndex | Assets/Script/EnvironmentGeneration/LoopedLandMesh.cs:500-503 | The local looped index stays below the loop count. Indexes in range are unchanged and the count wraps to 0. |
| MeshTriangulation.LevelTurn | Assets/Script/EnvironmentGeneration/LoopedLandMesh.cs:445-482 | Each turn advances exactly one pivot by one and never past its loop's end. |
| MeshTriangulation.TurnTriangle | Assets/Script/EnvironmentGeneration/LoopedLandMesh.cs:445-485 | Each triangle has three indexes inside the two levels' point range. A bottom turn uses two bottom points and one top point; an up turn uses one bottom point and two top points. |
| MeshTriangulation.LevelTrianglesShape | Assets/Script/EnvironmentGeneration/LoopedLandMesh.cs:405-494 | A level emits one triangle per remaining pivot step, all indexes inside the two levels' range. |
| MeshTriangulation.MeshTrianglesShape | Assets/Script/EnvironmentGeneration/LoopedLandMesh.cs:396-498 | From level vI on, three indexes per triangle are emitted, each between level vI's offset and the total point count. |
| MeshTriangulation.TrianglesIndexMeshPoints | Assets/Script/EnvironmentGeneration/LoopedLandMesh.cs:396-498 | Every triangle index names an existing mesh point. |
| LandMesh.LoopedLandMesh.TriangulateLevel | Assets/Script/EnvironmentGeneration/LoopedLandMesh.cs:405-494 | One level's loop appends that level's triangle specification and advances the carry by the bottom loop's length. |
| LandMesh.LoopedLandMesh.TriangulateMeshLoops | Assets/Script/EnvironmentGeneration/LoopedLandMesh.cs:396-498 | The triangles become the old ones followed by the triangulation specification. Loops, points and mask stay. |
| LandMesh.LoopedLandMesh.BuildMesh | Assets/Script/EnvironmentGeneration/LoopedLandMesh.cs:107-119 | The loops are the decimated levels and the points are their layout. There are three indexes per triangle, each naming a mesh point. |
| LandMesh.LoopedLandMesh.ComputeHorizontalLoopProcess | Assets/Script/EnvironmentGeneration/LoopedLandMesh.cs:100-122 | The buffer is expanded, then flooded as ComputeBoundEdges states. It completes if and only if the edge set is non-empty; otherwise the mesh fields are untouched. On completion the mask loop is the walk from one of the edges, the levels are non-empty decimations of it and the points are their layout. Every triangle index names a mesh point. |

When `ComputeClustersProcess` returns a result, the image is non-empty and the records, member sets and seeds form a segmentation of the pixels pending at entry:

- the member sets partition those pixels;
- each set is closed under the neighbour test;
- seed k is in cluster k and every member is reached from it by a chain of qualifying steps (`ClusterIsComponent` turns this into an if-and-only-if);
- no pending pixel before seed k in row-major order lies outside the clusters before k, so each seed is the first pending pixel left when its cluster starts;
- record k carries cluster k's id, tight box and tight value range;
- heights and masks are unchanged;
- pixels that were not pending keep their id and visited bytes;
- every member holds its cluster's id and the visited flag.

The returned list is the merge of the records.

## Left out

- Rendering, compute shaders, textures, scene objects, gizmos and `MeshingTick` are not modelled. They are engine I/O. The readback is the `data` array given to `ComputeClustersProcess` and `UpdateTextureData`.
- Threads are not modelled: `Thread.Yield`, `Thread.Sleep`, `_updateMeshFlag` and `KillThread` with its flag checked at `LoopedLandMesh.cs:411-415`. The model runs each process to completion in one call.
- `OnMeshClusterFinishedAction` is not invoked. `ComputeClustersProcess` returns the merged list instead, and returns no list where the source returns early.
- Normalised bounds are not modelled. Records carry integer pixel rectangles, and `FragmentLimit` is the per-axis pixel limit (3, 3·height/width) that `FragmentLimitExact` relates to the source's `3f / imageSize.x` test on normalised widths.
- Floating point is not modelled:
  - The world-space projection of the mask loop (`LoopedLandMesh.cs:330-338`) is omitted, and the loop stays in pixel coordinates.
  - `DecimateValue` is the integer absolute dot product in pixel space. Under a non-uniform world scale the source's float scores could order the points differently.
  - Heights (`hDelta`) are omitted; a mesh point carries its level index.
  - The stretch comparison that picks which pivot advances is an arbitrary decision function passed in as `angleTest`.
  - `(int)(count * 0.15f)` is modelled as `count * 15 / 100` (`PointCount`).
- Random draws are modelled as constructor parameters: `highDraw`, `lowDraw` and `stepDraws`.
- `MeshLoops.SortByValue`: `List.Sort` is unstable and its tie order is unspecified. The model fixes one order, an insertion sort. The properties proved about decimation (count, first point kept, lowest scores deleted, order kept) hold for any sorted permutation.
- `LandMesh.LoopedLandMesh.ComputeMaskLoop`: `HashSet.First` is a free choice of an edge. The contract names the chosen edge `maskLoop[0]`, not which one it is.
- `LandMesh.LoopedLandMesh.ComputeHorizontalLoopProcess`: with no edge, `HashSet.First` throws and the thread ends. The model returns `false` there instead of raising.
- `MeshLoops.GetLoopedIndex`: requires a non-empty loop whenever the index is not negative. With `itemCount` 0 and such an index the source's `%` throws; no caller passes an empty loop.
- `MeshTriangulation.MeshTrianglesShape`: requires every level to be non-empty. The source's `% listCount` would divide by zero on an empty loop, and the levels are proved non-empty (`DecimatedLoopShape`).
- `ClusterSegmentation.ClusterIdsDistinct`: ids are distinct only for the first 256 clusters. `(byte)currentClusterId` wraps, and the 256th cluster gets id 0 (`ClusterIdWraps`). `int` overflow of the id counter itself is not modelled.
- `TextureDataUtility` is not part of this model's source. `PixelBuffer.TextureDataUtility` gives it the contracts of the controller's own helpers, for 3 channels. Its neighbour table is an arbitrary sequence of offsets.
- `PixelBuffer.WellFormed`: every operation requires buffer length = width × height × channels, which the readback and the copy satisfy by construction.
- `ClusterMerge.MergeClusters`: the source mutates the `List` in place. The model passes the list in and returns the new list, so aliasing of that list with the caller is not captured.
- Some loop bodies are split into helper methods, each proved against the same specification. This changes how the proof is organised, not what is computed:
  - `VisitQueued`, `EnqueueNeighbours`
  - `CopyRow`, `CopyPixel`
  - `CollectRow`, `ScanPixel`, `CountNeighbours`
  - `SearchRow`, `SearchColumn`, `Flood`, `FloodVisit`, `ProbePixel`, `FloodNeighbours`
  - `WalkEdges`
  - `ScoreLoop`, `LowestIndices`, `KeepUnmarked`
  - `TriangulateLevel`, `DecimateLevels`, `BuildMesh`
