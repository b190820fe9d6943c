# Half-edge mesh queries of FastCat

FastCat turns a Maya polygon mesh into patches for GPU subdivision-surface
rendering. Its half-edge mesh keeps, for every directed half-edge, the
origin and destination vertex, the face on its left and possibly one on its
right, the oppositely directed twin (`dual`, absent on the mesh boundary),
a crease sharpness and a transition-patch "triangle head" flag. Each
vertex carries a signed valence code: non-negative for interior vertices,
-2 for a corner, other negative values for boundary vertices. Four
navigation steps connect the half-edges: `vNext`/`vPrev` turn round the
origin vertex and `fNext`/`fPrev` go round the left face.

This project models the query layer over that graph, FastCat/MeshUtility.cpp:

- the vertex queries:
  - the number of outgoing half-edges;
  - the one-ring index list used for patch control points;
  - the neighbour/crease metadata that picks the subdivision rule;
  - the two boundary neighbours of a boundary vertex;
  - the "unevaluable" test.
- the face queries:
  - counting boundary vertices and crease edges;
  - the non-regular-boundary and triangle-head tests;
  - the transition-patch information;
  - collecting vertices and edges (into a set or a list);
  - the faces around the face's corners;
  - the reordered sixteen one-ring indices of a quad.

## How the model is built

- The mesh is an immutable arena (`HalfEdgeMesh.Mesh`). Vertices, half-edges and faces sit in sequences and refer to one another by index. The four navigation steps are index maps.
- `Navigable` states what every walk needs: all references are inside the arena, and every walk round a vertex or a face comes back to its start.
- `Valid` adds further structure:
  - `vPrev`/`fPrev` invert `vNext`/`fNext`;
  - `vNext` keeps the origin;
  - `fNext` continues from the destination;
  - every vertex's anchor edge leaves it;
  - a vertex's positive valence is the number of its outgoing half-edges;
  - a face's valence is the length of its walk.
- The C++ `do { … } while (cur != start)` walks become `while` loops with a `break`. Each loop is proved against the sequence of half-edges the walk visits: `VOrbit` round a vertex and `FaceEdges` round a face (module `HalfEdgeMesh`, built on the generic `Orbit` of module `Orbits`).
- What a query reports is stated with specification functions over those sequences:
  - the counts, selections and interleavings in `WalkRecords`;
  - the per-module record functions such as `RingIndices`, `MetaWalk`, `AddRingFaces` and `CornerBlocks`.
- Lemmas relate these functions to declarative descriptions: position-by-position layouts, membership, cardinalities, and the straight-crease characterisation.
- The caller-owned `std::vector` and `std::set` arguments become `seq` and `set` inputs, and the method returns the grown value. Pointers to vertices, edges and faces become arena indices.
- The caller's `unsigned *outIndices` of `Face::getOneRingIndices` is an `array<uint32>` that the method modifies.
- `IsUnevaluable` returns true for a valence-4 vertex with any crease count other than two, zero and one included (FastCat/MeshUtility.cpp:188-191).

## Model

| member | source | states |
|---|---|---|
| Orbits.Period | FastCat/MeshUtility.cpp:12-16 | a walk that returns takes a positive number of steps, at most the number of half-edges, and is not back at its start before then |
| Orbits.PeriodReturns | FastCat/MeshUtility.cpp:12-16 | after exactly one period the walk is back at its start, which is the do/while loop's exit |
| Orbits.Orbit | FastCat/MeshUtility.cpp:12-16 | the visited half-edges: one per period step, starting with the start edge |
| Orbits.OrbitDistinct | FastCat/MeshUtility.cpp:12-16 | when the step can be undone, a walk never visits a half-edge twice |
| HalfEdgeMesh.VOrbit | FastCat/MeshUtility.cpp:9-16 | a walk round a vertex is non-empty, starts at the given edge and stays in the arena |
| HalfEdgeMesh.FaceEdges | FastCat/MeshUtility.cpp:203-213 | a walk round a face is non-empty, starts at the face's `right` edge and stays in the arena |
| HalfEdgeMesh.VStep | FastCat/MeshUtility.cpp:12-16 | each step of the vertex walk moves by vNext; no position before the last is back at the start; the step after the last one is |
| HalfEdgeMesh.FStep | FastCat/MeshUtility.cpp:206-213 | the same for the face walk by fNext |
| HalfEdgeMesh.VOrbitOrigin | FastCat/MeshUtility.cpp:137 | every half-edge met round a vertex leaves that vertex |
| HalfEdgeMesh.FaceEdgesDistinct | FastCat/MeshUtility.cpp:386 | a face's walk has exactly `valence` distinct half-edges |
| WalkRecords.CountFirstIsCardinality | FastCat/MeshUtility.cpp:204-215 | the counter incremented at flagged steps equals the number of flagged walk positions |
| WalkRecords.CountFirstZero | FastCat/MeshUtility.cpp:256-267 | the count is zero exactly when no position is flagged |
| WalkRecords.FirstTwoFlagged | FastCat/MeshUtility.cpp:294-301 | with two flags in all, the positions recorded at counts 0 and 1 are the only flagged ones, in order |
| WalkRecords.CountOnlyTwo | FastCat/MeshUtility.cpp:173-181 | with only positions a < b flagged, the running count is 0 up to a, 1 up to b and 2 after |
| WalkRecords.FlaggedExactlyCount | FastCat/MeshUtility.cpp:309 | exactly two flagged positions mean a count of two |
| WalkRecords.FirstTwoExactly | FastCat/MeshUtility.cpp:294-310 | the positions recorded at counts 0 and 1 are, when the count is two, the unique pair of flagged positions |
| WalkRecords.InterleaveAt | FastCat/MeshUtility.cpp:40-41 | two pushes per step place the first value at 2t and the second at 2t + 1 |
| WalkRecords.SelectAt | FastCat/MeshUtility.cpp:91-93 | a push on flagged steps places one entry per flag, each after as many entries as flags before it |
| WalkRecords.SelectTwo | FastCat/MeshUtility.cpp:106-110 | with exactly two flags, the pushed entries are those two, in walk order |
| WalkRecords.ElementsAt | FastCat/MeshUtility.cpp:322 | inserting each walked value gives exactly the set of values met |
| WalkRecords.ElementsDistinct | FastCat/MeshUtility.cpp:333 | inserting distinct values gives a set with as many elements |
| WalkRecords.SumSelectedUniform | FastCat/MeshUtility.cpp:94 | summing one common sharpness over the creases gives it times the crease count |
| WalkRecords.SumSelectedAverage | FastCat/MeshUtility.cpp:101-102 | the average of equal crease sharpnesses is that sharpness |
| WalkRecords.Creased | FastCat/MeshUtility.cpp:91 | one crease flag per half-edge |
| WalkRecords.StraightCreaseHasTwo | FastCat/MeshUtility.cpp:188-191 | a straight crease has exactly two creases |
| WalkRecords.StraightCreaseByFirstTwo | FastCat/MeshUtility.cpp:173-197 | given the first two creases, of equal sharpness, the vertex has a straight crease exactly when there are two creases in all and they are two positions apart |
| WalkRecords.MixedSharpnessNotStraight | FastCat/MeshUtility.cpp:165-172 | two creases of different sharpness rule out a straight crease |
| VertexQueries.FirstDualless | FastCat/MeshUtility.cpp:29-32 | the scan stops at the first dual-less half-edge, if there is one; every edge before it has a dual; it runs off the end exactly when there is no boundary edge |
| VertexQueries.BoundaryEdgeBrackets | FastCat/MeshUtility.cpp:137-140 | the boundary edge leaves the vertex and has no dual, and its vPrev-then-fPrev edge arrives at the vertex |
| VertexQueries.RingIndicesAt | FastCat/MeshUtility.cpp:37-44 | the ring list has two entries per outgoing edge: its destination, then the destination of its fNext, each offset |
| VertexQueries.NeighbourEntriesAt | FastCat/MeshUtility.cpp:78-89 | the neighbour list has two entries per outgoing edge: its destination, then its left face's new index |
| VertexQueries.NeighbourCountIsTwiceValence | FastCat/MeshUtility.cpp:104 | on a well-formed mesh an interior vertex of valence n has a neighbour list of exactly 2n entries |
| VertexQueries.CreasedDestsOfTwo | FastCat/MeshUtility.cpp:91-96 | with exactly two creased edges, the crease list is their two destinations in walk order |
| VertexQueries.UniformCreaseAverage | FastCat/MeshUtility.cpp:94-102 | when all creases share one sharpness, the average is that sharpness |
| VertexQueries.NumTrackableOutgoingEdges | FastCat/MeshUtility.cpp:7-19 | the count is the least positive number of vNext steps that returns to the anchor edge |
| VertexQueries.ScanToBoundary | FastCat/MeshUtility.cpp:27-35 | the scan stops at the first dual-less outgoing edge |
| VertexQueries.EmitFirstRing | FastCat/MeshUtility.cpp:37-44 | the loop's pushes append the interleaved destination and face-next destination of each walked edge |
| VertexQueries.EmitRing | FastCat/MeshUtility.cpp:37-44 | the emitting loop appends the ring list of the walk from its start edge |
| VertexQueries.GetOneRingIndices | FastCat/MeshUtility.cpp:22-50 | an interior vertex appends its ring from the anchor; a boundary vertex appends its ring from the boundary edge and then the trailing origin of vPrev-then-fPrev of that edge |
| VertexQueries.FindBoundaryIndices | FastCat/MeshUtility.cpp:120-142 | valence -2 or above appends nothing; below -2 appends the boundary edge's destination and then the origin of its vPrev-then-fPrev |
| VertexQueries.MetaWalkExcluded | FastCat/MeshUtility.cpp:80-88 | the walk is cut short exactly when some walked edge's left face is excluded (negative new index) |
| VertexQueries.MetaWalkNeighbours | FastCat/MeshUtility.cpp:78-89 | a walk that is not cut short appends the neighbour list |
| VertexQueries.MetaWalkCreases | FastCat/MeshUtility.cpp:91-93 | a walk that is not cut short appends the destinations of the creased edges, in order |
| VertexQueries.MetaWalkCreaseTotals | FastCat/MeshUtility.cpp:91-96 | a walk that is not cut short counts the creased edges and sums their sharpness |
| VertexQueries.VisitMeta | FastCat/MeshUtility.cpp:78-96 | one step stops exactly at an excluded left face, having pushed only the destination; otherwise it performs one step of the walk records |
| VertexQueries.WalkOneRingMeta | FastCat/MeshUtility.cpp:73-99 | the loop reports exclusion exactly when the vertex meets an excluded face; otherwise its records are those of the whole walk |
| VertexQueries.GetOneRingMeta | FastCat/MeshUtility.cpp:53-117 | each case gives a code, the neighbour and crease lists, the crease count and the average sharpness: general boundary (boundary pair), corner ([-1, -1] appended), excluded face (corner rule, lists reset), interior (neighbour entries; crease destinations only for exactly two creases; average only for at least two); on a well-formed mesh a positive valence n adds exactly 2n neighbour entries |
| VertexQueries.IsUnevaluable | FastCat/MeshUtility.cpp:145-198 | boundary vertices are evaluable; other valences than 4 are not; a valence-4 vertex is evaluable exactly when it has a straight crease |
| FaceQueries.NumBoundaryVertices | FastCat/MeshUtility.cpp:201-216 | the count is the number of corners whose origin has a negative valence, at most the face's edge count |
| FaceQueries.BoundaryCornersCounted | FastCat/MeshUtility.cpp:206-213 | that count is the size of the set of positions with a boundary origin |
| FaceQueries.NumCreases | FastCat/MeshUtility.cpp:219-234 | the count is the number of face edges that have positive sharpness or no dual |
| FaceQueries.CreaseEdgesCounted | FastCat/MeshUtility.cpp:224-231 | that count is the size of the set of such positions |
| FaceQueries.CountsBoundedByValence | FastCat/MeshUtility.cpp:201-234 | neither count exceeds the face's valence |
| FaceQueries.HasNonregularBoundary | FastCat/MeshUtility.cpp:237-251 | true exactly when some corner's valence is -2 or below -3 |
| FaceQueries.NonregularHasBoundaryCorner | FastCat/MeshUtility.cpp:243 | a face with a non-regular boundary corner has at least one boundary vertex |
| FaceQueries.HasTriangleHead | FastCat/MeshUtility.cpp:254-268 | true exactly when some face edge is flagged as a triangle head |
| FaceQueries.TriangleHeadCounted | FastCat/MeshUtility.cpp:254-268 | that holds exactly when the triangle-head count is positive |
| FaceQueries.ScanTriangleHeads | FastCat/MeshUtility.cpp:288-305 | the scan counts the triangle heads and records the first (no head before it) and the second (one head before it) |
| FaceQueries.GetPartialPatchInfo | FastCat/MeshUtility.cpp:271-314 | a non-quad reports the error and leaves both outputs unchanged; a quad yields the triangle-head count, and connected holds exactly when there are exactly two heads, one or three positions apart |
| FaceQueries.ConnectedHeadsAdjacent | FastCat/MeshUtility.cpp:309-313 | two connected heads on a quad are consecutive half-edges of the face, one following the other by fNext |
| FaceQueries.HeadsConnectedOnQuad | FastCat/MeshUtility.cpp:309-313 | neighbouring heads and the wrap-around pair count as connected; opposite heads do not |
| FaceQueries.GetVerticesList | FastCat/MeshUtility.cpp:339-347 | appends the origin of each face edge in walk order |
| FaceQueries.CornersCycle | FastCat/MeshUtility.cpp:339-347 | the listed corners run round the face: each side ends at the next corner and the last side at the first |
| FaceQueries.GetVerticesSet | FastCat/MeshUtility.cpp:317-325 | inserts the origins of the face edges |
| FaceQueries.CornerSetIsCornerList | FastCat/MeshUtility.cpp:317-347 | the set form and the list form collect the same vertices |
| FaceQueries.GetEdgesList | FastCat/MeshUtility.cpp:350-358 | appends the face's half-edges in walk order |
| FaceQueries.GetEdgesSet | FastCat/MeshUtility.cpp:328-336 | inserts the face's half-edges |
| FaceQueries.EdgeSetSize | FastCat/MeshUtility.cpp:328-336 | the inserted set has exactly `valence` half-edges |
| FaceQueries.SideFacesAt | FastCat/MeshUtility.cpp:370-374 | a face is collected exactly when it is the left face or the present right face of a walked edge |
| FaceQueries.CornerRings | FastCat/MeshUtility.cpp:366-377 | one vertex walk per corner, from that corner's anchor edge |
| FaceQueries.AddVertexFaces | FastCat/MeshUtility.cpp:366-377 | the inner loop adds the faces incident to the corner vertex |
| FaceQueries.GetOneRingNeighbourFaces | FastCat/MeshUtility.cpp:361-381 | the outer loop adds the faces of every corner's vertex walk |
| FaceQueries.AddRingFacesAt | FastCat/MeshUtility.cpp:363-380 | a face is in the result exactly when it was there before or lies on one of the walked rings |
| FaceQueries.OneRingFacesAt | FastCat/MeshUtility.cpp:361-381 | a face is added exactly when it touches some corner vertex of the face |
| FaceQueries.VertexFacesAt | FastCat/MeshUtility.cpp:366-377 | a face touches a vertex exactly when it is the left face or the present right face of one of its outgoing edges |
| FaceOneRing.ToUnsigned | FastCat/MeshUtility.cpp:397 | storing an int as unsigned keeps every value in range |
| FaceOneRing.ToUnsignedWraps | FastCat/MeshUtility.cpp:397 | the stored unsigned value is congruent to the int modulo 2^32, so a negative int becomes it plus 2^32 |
| FaceOneRing.ReorderIsPermutation | FastCat/MeshUtility.cpp:391 | the reorder map is a permutation of 0..15 whose inverse is `SlotSource` |
| FaceOneRing.CornersOnInnerBlock | FastCat/MeshUtility.cpp:391 | the four corner entries land on the inner 2×2 block (slots 5, 6, 9, 10) of the 4×4 control grid |
| FaceOneRing.CornerEntries | FastCat/MeshUtility.cpp:393-419 | each corner contributes four entries, and the first is the corner's own offset index |
| FaceOneRing.BoundaryCornerRepeats | FastCat/MeshUtility.cpp:399-413 | a negative-sharpness boundary corner repeats its own index and then the vNext-fPrev origin; any other boundary corner alternates its own index with the vPrev destination |
| FaceOneRing.ConcatLayout | FastCat/MeshUtility.cpp:393-422 | blocks of four pushed one after another put entry j of corner k at 4k + j |
| FaceOneRing.FillCache | FastCat/MeshUtility.cpp:393-422 | the cache is the concatenation of the corner blocks of the face walk |
| FaceOneRing.Scatter | FastCat/MeshUtility.cpp:424-427 | cache entry i goes to slot reorderMap[i], so slot s holds cache entry SlotSource[s]; slots from 16 on are untouched |
| FaceOneRing.QuadCacheLayout | FastCat/MeshUtility.cpp:393-422 | a quad's cache has sixteen entries: corner k's block at 4k |
| FaceOneRing.QuadCacheCorners | FastCat/MeshUtility.cpp:397 | entry 4k of a quad's cache is corner k's offset index |
| FaceOneRing.FillQuadSlots | FastCat/MeshUtility.cpp:387-427 | every output slot holds the unsigned value of its reordered cache entry; the corners land at reorderMap[4k]; later slots are untouched |
| FaceOneRing.GetOneRingIndices | FastCat/MeshUtility.cpp:384-428 | for a quad of a valid mesh, the sixteen slots hold the reordered one-ring cache, and the corner vertices land in the inner block |

## Left out

- Maya's `MGlobal::displayError` in `getPartialPatchInfo` is left out. The model returns a `notQuad` flag in its place, and the outputs stay unchanged as in the code.
- Sharpness is a `real`, not a 32-bit float. Rounding in the crease sum and the average is not modelled.
- `isUnevaluable` compares sharpnesses with `fabsf(a - b) > FLT_EPSILON`. The model uses exact inequality, so two sharpnesses closer than `FLT_EPSILON` count as different in the model.
- VertexQueries.GetOneRingMeta: the average is computed only when there are at least two creases. The code divides first and then overwrites the result with 0 when there are fewer, so with no crease its float division by zero is not modelled. The reported values are the same.
- The debug `assert`s at FastCat/MeshUtility.cpp lines 39, 137 and 386 become preconditions.
- The condition at line 140 is proved as `BoundaryEdgeBrackets`.
- The condition at line 104 is proved, for a well-formed mesh and a positive valence, as `NeighbourCountIsTwiceValence` and as the neighbour-count clause of `GetOneRingMeta`. That clause counts the entries added to the caller's list, so it matches the assert when the list comes in empty. A vertex of valence -1 or 0 also takes the walking branch; for it the assert cannot hold, and the model states no count.
- The assert at line 395 (every corner of a quad has valence 4) is not a precondition. The model keeps the release-build behaviour, including the boundary-corner branch that this assert would exclude.
- A boundary vertex with no dual-less half-edge would make the scan at lines 29-31 loop forever. `GetOneRingIndices` and `GetOneRingMeta` require such an edge, as `FindBoundaryIndices` does by its assert.
- A mesh whose vertex or face walk never returns to its start would make every do/while loop run forever. `Navigable` excludes such meshes, and building the mesh is not part of this model.
- Vertex and face indices are unbounded integers. Signed overflow of `idx + firstVertexOffset` is not modelled.
- FaceOneRing.FillCache: the cache holds the int values, and the conversion to `unsigned` is applied when the slots are written. The stored values are the same, by `ToUnsignedWraps`.
- Pointer identity becomes arena indices. The `std::set<Vertex *>`, `std::set<Edge *>` and `std::set<Face *>` arguments are sets of indices, so their iteration order (which is by address) is not modelled.
- FastCat/MeshUtility.h (the class declarations) is not part of this model. The fields and navigation steps the queries use are taken from their uses in FastCat/MeshUtility.cpp.
