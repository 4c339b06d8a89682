# Fill bucket mesh builder

A model of `FillBucket` from mapbox-gl-native: the object that turns the
polygon features of one tile and one style layer into a GPU-ready fill mesh,
and later issues the draw calls for it.

`addGeometry` classifies the feature's rings into polygons. For each polygon
it does these steps in order:

- It caps the holes at 500.
- It rejects the polygon with `GeometryTooLongException` once the running
  vertex count passes 65535.
- It appends every non-empty ring's vertices to the shared vertex array.
- It appends the ring's closed loop of line segments: first `(n-1, 0)`, then
  `(i-1, i)`. The segments are appended to the shared line array, numbered
  relative to the start of the current line group; a new line group is opened
  when the current one cannot take the whole ring. A group is only a window
  into the shared arrays.
- It triangulates the polygon with earcut. It appends the triples, shifted by
  the current triangle group's vertex count, into a triangle group that can
  take the whole polygon.

Every index is a 16-bit value relative to the start of its group. Groups keep
16-bit indexing possible. `drawElements` and `drawVertices` walk the triangle
and line groups. Each group is bound at a running vertex byte offset and drawn
from a running index byte offset.

Modules:

- `Geometry`: vertices, rings, polygons, vertex totals, the `uint16_t` cast,
  and the contract of the triangulation.
- `Groups`: group lists and the greedy "open a group when the last one has no
  room" rule. Also the prefix sums that locate a group in the vertex and index
  buffers, and `Within`: every element indexes only its own group's vertices.
- `FillMesh`: the five member vectors as a value `Mesh`. It defines what one
  ring (`WithRing`), one polygon (`WithPolygon`) and one `addGeometry` call
  (`WithGeometry`) do to them. Lemmas state what these steps guarantee.
- `Draw`: the selection of one of a group's four vertex-array bindings, and the
  draw loop as a list of draw calls.
- `Bucket`: the class `FillBucket`, whose methods update its member vectors in
  place with the source's loops. `AddGeometry`, `AddPolygon`, `AddRing` and
  `AddTriangles` are proved equal to `WithGeometry`, `WithPolygon`, `WithRing`
  and `WithTriangles`; `EmitRing` and `EmitTriangles` to `RingLoop` and
  `Remapped`. `Upload`, `HasData`, `NeedsClipping` and the draw methods are
  specified directly.
- `Scenarios`: small worked cases.

Behaviour the model follows:

- `GeometryTooLongException` is not caught inside `addGeometry`. It ends the
  whole call, so the polygons after the rejected one are not processed either.
  What the polygons before it emitted stays in the bucket
  (`RejectionKeepsEarlier`). The model returns `GeometryTooLong` and keeps that
  state. It does not skip the polygon and continue.
- The group boundary is reached by the vertex count, not by the number of
  triangles. 20,000 single-triangle polygons (60,000 vertices) share one
  triangle group (`TwentyThousandTriangles`). The 21,846th triangle is the first
  to open a second group (`TriangleGroupOverflow`).
- A ring with no vertices adds no line topology. But a polygon still reserves
  and grows a triangle group even if all its rings are empty. So `hasData` can
  be true for a bucket that holds no vertex at all
  (`EmptyRingsOpenTriangleGroup`).

## Model

| member | source | states |
|---|---|---|
| Geometry.Wrap16 | src/mbgl/renderer/fill_bucket.cpp:61-70 | the 16-bit cast is the identity on 0..65535 and otherwise reduces modulo 2^16 |
| Geometry.Flatten | src/mbgl/renderer/fill_bucket.cpp:51-71 | the vertices a polygon emits, ring after ring, number exactly the polygon's total vertex count |
| Groups.Reserve | src/mbgl/renderer/fill_bucket.cpp:57-58 | a group is opened only when the list is empty or the last group cannot take n more vertices; earlier groups are kept, the opened group is empty, and for n <= 65535 the last group then has room for n |
| Groups.AppendAccounting | src/mbgl/renderer/fill_bucket.cpp:57-74 | reserving and growing adds a group exactly when the list is empty or the last group would pass 65535; all other groups are unchanged, the vertex and element totals grow by exactly what was added, and the 65535 bound per group is preserved |
| Groups.AppendBase | src/mbgl/renderer/fill_bucket.cpp:60-61 | the group-relative base (`lineIndex`, `triangleIndex`) plus the vertices of all earlier groups is the old global vertex count |
| Groups.WithinAppend | src/mbgl/renderer/fill_bucket.cpp:57-74 | appending elements whose indices lie below the grown group's size keeps every element inside its own group |
| Groups.WithinIndex | src/mbgl/renderer/fill_bucket.cpp:129-137 | an element in group k's window of the index buffer indexes one of group k's vertices |
| Groups.WithinBounded | src/mbgl/renderer/fill_bucket.cpp:61-70 | with every group within 65535 vertices, no stored index exceeds 65534, so the 16-bit casts never wrap |
| Groups.OffsetStep | src/mbgl/renderer/fill_bucket.cpp:135-136 | advancing past group k adds exactly group k's vertices and elements, times the element size, to the byte offsets |
| FillMesh.Pred | src/mbgl/renderer/fill_bucket.cpp:64-70 | the vertex before i around a ring is i - 1, and n - 1 for vertex 0 |
| FillMesh.RingLoopClosed | src/mbgl/renderer/fill_bucket.cpp:63-71 | a ring's segments form a closed loop: the first is (n-1, 0), the others are (i-1, i), segment i ends at vertex i, and every segment starts where the one before it around the ring ends |
| FillMesh.WithRingValid | src/mbgl/renderer/fill_bucket.cpp:51-75 | one ring appends its own vertices and one segment per vertex, keeps the line invariant and leaves the triangle state alone |
| FillMesh.RingSegmentsAddressRing | src/mbgl/renderer/fill_bucket.cpp:57-71 | read through its line group's start, every segment of a ring joins the ring's previous vertex to its own vertex in the global vertex buffer |
| FillMesh.WithRingsVertices | src/mbgl/renderer/fill_bucket.cpp:51-75 | a polygon's rings append exactly its flattened vertices and do not touch triangles or triangle groups |
| FillMesh.WithRingsValid | src/mbgl/renderer/fill_bucket.cpp:51-75 | all rings of a polygon keep the line invariant, only append segments, and append one segment per vertex |
| FillMesh.WithTrianglesValid | src/mbgl/renderer/fill_bucket.cpp:77-96 | a triangulation keeps the triangle invariant, appends one triangle per index triple, grows the triangle groups by the polygon's total and leaves the vertices and lines alone |
| FillMesh.PolygonTriangleGroups | src/mbgl/renderer/fill_bucket.cpp:81-95 | a polygon's whole triangulation is accounted in one triangle group: the groups grow exactly as one append of the polygon's vertex total and its number of triples, so a polygon's triangles are never split across groups |
| FillMesh.WithPolygonValid | src/mbgl/renderer/fill_bucket.cpp:39-97 | an accepted polygon keeps the whole mesh invariant: bounded groups that partition the vertex and element arrays with every index inside its own group; vertices, segments and triangles are only appended |
| FillMesh.TriangleAddressesPolygon | src/mbgl/renderer/fill_bucket.cpp:77-96 | round trip: read through its group's start, each corner of the polygon's k-th triangle is exactly the polygon vertex the triangulation chose, not another polygon's |
| FillMesh.WithGeometryValid | src/mbgl/renderer/fill_bucket.cpp:38-98 | every addGeometry call, whether it ends normally or by the exception, leaves a valid mesh |
| FillMesh.WithGeometryDoneIff | src/mbgl/renderer/fill_bucket.cpp:43-49 | the call ends normally if and only if every hole-limited polygon has at most 65535 vertices |
| FillMesh.RejectionKeepsEarlier | src/mbgl/renderer/fill_bucket.cpp:39-49 | when polygon k is the first one too long, the call throws and the mesh is exactly what polygons 0..k-1 produced |
| FillMesh.WithGeometryConcat | src/mbgl/renderer/fill_bucket.cpp:38-98 | two calls in a row, the first ending normally, leave the same mesh and outcome as one call over both polygon lists, so results about one call carry over to a sequence of calls |
| FillMesh.WithGeometryAppendsOnly | src/mbgl/renderer/fill_bucket.cpp:38-98 | a call only appends: earlier vertices, segments, triangles and all groups but the last are kept, and the last group only grows |
| Draw.BindingSlot | src/mbgl/renderer/fill_bucket.cpp:131-147 | the plain and outline shaders use bindings 0 and 1, the pattern ones 2 and 3, and the odd binding is the overdraw one |
| Draw.BindingSlotInjective | src/mbgl/renderer/fill_bucket.cpp:131-147 | the four shader and paint-mode combinations use four different bindings |
| Draw.Dispatch | src/mbgl/renderer/fill_bucket.cpp:127-137 | one draw per group, in order; group k is bound at 4 bytes times the vertices of groups 0..k-1 and drawn from the element size times their elements |
| Draw.TriangleDrawInBounds | src/mbgl/renderer/fill_bucket.cpp:124-138 | in a valid mesh, a triangle group's draw reads only existing triangles, and every index it draws, offset by the bound position, names an existing vertex |
| Draw.LineDrawInBounds | src/mbgl/renderer/fill_bucket.cpp:156-170 | the same for line groups over the segment array |
| Bucket.CountVertices | src/mbgl/renderer/fill_bucket.cpp:43-49 | the running ring-size sum reports too long exactly when the polygon has more than 65535 vertices, and otherwise returns the total |
| Bucket.FillBucket.constructor | src/mbgl/renderer/fill_bucket.cpp:33-34 | a new bucket is empty, valid, not uploaded and has no data |
| Bucket.FillBucket.AddGeometry | src/mbgl/renderer/fill_bucket.cpp:38-98 | the in-place loops leave exactly the mesh and outcome of `WithGeometry` over the classified rings, keep the invariant and do not change the upload flag |
| Bucket.FillBucket.AddPolygon | src/mbgl/renderer/fill_bucket.cpp:51-96 | a polygon that fits leaves exactly `WithPolygon`'s mesh, keeps the invariant, and afterwards the bucket has data |
| Bucket.FillBucket.AddRing | src/mbgl/renderer/fill_bucket.cpp:52-74 | one non-empty ring leaves exactly `WithRing`'s mesh |
| Bucket.FillBucket.EmitRing | src/mbgl/renderer/fill_bucket.cpp:63-71 | the ring loop appends the ring's vertices and its closed segment loop and changes nothing else |
| Bucket.FillBucket.AddTriangles | src/mbgl/renderer/fill_bucket.cpp:82-96 | the triangulation step leaves exactly `WithTriangles`'s mesh |
| Bucket.FillBucket.EmitTriangles | src/mbgl/renderer/fill_bucket.cpp:89-93 | the triple loop appends each triple shifted by the group base and changes nothing else |
| Bucket.FillBucket.Upload | src/mbgl/renderer/fill_bucket.cpp:100-107 | upload sets the uploaded flag |
| Bucket.FillBucket.HasData | src/mbgl/renderer/fill_bucket.cpp:116-118 | a valid bucket without groups holds no vertex, segment or triangle |
| Bucket.FillBucket.NeedsClipping | src/mbgl/renderer/fill_bucket.cpp:120-122 | fill meshes always need clipping |
| Bucket.FillBucket.DrawElements | src/mbgl/renderer/fill_bucket.cpp:124-154 | one GL_TRIANGLES draw per triangle group: elements times 3 indices, bound at the running vertex offset (4 bytes a vertex), drawn from the running index offset (6 bytes a triangle) |
| Bucket.FillBucket.DrawVertices | src/mbgl/renderer/fill_bucket.cpp:156-186 | one GL_LINES draw per line group: elements times 2 indices, at the running vertex offset and the running index offset (4 bytes a segment) |
| Scenarios.RingsShareLineGroup | src/mbgl/renderer/fill_bucket.cpp:57-74 | while the running count fits, all non-empty rings land in the same line group |
| Scenarios.EmptyRingsOpenTriangleGroup | src/mbgl/renderer/fill_bucket.cpp:51-96 | a polygon of empty rings emits nothing but still opens a triangle group, so hasData holds with no vertices |
| Scenarios.SingleTriangle | src/mbgl/renderer/fill_bucket.cpp:51-96 | a lone triangle gives the loop (2,0), (0,1), (1,2), one line group (3, 3) and one triangle group (3, 1) |
| Scenarios.FirstPolygon | src/mbgl/renderer/fill_bucket.cpp:51-96 | on an empty bucket a polygon of at most 65535 vertices emits its rings end to end, one segment per vertex, one line group and one triangle group holding its whole vertex count |
| Scenarios.SquareWithHole | src/mbgl/renderer/fill_bucket.cpp:51-96 | a square with a square hole gives one line group (8, 8) and one triangle group of 8 vertices |
| Scenarios.TrianglesShareTriangleGroup | src/mbgl/renderer/fill_bucket.cpp:82-96 | consecutive triangles stay in one triangle group while the vertex count fits in 65535 |
| Scenarios.TwentyThousandTriangles | src/mbgl/renderer/fill_bucket.cpp:82-96 | 20,000 triangles (60,000 vertices) fit in a single triangle group |
| Scenarios.TwentyThousandTrianglesInTwoCalls | src/mbgl/renderer/fill_bucket.cpp:38-98 | the same 20,000 triangles split over two addGeometry calls: both end normally and one triangle group of 60,000 vertices remains |
| Scenarios.TriangleGroupOverflow | src/mbgl/renderer/fill_bucket.cpp:82-84 | with the triangle group full at 65535 vertices, the next triangle opens a second group |
| Scenarios.OneVertexTooMany | src/mbgl/renderer/fill_bucket.cpp:45-48 | a 65536-vertex polygon ends the call with the exception and leaves the mesh unchanged |

## Left out

- classifyRings, limitHoles and mapbox::earcut are not part of this model. They
  are parameters of `AddGeometry`. Only earcut has a contract: its result is a
  list of index triples into the polygon's flattened vertices. `limitHoles` is
  any function, because its hole-dropping rule lives outside this file.
- Bucket.FillBucket.Upload: does not model moving the arrays into GPU buffers.
  The model keeps the mesh and sets only the flag, because buffer creation is
  a call into the rendering backend.
- Bucket.FillBucket.HasData: states one direction only (no group means no
  vertex, segment or triangle). The converse does not hold, because a polygon
  of empty rings opens a triangle group without emitting anything.
- render (fill_bucket.cpp:109-114) forwards to the painter, which is not part
  of this model.
- Bucket.FillBucket.DrawElements and Bucket.FillBucket.DrawVertices: they return
  the draw calls instead of issuing them. The VAO contents bound per slot and
  GL error checking are not modelled. The vertex size (4 bytes) and the
  element sizes (4 and 6 bytes) come from the buffer types. Those types are not
  part of this model.
- Vertex coordinates are unbounded integers rather than the 16-bit signed
  coordinates of the vertex buffer. They are only copied.
- Group objects are values in the group lists rather than heap-allocated
  objects behind pointers. Only the last group is ever updated, so no aliasing
  is lost.
- `std::size_t` and `uint32_t` counters are unbounded. The per-group vertex
  counts and every value cast to `uint16_t` stay at or below 65535
  (`WithinBounded`); the remaining counters (the array sizes, a triangle
  group's element count, the running byte offsets) are `size_t`- or
  pointer-wide, and their overflow is not modelled.
- The destructor, the tile cover code and its test, and the Objective-C shape
  source header are outside the bucket's core.
