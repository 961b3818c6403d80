# libflipper GX geometry core in Dafny

This project models the geometry core of libflipper. That core takes GameCube/Wii (GX) model geometry
and turns it into data that a modern GPU can draw in one upload:

- **`GXVertex`** (`gx_vertex_data.dfy`, module `GXVertexData`). A class holding a fixed array of
  `Attribute_Max` 16-bit pool indices, one per vertex attribute, all `UINT16_MAX` at construction.
  Reads and writes are range-guarded. Equality compares every slot.
  The same file holds:
  - the attribute pools (`GXAttributeData`) with their `Has*` predicates;
  - the zero-initialised output vertex (`ModernVertex`).
- **Triangulation** (`triangulation.dfy`, module `Triangulation`). A pure specification of what a
  strip or a fan becomes:
  - strip index `i` in `[2, n)` yields `(v[i-2], v[i-1], v[i])`, or `(v[i-2], v[i], v[i-1])` when
    `i` is odd;
  - fan index `i` in `[1, n-1)` yields `(v[i], v[i+1], v[0])`;
  - a triangle with two equal vertices is dropped.

  Triangulation is generic over any vertex type with equality. Lemmas show that:
  - every output triangle is a non-degenerate candidate;
  - every non-degenerate candidate is output;
  - kept triangles stay in index order;
  - sizes are bounded;
  - pairwise-distinct input loses nothing.
- **Primitives, shapes and the model** (`gx_geometry_data.dfy`, module `GXGeometryData`):
  - class `Primitive`. It triangulates its vertex list in place, by the same index loops as the
    source, proved equal to the specification.
  - datatype `Shape` and its offset/count accessor.
  - the linear searches `VectorIndexOf`/`VectorContains`.
  - `GXVertexToModern`: a loop over the shape's active attributes, proved equal to a field-by-field
    definition (`ResolvedVertex`).
  - class `Geometry` and its `CreateVertexArray` pass. The pass triangulates every primitive, appends
    every vertex and a running 16-bit index, and records each shape's 32-bit `(offset, count)`. It is
    proved equal to a per-shape layout specification (`LaidOutAt`, `GeometryVertices`,
    `RunningIndices`), and lemmas state what that layout means.

Where the `.cpp` and the header disagree, the model follows the `.cpp`; a few behaviours of the
code are worth stating outright:

- **No deduplication.** `CreateVertexArray` does not deduplicate: it appends every triangulated
  vertex with a fresh running index. `VectorIndexOf`/`VectorContains` exist but are not called, so
  they are modelled on their own.
- **The primitive type is not changed by triangulation.** `mType` keeps its strip/fan value after
  its vertices become a triangle list.
- **Mismatched declarations.** The `.cpp` triangulates `ModernVertex` lists while the header declares
  `std::vector<GXVertex>`, so primitives are generic over a vertex type with `==`. The header names
  the builder `ModernizeGeometry` and has no model vertex list. The `.cpp` defines `CreateVertexArray`
  and appends to `mModelVertices`, so `Geometry` has both lists.
- **Indices are 16-bit.** The `.cpp` pushes `static_cast<uint32_t>(index++)`, but the header stores
  `uint16_t`. The stored value is therefore `index mod 65536`.
- **The counter restarts on every call.** It starts at 0 each call, while offsets are taken from the
  index list's current length. A second call would make the two disagree; the contracts state both
  as written.
- **Shapes and primitives are held by value.** The `.cpp` iterates `GXShape*`/`GXPrimitive*`, while
  the header holds them by value.

## Model

| member | source | states |
|---|---|---|
| GXVertexData.HasPositions | include/geometry/GXVertexData.hpp:18 | holds exactly when the position pool is non-empty |
| GXVertexData.HasNormals | include/geometry/GXVertexData.hpp:19 | holds exactly when the normal pool is non-empty |
| GXVertexData.HasColors | include/geometry/GXVertexData.hpp:20 | a colour channel is present only if its index is below 2 and its pool is non-empty |
| GXVertexData.HasTexCoords | include/geometry/GXVertexData.hpp:21 | a texture-coordinate channel is present only if its index is below 8 and its pool is non-empty |
| GXVertexData.DefaultModernVertex | src/geometry/GXVertexData.cpp:9-24 | position, normal, both colours and all eight texture coordinates are zero |
| GXVertexData.GXVertex.constructor | src/geometry/GXVertexData.cpp:3-7 | a new vertex has `Attribute_Max` slots, every one `UINT16_MAX` |
| GXVertexData.GXVertex.GetIndex | src/geometry/GXVertexData.cpp:26-34 | an in-range attribute reads its slot; any other reads `UINT16_MAX` |
| GXVertexData.GXVertex.SetIndex | src/geometry/GXVertexData.cpp:36-42 | an in-range attribute's slot becomes the value and reads back as it; every other slot is unchanged; an out-of-range attribute changes nothing |
| GXVertexData.GXVertex.Equals | src/geometry/GXVertexData.cpp:44-51 | true exactly when every slot, unset ones included, is equal |
| GXVertexData.GXVertex.NotEquals | include/geometry/GXVertexData.hpp:44 | true exactly when the slot tuples differ, the negation of `Equals` |
| GXVertexData.SlotEqualityIsSlotwise | src/geometry/GXVertexData.cpp:44-51 | two slot tuples are equal exactly when every one of the `Attribute_Max` slots, unset ones included, is equal |
| Triangulation.Degenerate | src/geometry/GXGeometryData.cpp:30 | a triangle is rejected exactly when its three corners are not pairwise distinct (the same test at line 50 for fans) |
| Triangulation.StripCandidates | src/geometry/GXGeometryData.cpp:23-28 | one candidate per index `i` in `[2, n)`, the strip triangle of `i` |
| Triangulation.FanCandidates | src/geometry/GXGeometryData.cpp:44-47 | one candidate per index `i` in `[1, n-1)`, the fan triangle of `i` |
| Triangulation.EmitAllSize | src/geometry/GXGeometryData.cpp:30-35 | filtering k candidates leaves a multiple of 3 vertices, at most 3k |
| Triangulation.EmitAllSound | src/geometry/GXGeometryData.cpp:30-35 | every output triangle is a non-degenerate candidate |
| Triangulation.EmitAllLength | src/geometry/GXGeometryData.cpp:30-35 | the output holds exactly one triangle per kept candidate |
| Triangulation.EmitAllPlaces | src/geometry/GXGeometryData.cpp:30-35 | a kept candidate sits at the position given by the number of kept candidates before it |
| Triangulation.KeptIncreasing | src/geometry/GXGeometryData.cpp:30-35 | a kept candidate's position is below that of every later candidate |
| Triangulation.EmitAllInOrder | src/geometry/GXGeometryData.cpp:30-35 | two kept candidates are output in their input order |
| Triangulation.EmitAllOfProper | src/geometry/GXGeometryData.cpp:30-35 | with no degenerate candidate, output triangle m is candidate m |
| Triangulation.EmitAllDrops | src/geometry/GXGeometryData.cpp:30-31 | a degenerate candidate makes the output shorter than 3 per candidate |
| Triangulation.StripUpToIsEmitAll | src/geometry/GXGeometryData.cpp:23-36 | the strip loop up to index i is the filter over the first i - 2 strip candidates |
| Triangulation.StripIsEmitAll | src/geometry/GXGeometryData.cpp:20-39 | the strip output is the filter over all strip candidates |
| Triangulation.StripSize | src/geometry/GXGeometryData.cpp:20-39 | the strip output is a multiple of 3 and at most 3(n-2); it is empty below 3 vertices |
| Triangulation.StripTrianglesAreCandidates | src/geometry/GXGeometryData.cpp:23-35 | every output triangle is non-degenerate and is the strip triangle of some index in `[2, n)` |
| Triangulation.StripKeepsProperTriangles | src/geometry/GXGeometryData.cpp:23-35 | every non-degenerate strip triangle appears in the output |
| Triangulation.StripInOrder | src/geometry/GXGeometryData.cpp:23-35 | kept strip triangles appear in increasing index order |
| Triangulation.StripOfDistinct | src/geometry/GXGeometryData.cpp:23-35 | with pairwise-distinct vertices there are exactly n-2 triangles, triangle k being index k+2 with the parity winding |
| Triangulation.StripRejectsDegenerate | src/geometry/GXGeometryData.cpp:30-31 | a degenerate strip triangle makes the output shorter than 3(n-2) |
| Triangulation.StripOfFive | src/geometry/GXGeometryData.cpp:23-35 | five distinct vertices give `a b c, b d c, c d e` |
| Triangulation.FanUpToIsEmitAll | src/geometry/GXGeometryData.cpp:44-56 | the fan loop up to index i is the filter over the first i - 1 fan candidates |
| Triangulation.FanIsEmitAll | src/geometry/GXGeometryData.cpp:41-59 | the fan output is the filter over all fan candidates |
| Triangulation.FanSize | src/geometry/GXGeometryData.cpp:41-59 | the fan output is a multiple of 3 and at most 3(n-2); it is empty below 3 vertices |
| Triangulation.FanTrianglesAreCandidates | src/geometry/GXGeometryData.cpp:44-55 | every output triangle is non-degenerate and is `(v[i], v[i+1], v[0])` for some `i` in `[1, n-1)` |
| Triangulation.FanKeepsProperTriangles | src/geometry/GXGeometryData.cpp:44-55 | every non-degenerate fan triangle appears in the output |
| Triangulation.FanInOrder | src/geometry/GXGeometryData.cpp:44-55 | kept fan triangles appear in increasing index order |
| Triangulation.FanOfDistinct | src/geometry/GXGeometryData.cpp:44-55 | with pairwise-distinct vertices there are exactly n-2 triangles, triangle k being `(v[k+1], v[k+2], v[0])` |
| Triangulation.FanRejectsDegenerate | src/geometry/GXGeometryData.cpp:50-51 | a degenerate fan triangle makes the output shorter than 3(n-2) |
| Triangulation.FanOfFour | src/geometry/GXGeometryData.cpp:44-55 | four distinct vertices give `b c a, c d a` |
| Triangulation.TriangulatedPassThrough | src/geometry/GXGeometryData.cpp:6-18 | any kind other than strip or fan (Triangles, None, ...) leaves the vertex list as it is |
| Triangulation.TriangulatedIsTriangleList | src/geometry/GXGeometryData.cpp:6-59 | a triangulated strip or fan is a list of whole, non-degenerate triangles |
| GXGeometryData.Primitive.constructor | include/geometry/GXGeometryData.hpp:22 | a new primitive has kind None and no vertices |
| GXGeometryData.Primitive.TriangulatePrimitive | src/geometry/GXGeometryData.cpp:6-18 | dispatches on the kind: the vertex list becomes its triangulation, and the kind is unchanged |
| GXGeometryData.Primitive.TriangulateTriangleStrip | src/geometry/GXGeometryData.cpp:20-39 | the vertex list is replaced by the strip triangulation of the old list; the kind is unchanged |
| GXGeometryData.Primitive.TriangulateTriangleFan | src/geometry/GXGeometryData.cpp:41-59 | the vertex list is replaced by the fan triangulation of the old list; the kind is unchanged |
| GXGeometryData.DefaultShape | include/geometry/GXGeometryData.hpp:55 | a new shape has no attributes, no primitives, offset 0 and count 0 |
| GXGeometryData.GetVertexOffsetAndCount | src/geometry/GXGeometryData.cpp:61-64 | returns the shape's recorded offset and count |
| GXGeometryData.VectorIndexOf | src/geometry/GXGeometryData.cpp:92-101 | -1 exactly when the element is absent; otherwise the first position holding it |
| GXGeometryData.VectorContains | src/geometry/GXGeometryData.cpp:103-107 | true exactly when the element occurs; the index is then the first position holding it, and -1 otherwise |
| GXGeometryData.GXVertexToModern | src/geometry/GXGeometryData.cpp:109-147 | the result is the resolved vertex: each active attribute copies its pool entry at the vertex's slot, position w is the position-matrix slot, and inactive fields stay zero |
| GXGeometryData.ResolutionIgnoresInactiveSlots | src/geometry/GXGeometryData.cpp:114-144 | two vertices that agree on the active slots resolve to the same vertex |
| GXGeometryData.ActivePoolsArePopulated | src/geometry/GXGeometryData.cpp:114-144 | when every lookup is in range, the pool of each active attribute is non-empty (`Has*` holds) |
| GXGeometryData.Geometry.constructor | include/geometry/GXGeometryData.hpp:76-80 | a new model has no shapes, no vertices and no indices |
| GXGeometryData.Geometry.CreateVertexArray | src/geometry/GXGeometryData.cpp:149-173 | shape s becomes its laid-out form (primitives triangulated, offset and count recorded); the vertex list grows by every triangulated vertex in shape and primitive order; the index list grows by the counter 0, 1, 2, ... mod 65536, one entry per vertex |
| GXGeometryData.Geometry.LayOutShape | src/geometry/GXGeometryData.cpp:153-171 | one shape: offset is the index-list length before it, count is the uint32 difference after, and its triangulated vertices and counter values are appended |
| GXGeometryData.Geometry.LayOutPrimitives | src/geometry/GXGeometryData.cpp:159-169 | a shape's primitives are triangulated in order and their vertices and counter values appended |
| GXGeometryData.Geometry.LayOutPrimitive | src/geometry/GXGeometryData.cpp:160-168 | one primitive is triangulated and every vertex appended with the next counter value |
| GXGeometryData.WrapDifference | src/geometry/GXGeometryData.cpp:171 | the uint32 difference of the wrapped index-list lengths is the wrapped number of vertices appended |
| GXGeometryData.LaidOutShapeFields | src/geometry/GXGeometryData.cpp:156-171 | an offset and count that fit in 32 bits are recorded unwrapped |
| GXGeometryData.LaidOutRange | src/geometry/GXGeometryData.cpp:149-173 | shape s's offset is the base plus the vertices of the shapes before it; its count is exactly its own triangulated vertices |
| GXGeometryData.LaidOutShapeWrapped | src/geometry/GXGeometryData.cpp:156-171 | a laid-out shape records its offset and its triangulated vertex count, both wrapped to uint32 |
| GXGeometryData.WrapSum | src/geometry/GXGeometryData.cpp:171 | uint32 addition of wrapped values is the wrapped sum |
| GXGeometryData.LaidOutContiguous | src/geometry/GXGeometryData.cpp:149-173 | the recorded ranges are contiguous and in shape order in uint32 arithmetic, at any size: the first starts at the base, each starts where the previous one ends, the last ends at the base plus every vertex |
| GXGeometryData.GeometryVertexOfShape | src/geometry/GXGeometryData.cpp:159-169 | shape s's k-th triangulated vertex sits in the model vertex list right after the vertices of earlier shapes |
| GXGeometryData.ShapeIndicesSelectItsVertices | src/geometry/GXGeometryData.cpp:165-168 | the k-th index of shape s's range selects shape s's k-th triangulated vertex |
| GXGeometryData.RunningIndicesAreExact | src/geometry/GXGeometryData.cpp:167 | up to 65536 vertices the index list is 0, 1, 2, ... with no repeats (no deduplication) |
| GXGeometryData.RunningIndicesWrap | include/geometry/GXGeometryData.hpp:80 | every stored index is below 65536, and entry k + 65536 repeats entry k: beyond 65536 vertices the index list selects earlier vertices again |

## Left out

- `GXShape::CalculateCenterOfMass` (src/geometry/GXGeometryData.cpp:66-90) is left out. It is floating-point summation and division over glm vectors.
- Vector components are `real`. The core only copies them, and every `uint16_t` converts to `float` exactly, so position w is modelled as the slot's value.
- `mUserData`, `GetUserData` and `SetUserData` are left out. They hold an opaque pointer the core never reads.
- `GXVertexAttributeFormat` and the attribute enumerations are left out, because `GXGeometryEnums.hpp` is not part of this model. Attribute ordinals follow the GX hardware numbering. The proofs rely only on `PositionMatrixIdx` being the lowest ordinal, the colour and texture-coordinate ordinals being contiguous, and Position, Normal, the colour range and the texture-coordinate range being pairwise disjoint (the source's switch over them needs distinct case labels), and `Attribute_Max` bounding them.
- The non-const reference getters are not modelled as aliases. The methods read and write the fields directly.
- Shapes and primitives are values inside `Geometry`, not shared objects. Each primitive is triangulated in a fresh `Primitive` whose result is written back, so aliasing between shapes or primitives is not modelled.
- GXGeometryData.Primitive.TriangulateTriangleFan: requires at least one vertex. With none, `size() - 1` underflows and the source reads out of bounds. `Triangulation.Fan` of the empty list is defined as empty only to keep the specification total.
- GXGeometryData.GXVertexToModern: requires every active attribute's slot to lie inside its pool. The source indexes the pools without a check.
- GXGeometryData.Geometry.CreateVertexArray: requires every fan to be non-empty, for the same reason as the fan triangulator.
- GXGeometryData.LaidOutRange: states the offset and count unwrapped only while the index count stays below 2^32. Beyond that the contract of `CreateVertexArray` still gives the exact wrapped values.
- GXGeometryData.ShapeIndicesSelectItsVertices: holds only for a model of at most 65536 vertices laid out into an empty index list. Beyond that the 16-bit indices wrap (`RunningIndicesWrap`).
