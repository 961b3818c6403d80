/**
 * The geometry of a GX model: primitives that triangulate themselves in
 * place, shapes that group primitives sharing one attribute table, the
 * linear-search helpers over vertex lists, the resolution of an indexed
 * vertex into a ModernVertex, and the pass that lays every shape's
 * triangulated vertices out in one model vertex list and one model index
 * list.
 */
module GXGeometryData {
  import opened GXVertexData
  import opened Triangulation

  // ---------------------------------------------------------------------------
  // Primitives

  /** The value of a primitive: its kind and its vertex list. */
  datatype PrimitiveValue<V> = PrimitiveValue(kind: PrimitiveType, vertices: seq<V>)

  /** GXPrimitive: a primitive kind and the vertices that make it up. */
  class Primitive<V(==)> {
    var primType: PrimitiveType
    var vertices: seq<V>

    function Value(): PrimitiveValue<V>
      reads this
    {
      PrimitiveValue(primType, vertices)
    }

    /** A default primitive has kind None and no vertices. */
    constructor ()
      ensures primType == None && vertices == []
    {
      primType := None;
      vertices := [];
    }

    /**
     * Rewrites a strip or a fan into a triangle list; any other kind is left
     * as it is.  The kind itself is not changed.
     */
    method TriangulatePrimitive()
      requires Triangulable(primType, vertices)
      modifies this
      ensures primType == old(primType)
      ensures vertices == Triangulated(old(primType), old(vertices))
    {
      match primType
      case TriangleStrips =>
        TriangulateTriangleStrip();
      case TriangleFan =>
        TriangulateTriangleFan();
      case _ =>
    }

    /** One triangle per index i in [2, n), winding by the parity of i, degenerate ones skipped. */
    method TriangulateTriangleStrip()
      modifies this
      ensures primType == old(primType)
      ensures vertices == Strip(old(vertices))
    {
      var triangles: seq<V> := [];
      var i := 2;
      while i < |vertices|
        invariant 2 <= i <= if |vertices| < 2 then 2 else |vertices|
        invariant unchanged(this)
        invariant triangles == StripUpTo(vertices, if |vertices| < 2 then |vertices| else i)
      {
        var isIndexOdd := i % 2 != 0;
        var v0 := vertices[i - 2];
        var v1 := if isIndexOdd then vertices[i] else vertices[i - 1];
        var v2 := if isIndexOdd then vertices[i - 1] else vertices[i];
        if v0 == v1 || v0 == v2 || v1 == v2 {
          i := i + 1;
          continue;
        }
        triangles := triangles + [v0, v1, v2];
        i := i + 1;
      }
      vertices := triangles;
    }

    /** One triangle (v[i], v[i+1], v[0]) per index i in [1, n - 1), degenerate ones skipped. */
    method TriangulateTriangleFan()
      requires |vertices| >= 1
      modifies this
      ensures primType == old(primType)
      ensures vertices == Fan(old(vertices))
    {
      var triangles: seq<V> := [];
      var i := 1;
      while i < |vertices| - 1
        invariant 1 <= i <= if |vertices| < 2 then 1 else |vertices| - 1
        invariant unchanged(this)
        invariant triangles == FanUpTo(vertices, if |vertices| < 2 then |vertices| - 1 else i)
      {
        var v0 := vertices[i];
        var v1 := vertices[i + 1];
        var v2 := vertices[0];
        if v0 == v1 || v0 == v2 || v1 == v2 {
          i := i + 1;
          continue;
        }
        triangles := triangles + [v0, v1, v2];
        i := i + 1;
      }
      vertices := triangles;
    }
  }

  // ---------------------------------------------------------------------------
  // Shapes

  /**
   * GXShape: primitives sharing one attribute table, and where their indices
   * sit in the model index list.  A model holds its shapes, and a shape its
   * primitives, by value.
   */
  datatype Shape<V> = Shape(
    attributeTable: seq<Attribute>,
    primitives: seq<PrimitiveValue<V>>,
    firstVertexOffset: u32,
    vertexCount: u32)

  /** The GXShape default constructor: no attributes, no primitives, an empty index range at 0. */
  function DefaultShape<V>(): (r: Shape<V>)
    ensures r.attributeTable == [] && r.primitives == []
    ensures r.firstVertexOffset == 0 && r.vertexCount == 0
  {
    Shape([], [], 0, 0)
  }

  /** GXShape::GetVertexOffsetAndCount: where the shape's indices start and how many there are. */
  function GetVertexOffsetAndCount<V>(shape: Shape<V>): (r: (u32, u32))
    ensures r.0 == shape.firstVertexOffset && r.1 == shape.vertexCount
  {
    (shape.firstVertexOffset, shape.vertexCount)
  }

  // ---------------------------------------------------------------------------
  // Linear search over vertex lists

  /** std::find over a vertex list: the first position holding `elem`, or -1. */
  function VectorIndexOf(vec: seq<IndexTuple>, elem: IndexTuple): (r: int)
    ensures -1 <= r < |vec|
    ensures r == -1 <==> elem !in vec
    ensures r != -1 ==> vec[r] == elem && forall k :: 0 <= k < r ==> vec[k] != elem
  {
    if vec == [] then -1
    else if vec[0] == elem then 0
    else
      var rest := VectorIndexOf(vec[1..], elem);
      if rest == -1 then -1 else rest + 1
  }

  /** Whether `elem` occurs in the list, together with its first position (or -1). */
  function VectorContains(vec: seq<IndexTuple>, elem: IndexTuple): (r: (bool, int))
    ensures r.0 <==> elem in vec
    ensures r.0 ==> 0 <= r.1 < |vec| && vec[r.1] == elem && forall k :: 0 <= k < r.1 ==> vec[k] != elem
    ensures !r.0 ==> r.1 == -1
  {
    var index := VectorIndexOf(vec, elem);
    (index != -1, index)
  }

  // ---------------------------------------------------------------------------
  // Resolving an indexed vertex

  /** The attributes whose index selects an entry of a pool. */
  predicate ReadsPool(attribute: Attribute) {
    attribute == Position || attribute == Normal || IsColor(attribute) || IsTexCoord(attribute)
  }

  /** The size of the pool an attribute selects from. */
  function PoolSize(attributes: AttributeData, attribute: Attribute): nat
    requires ReadsPool(attribute)
  {
    if attribute == Position then |attributes.positions|
    else if attribute == Normal then |attributes.normals|
    else if IsColor(attribute) then |attributes.colors[attribute - Color0]|
    else |attributes.texCoords[attribute - TexCoord0]|
  }

  /** Every active attribute's index lies inside its pool (the source indexes the pools unchecked). */
  predicate LookupsInRange(attributes: AttributeData, vat: seq<Attribute>, slots: IndexTuple) {
    forall a :: a in vat && ReadsPool(a) ==> slots[a] < PoolSize(attributes, a)
  }

  /** A pool position whose fourth component carries the position-matrix index (exact: every uint16 is a float). */
  function WithMatrixIndex(p: Vec4, matrixIndex: u16): Vec4 {
    p.(w := matrixIndex as real)
  }

  /**
   * The resolved vertex, field by field: a field whose attribute is active
   * holds its pool's entry at the vertex's index for that attribute; any
   * other field keeps the zero default, whatever the slot holds.
   */
  function ResolvedVertex(attributes: AttributeData, vat: seq<Attribute>, slots: IndexTuple): ModernVertex
    requires LookupsInRange(attributes, vat, slots)
  {
    ModernVertex(
      if Position in vat then WithMatrixIndex(attributes.positions[slots[Position]], slots[PositionMatrixIdx]) else Zero4,
      if Normal in vat then attributes.normals[slots[Normal]] else Zero3,
      seq(ColorChannels, c requires 0 <= c < ColorChannels =>
        if Color0 + c in vat then attributes.colors[c][slots[Color0 + c]] else Zero4),
      seq(TexCoordChannels, t requires 0 <= t < TexCoordChannels =>
        if TexCoord0 + t in vat then attributes.texCoords[t][slots[TexCoord0 + t]] else Zero3))
  }

  /** GXVertexToModern: folds the shape's active attributes into a fresh ModernVertex. */
  method GXVertexToModern(attributes: AttributeData, vat: seq<Attribute>, vertex: GXVertex) returns (r: ModernVertex)
    requires vertex.Valid()
    requires LookupsInRange(attributes, vat, vertex.Slots())
    ensures r == ResolvedVertex(attributes, vat, vertex.Slots())
  {
    r := DefaultModernVertex();
    ghost var slots := vertex.Slots();
    assert vat[..0] == [];
    assert r.colors == ResolvedVertex(attributes, [], slots).colors;
    assert r.texCoords == ResolvedVertex(attributes, [], slots).texCoords;
    for i := 0 to |vat|
      invariant r == ResolvedVertex(attributes, vat[..i], slots)
    {
      var attribute := vat[i];
      assert vat[..i + 1] == vat[..i] + [attribute];
      if attribute == Position {
        r := r.(position := attributes.positions[vertex.GetIndex(attribute)]);
        r := r.(position := r.position.(w := vertex.GetIndex(PositionMatrixIdx) as real));
      } else if attribute == Normal {
        r := r.(normal := attributes.normals[vertex.GetIndex(attribute)]);
      } else if Color0 <= attribute <= Color1 {
        var index := attribute - Color0;
        r := r.(colors := r.colors[index := attributes.colors[index][vertex.GetIndex(attribute)]]);
      } else if TexCoord0 <= attribute <= TexCoord7 {
        var index := attribute - TexCoord0;
        r := r.(texCoords := r.texCoords[index := attributes.texCoords[index][vertex.GetIndex(attribute)]]);
      }
    }
    assert vat[..|vat|] == vat;
  }

  /** Vertices whose slots agree on every active attribute resolve alike, whatever their other slots hold. */
  lemma ResolutionIgnoresInactiveSlots(attributes: AttributeData, vat: seq<Attribute>, s1: IndexTuple, s2: IndexTuple)
    requires LookupsInRange(attributes, vat, s1) && LookupsInRange(attributes, vat, s2)
    requires forall a :: a in vat && ReadsPool(a) ==> s1[a] == s2[a]
    requires Position in vat ==> s1[PositionMatrixIdx] == s2[PositionMatrixIdx]
    ensures ResolvedVertex(attributes, vat, s1) == ResolvedVertex(attributes, vat, s2)
  {
    var r1, r2 := ResolvedVertex(attributes, vat, s1), ResolvedVertex(attributes, vat, s2);
    forall c | 0 <= c < ColorChannels ensures r1.colors[c] == r2.colors[c] {
      if Color0 + c in vat {
        assert ReadsPool(Color0 + c);
      }
    }
    forall t | 0 <= t < TexCoordChannels ensures r1.texCoords[t] == r2.texCoords[t] {
      if TexCoord0 + t in vat {
        assert ReadsPool(TexCoord0 + t);
      }
    }
  }

  /** An active attribute whose lookups are in range has a populated pool. */
  lemma ActivePoolsArePopulated(attributes: AttributeData, vat: seq<Attribute>, slots: IndexTuple)
    requires LookupsInRange(attributes, vat, slots)
    ensures Position in vat ==> HasPositions(attributes)
    ensures Normal in vat ==> HasNormals(attributes)
    ensures forall a :: a in vat && IsColor(a) ==> HasColors(attributes, a - Color0)
    ensures forall a :: a in vat && IsTexCoord(a) ==> HasTexCoords(attributes, a - TexCoord0)
  {
    forall a | a in vat && IsColor(a) ensures HasColors(attributes, a - Color0) {
      assert ReadsPool(a);
    }
    forall a | a in vat && IsTexCoord(a) ensures HasTexCoords(attributes, a - TexCoord0) {
      assert ReadsPool(a);
    }
    if Position in vat {
      assert ReadsPool(Position);
    }
    if Normal in vat {
      assert ReadsPool(Normal);
    }
  }

  // ---------------------------------------------------------------------------
  // Laying the model out

  /** Every primitive of a shape can be triangulated. */
  predicate ShapeTriangulable<V>(ps: seq<PrimitiveValue<V>>) {
    forall j :: 0 <= j < |ps| ==> Triangulable(ps[j].kind, ps[j].vertices)
  }

  predicate GeometryTriangulable<V>(ss: seq<Shape<V>>) {
    forall s :: 0 <= s < |ss| ==> ShapeTriangulable(ss[s].primitives)
  }

  /** A primitive's value after triangulation: same kind, triangulated vertices. */
  function TriangulatedValue<V(==)>(p: PrimitiveValue<V>): PrimitiveValue<V> {
    PrimitiveValue(p.kind, Triangulated(p.kind, p.vertices))
  }

  /** A shape's primitive values after each has been triangulated. */
  function TriangulatedShape<V(==)>(ps: seq<PrimitiveValue<V>>): (r: seq<PrimitiveValue<V>>)
    ensures |r| == |ps|
  {
    seq(|ps|, j requires 0 <= j < |ps| => TriangulatedValue(ps[j]))
  }

  /** The vertices of the first k primitives, one primitive after another. */
  function Flatten<V>(ps: seq<PrimitiveValue<V>>, k: nat): seq<V>
    requires k <= |ps|
  {
    if k == 0 then []
    else Flatten(ps, k - 1) + ps[k - 1].vertices
  }

  /** Replacing a primitive at or after position k leaves the first k flattened. */
  lemma {:induction false} FlattenUpdate<V>(ps: seq<PrimitiveValue<V>>, k: nat, j: nat, p: PrimitiveValue<V>)
    requires k <= j < |ps|
    ensures Flatten(ps[j := p], k) == Flatten(ps, k)
  {
    if k > 0 {
      FlattenUpdate(ps, k - 1, j, p);
    }
  }

  /** The triangulated vertices of a shape's primitives, one primitive after another. */
  function ShapeVertices<V(==)>(ps: seq<PrimitiveValue<V>>): seq<V>
  {
    Flatten(TriangulatedShape(ps), |ps|)
  }

  /** The triangulated vertices of the first k shapes, one shape after another. */
  function GeometryVerticesUpTo<V(==)>(ss: seq<Shape<V>>, k: nat): seq<V>
    requires k <= |ss|
  {
    if k == 0 then []
    else GeometryVerticesUpTo(ss, k - 1) + ShapeVertices(ss[k - 1].primitives)
  }

  /** The triangulated vertices of all shapes. */
  function GeometryVertices<V(==)>(ss: seq<Shape<V>>): seq<V>
  {
    GeometryVerticesUpTo(ss, |ss|)
  }

  /** The 16-bit values a running counter writes from `start` on: the header stores the indices as uint16_t. */
  function CounterFrom(start: nat, n: nat): seq<u16> {
    seq(n, k => ((start + k) % 0x1_0000) as u16)
  }

  /** The index list entries a running counter 0, 1, 2, ... writes. */
  function RunningIndices(n: nat): seq<u16> {
    CounterFrom(0, n)
  }

  /** Counting from a to b and then from b to c is counting from a to c. */
  lemma CounterAppend(a: nat, b: nat, c: nat)
    requires a <= b <= c
    ensures CounterFrom(a, b - a) + CounterFrom(b, c - b) == CounterFrom(a, c - a)
  {
    var lhs, rhs := CounterFrom(a, b - a) + CounterFrom(b, c - b), CounterFrom(a, c - a);
    forall k | 0 <= k < c - a ensures lhs[k] == rhs[k] {
      if k >= b - a {
        assert lhs[k] == CounterFrom(b, c - b)[k - (b - a)];
      }
    }
  }

  /** Concatenation is associative (stated once, used at every append in the loops below). */
  lemma AppendAssoc<T>(a: seq<T>, b: seq<T>, c: seq<T>)
    ensures (a + b) + c == a + (b + c)
  {
  }

  /** A uint32_t conversion. */
  function Wrap32(x: int): u32 {
    x % 0x1_0000_0000
  }

  /** uint32_t subtraction of two wrapped positions gives the wrapped distance. */
  lemma WrapDifference(a: nat, b: nat)
    ensures Wrap32(Wrap32(a + b) - Wrap32(a)) == Wrap32(b)
  {
    var m := 0x1_0000_0000;
    var q1, q2 := (a + b) / m, a / m;
    assert a + b == q1 * m + Wrap32(a + b);
    assert a == q2 * m + Wrap32(a);
    assert Wrap32(a + b) - Wrap32(a) == b - (q1 - q2) * m;
    ModShift(b, q1 - q2);
  }

  /** Shifting by a multiple of 2^32 does not change a uint32_t conversion. */
  lemma ModShift(b: int, q: int)
    ensures Wrap32(b - q * 0x1_0000_0000) == Wrap32(b)
  {
  }

  /** A shape once laid out from index-list position `offset`: triangulated, with its index range recorded. */
  function LaidOutShape<V(==)>(shape: Shape<V>, offset: nat): Shape<V>
  {
    shape.(primitives := TriangulatedShape(shape.primitives),
           firstVertexOffset := Wrap32(offset),
           vertexCount := Wrap32(|ShapeVertices(shape.primitives)|))
  }

  /** Shape s of a model laid out from index-list position `base`: it starts after the shapes before it. */
  function LaidOutAt<V(==)>(ss: seq<Shape<V>>, base: nat, s: nat): Shape<V>
    requires s < |ss|
  {
    LaidOutShape(ss[s], base + |GeometryVerticesUpTo(ss, s)|)
  }

  /** The vertices of the first j shapes begin the vertices of the first k, for j <= k. */
  lemma {:induction false} GeometryPrefix<V>(ss: seq<Shape<V>>, j: nat, k: nat)
    requires j <= k <= |ss|
    ensures |GeometryVerticesUpTo(ss, j)| <= |GeometryVerticesUpTo(ss, k)|
    ensures GeometryVerticesUpTo(ss, k)[..|GeometryVerticesUpTo(ss, j)|] == GeometryVerticesUpTo(ss, j)
  {
    if j < k {
      GeometryPrefix(ss, j, k - 1);
      var shorter := GeometryVerticesUpTo(ss, k - 1);
      assert GeometryVerticesUpTo(ss, k) == shorter + ShapeVertices(ss[k - 1].primitives);
      assert GeometryVerticesUpTo(ss, k)[..|shorter|] == shorter;
    }
  }

  /**
   * A shape laid out at an offset that fits in 32 bits, with fewer than 2^32
   * triangulated vertices, records that offset and that count unwrapped.
   */
  lemma LaidOutShapeFields<V>(shape: Shape<V>, offset: nat)
    requires offset < 0x1_0000_0000 && |ShapeVertices(shape.primitives)| < 0x1_0000_0000
    ensures LaidOutShape(shape, offset).firstVertexOffset as int == offset
    ensures LaidOutShape(shape, offset).vertexCount as int == |ShapeVertices(shape.primitives)|
  {
  }

  /**
   * While the model's index count fits in 32 bits, shape s's recorded range
   * starts after the vertices of the shapes before it and holds exactly its
   * own triangulated vertices.
   */
  lemma LaidOutRange<V>(ss: seq<Shape<V>>, base: nat, s: nat)
    requires s < |ss| && base + |GeometryVertices(ss)| < 0x1_0000_0000
    ensures LaidOutAt(ss, base, s).firstVertexOffset == base + |GeometryVerticesUpTo(ss, s)|
    ensures LaidOutAt(ss, base, s).vertexCount == |ShapeVertices(ss[s].primitives)|
  {
    GeometryPrefix(ss, s + 1, |ss|);
    LaidOutShapeFields(ss[s], base + |GeometryVerticesUpTo(ss, s)|);
  }

  /** The recorded fields of a laid-out shape, wrapped to 32 bits. */
  lemma LaidOutShapeWrapped<V>(shape: Shape<V>, offset: nat)
    ensures LaidOutShape(shape, offset).firstVertexOffset == Wrap32(offset)
    ensures LaidOutShape(shape, offset).vertexCount == Wrap32(|ShapeVertices(shape.primitives)|)
  {
  }

  /** Adding wrapped values and wrapping again is wrapping the sum. */
  lemma WrapSum(a: nat, b: nat)
    ensures Wrap32(Wrap32(a) + Wrap32(b)) == Wrap32(a + b)
  {
    var m := 0x1_0000_0000;
    assert a == (a / m) * m + Wrap32(a);
    assert b == (b / m) * m + Wrap32(b);
    ModShift(a + b, a / m + b / m);
  }

  /**
   * The recorded ranges are contiguous and in shape order, in uint32
   * arithmetic: the first shape starts at the base, each shape starts where
   * the one before it ends, and the last ends at the base plus every vertex.
   */
  lemma LaidOutContiguous<V>(ss: seq<Shape<V>>, base: nat, s: nat)
    requires s < |ss|
    ensures s == 0 ==> LaidOutAt(ss, base, s).firstVertexOffset == Wrap32(base)
    ensures var here := LaidOutAt(ss, base, s);
      s + 1 < |ss| ==> LaidOutAt(ss, base, s + 1).firstVertexOffset == Wrap32(here.firstVertexOffset + here.vertexCount)
    ensures var here := LaidOutAt(ss, base, s);
      s + 1 == |ss| ==> Wrap32(here.firstVertexOffset + here.vertexCount) == Wrap32(base + |GeometryVertices(ss)|)
  {
    var before, own := |GeometryVerticesUpTo(ss, s)|, |ShapeVertices(ss[s].primitives)|;
    assert |GeometryVerticesUpTo(ss, s + 1)| == before + own;
    LaidOutShapeWrapped(ss[s], base + before);
    WrapSum(base + before, own);
    if s + 1 < |ss| {
      LaidOutShapeWrapped(ss[s + 1], base + before + own);
    }
  }


  /**
   * Laid out into an empty index list with at most 65536 vertices (so that no
   * 16-bit index wraps), the k-th entry of shape s's range (which starts at
   * the number of vertices of the shapes before it) is the position in the
   * model vertex list of shape s's k-th triangulated vertex.
   */
  lemma ShapeIndicesSelectItsVertices<V>(ss: seq<Shape<V>>, s: nat, k: nat)
    requires s < |ss| && k < |ShapeVertices(ss[s].primitives)|
    requires |GeometryVertices(ss)| <= 0x1_0000
    ensures var all, indices := GeometryVertices(ss), RunningIndices(|GeometryVertices(ss)|);
      var position := |GeometryVerticesUpTo(ss, s)| + k;
      position < |indices| && indices[position] as int == position &&
      all[indices[position]] == ShapeVertices(ss[s].primitives)[k]
  {
    GeometryVertexOfShape(ss, s, k);
    var position := |GeometryVerticesUpTo(ss, s)| + k;
    assert RunningIndices(|GeometryVertices(ss)|)[position] as int == position;
  }

  /** Shape s's k-th triangulated vertex sits in the model vertex list right after the vertices of the shapes before it. */
  lemma GeometryVertexOfShape<V>(ss: seq<Shape<V>>, s: nat, k: nat)
    requires s < |ss| && k < |ShapeVertices(ss[s].primitives)|
    ensures |GeometryVerticesUpTo(ss, s)| + k < |GeometryVertices(ss)|
    ensures GeometryVertices(ss)[|GeometryVerticesUpTo(ss, s)| + k] == ShapeVertices(ss[s].primitives)[k]
  {
    GeometryPrefix(ss, s + 1, |ss|);
    var before, upTo := GeometryVerticesUpTo(ss, s), GeometryVerticesUpTo(ss, s + 1);
    assert upTo == before + ShapeVertices(ss[s].primitives);
    assert GeometryVertices(ss)[|before| + k] == upTo[|before| + k];
  }

  /** Up to 65536 vertices, the index list a running counter writes is 0, 1, 2, ...: every entry distinct. */
  lemma RunningIndicesAreExact(n: nat)
    requires n <= 0x1_0000
    ensures forall k :: 0 <= k < n ==> RunningIndices(n)[k] as int == k
    ensures forall j, k :: 0 <= j < k < n ==> RunningIndices(n)[j] != RunningIndices(n)[k]
  {
  }

  /** Beyond 65536 vertices the 16-bit index list wraps: entry k + 65536 repeats entry k, so vertex k + 65536 is never selected. */
  lemma RunningIndicesWrap(n: nat)
    ensures forall k :: 0 <= k && k + 0x1_0000 < n ==> RunningIndices(n)[k + 0x1_0000] == RunningIndices(n)[k]
    ensures forall k :: 0 <= k < n ==> RunningIndices(n)[k] as int < 0x1_0000
  {
  }

  /** The first n shapes of `shapes` are shapes of `ss` laid out from `base`. */
  ghost predicate LaidOutPrefix<V>(shapes: seq<Shape<V>>, ss: seq<Shape<V>>, base: nat, n: nat)
    requires n <= |shapes| && n <= |ss|
  {
    n == 0 || (LaidOutPrefix(shapes, ss, base, n - 1) && shapes[n - 1] == LaidOutAt(ss, base, n - 1))
  }

  /** Replacing a shape at or after position n leaves the first n as they were. */
  lemma {:induction false} LaidOutPrefixUpdate<V>(shapes: seq<Shape<V>>, ss: seq<Shape<V>>, base: nat, n: nat, j: nat, x: Shape<V>)
    requires n <= j < |shapes| && n <= |ss|
    requires LaidOutPrefix(shapes, ss, base, n)
    ensures LaidOutPrefix(shapes[j := x], ss, base, n)
  {
    if n > 0 {
      LaidOutPrefixUpdate(shapes, ss, base, n - 1, j, x);
    }
  }

  /** A laid-out prefix, stated shape by shape. */
  lemma {:induction false} LaidOutPrefixAll<V>(shapes: seq<Shape<V>>, ss: seq<Shape<V>>, base: nat, n: nat)
    requires n <= |shapes| && n <= |ss|
    requires LaidOutPrefix(shapes, ss, base, n)
    ensures forall s :: 0 <= s < n ==> shapes[s] == LaidOutAt(ss, base, s)
  {
    if n > 0 {
      LaidOutPrefixAll(shapes, ss, base, n - 1);
    }
  }

  /** GXGeometry: the model's shapes and the vertex and index lists built from them. */
  class Geometry<V(==)> {
    var shapes: seq<Shape<V>>
    var modelVertices: seq<V>
    var modelIndices: seq<u16>

    constructor ()
      ensures shapes == [] && modelVertices == [] && modelIndices == []
    {
      shapes := [];
      modelVertices := [];
      modelIndices := [];
    }

    /**
     * GXGeometry::CreateVertexArray: triangulates every primitive in place and
     * appends its vertices to the model vertex list, each with the next value
     * of a running counter in the model index list; each shape records where
     * its indices start and how many there are.
     */
    method CreateVertexArray()
      requires GeometryTriangulable(shapes)
      modifies this
      ensures |shapes| == |old(shapes)|
      ensures forall s :: 0 <= s < |shapes| ==> shapes[s] == LaidOutAt(old(shapes), |old(modelIndices)|, s)
      ensures modelVertices == old(modelVertices) + GeometryVertices(old(shapes))
      ensures modelIndices == old(modelIndices) + RunningIndices(|GeometryVertices(old(shapes))|)
    {
      ghost var before, base := shapes, |modelIndices|;
      var index: nat := 0;
      var si := 0;
      while si < |shapes|
        invariant 0 <= si <= |shapes| == |before|
        invariant LaidOutPrefix(shapes, before, base, si)
        invariant forall s :: si <= s < |shapes| ==> shapes[s] == before[s]
        invariant index == |GeometryVerticesUpTo(before, si)|
        invariant modelVertices == old(modelVertices) + GeometryVerticesUpTo(before, si)
        invariant modelIndices == old(modelIndices) + RunningIndices(index)
      {
        var shape, start := shapes[si], index;
        shape, index := LayOutShape(shape, index);
        AppendAssoc(old(modelVertices), GeometryVerticesUpTo(before, si), ShapeVertices(before[si].primitives));
        assert shape == LaidOutAt(before, base, si);
        CounterAppend(0, start, index);
        AppendAssoc(old(modelIndices), RunningIndices(start), CounterFrom(start, index - start));
        LaidOutPrefixUpdate(shapes, before, base, si, si, shape);
        shapes := shapes[si := shape];
        si := si + 1;
      }
      LaidOutPrefixAll(shapes, before, base, si);
    }

    /**
     * The body of CreateVertexArray's loop for one shape: the shape's first
     * index position, its primitives triangulated and appended, its count.
     */
    method LayOutShape(shape: Shape<V>, index: nat) returns (laid: Shape<V>, next: nat)
      requires ShapeTriangulable(shape.primitives)
      modifies this`modelVertices, this`modelIndices
      ensures laid == LaidOutShape(shape, |old(modelIndices)|)
      ensures next == index + |ShapeVertices(shape.primitives)|
      ensures modelVertices == old(modelVertices) + ShapeVertices(shape.primitives)
      ensures modelIndices == old(modelIndices) + CounterFrom(index, next - index)
    {
      var firstVertexOffset := Wrap32(|modelIndices|);
      var primitives;
      primitives, next := LayOutPrimitives(shape.primitives, index);
      var vertexCount := Wrap32(Wrap32(|modelIndices|) - firstVertexOffset);
      WrapDifference(|old(modelIndices)|, next - index);
      laid := shape.(primitives := primitives, firstVertexOffset := firstVertexOffset, vertexCount := vertexCount);
    }

    /** The loop over a shape's primitives, in order. */
    method LayOutPrimitives(ps: seq<PrimitiveValue<V>>, index: nat) returns (triangulated: seq<PrimitiveValue<V>>, next: nat)
      requires ShapeTriangulable(ps)
      modifies this`modelVertices, this`modelIndices
      ensures triangulated == TriangulatedShape(ps)
      ensures next == index + |ShapeVertices(ps)|
      ensures modelVertices == old(modelVertices) + ShapeVertices(ps)
      ensures modelIndices == old(modelIndices) + CounterFrom(index, next - index)
    {
      triangulated := ps;
      next := index;
      var pj := 0;
      while pj < |triangulated|
        invariant 0 <= pj <= |triangulated| == |ps|
        invariant forall j :: 0 <= j < pj ==> triangulated[j] == TriangulatedValue(ps[j])
        invariant forall j :: pj <= j < |triangulated| ==> triangulated[j] == ps[j]
        invariant next == index + |Flatten(triangulated, pj)|
        invariant modelVertices == old(modelVertices) + Flatten(triangulated, pj)
        invariant modelIndices == old(modelIndices) + CounterFrom(index, next - index)
      {
        var start := next;
        var prim;
        prim, next := LayOutPrimitive(triangulated[pj], next);
        AppendAssoc(old(modelVertices), Flatten(triangulated, pj), prim.vertices);
        FlattenUpdate(triangulated, pj, pj, prim);
        CounterAppend(index, start, next);
        AppendAssoc(old(modelIndices), CounterFrom(index, start - index), CounterFrom(start, next - start));
        triangulated := triangulated[pj := prim];
        pj := pj + 1;
      }
      assert triangulated == TriangulatedShape(ps);
    }

    /**
     * The body of CreateVertexArray's loop for one primitive: triangulate it
     * where it stands, then append every vertex with the next counter value.
     */
    method LayOutPrimitive(p: PrimitiveValue<V>, index: nat) returns (triangulated: PrimitiveValue<V>, next: nat)
      requires Triangulable(p.kind, p.vertices)
      modifies this`modelVertices, this`modelIndices
      ensures triangulated == TriangulatedValue(p)
      ensures next == index + |triangulated.vertices|
      ensures modelVertices == old(modelVertices) + triangulated.vertices
      ensures modelIndices == old(modelIndices) + CounterFrom(index, next - index)
    {
      var prim := new Primitive();
      prim.primType, prim.vertices := p.kind, p.vertices;
      prim.TriangulatePrimitive();
      triangulated := prim.Value();
      var vertices := prim.vertices;
      next := index;
      var k := 0;
      while k < |vertices|
        invariant 0 <= k <= |vertices| && next == index + k
        invariant modelVertices == old(modelVertices) + vertices[..k]
        invariant modelIndices == old(modelIndices) + CounterFrom(index, k)
      {
        assert vertices[..k + 1] == vertices[..k] + [vertices[k]];
        modelVertices := modelVertices + [vertices[k]];
        modelIndices := modelIndices + [(next % 0x1_0000) as u16];
        assert CounterFrom(index, k + 1) == CounterFrom(index, k) + [(next % 0x1_0000) as u16];
        next := next + 1;
        k := k + 1;
      }
      assert vertices[..k] == vertices;
    }
  }
}
