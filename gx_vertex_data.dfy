/**
 * Per-vertex data of the GX geometry pipeline: the fixed-width integers the
 * source uses, the attribute numbering, the attribute pools a model owns
 * (GXAttributeData), the fully resolved output vertex (ModernVertex) and the
 * index-indirected input vertex (GXVertex).
 */
module GXVertexData {

  /** uint16_t and uint32_t. */
  type u16 = x: int | 0 <= x < 0x1_0000
  type u32 = x: int | 0 <= x < 0x1_0000_0000

  /** UINT16_MAX, the "unset" value of every attribute slot. */
  const MaxU16: u16 := 0xFFFF

  /**
   * An attribute as the source casts it, `(uint32_t)EGXAttribute`.  The
   * enumeration itself is not part of this model; the ordinals below follow
   * the GX hardware numbering (position-matrix index first, then eight
   * texture-matrix indices, position, normal, two colours and eight texture
   * coordinates).  The proofs rely only on PositionMatrixIdx being the
   * lowest ordinal, the colour and texture-coordinate ordinals being
   * contiguous, Position, Normal, the colour range and the texture-coordinate
   * range being pairwise disjoint (the source's switch over them needs
   * distinct case labels), and all of them lying below AttributeMax.
   */
  type Attribute = u32

  const PositionMatrixIdx: Attribute := 0
  const Position: Attribute := 9
  const Normal: Attribute := 10
  const Color0: Attribute := 11
  const Color1: Attribute := 12
  const TexCoord0: Attribute := 13
  const TexCoord7: Attribute := 20
  const AttributeMax: Attribute := 21

  /** Number of colour pools and of texture-coordinate pools. */
  const ColorChannels: nat := 2
  const TexCoordChannels: nat := 8

  /** The range GetIndex and SetIndex accept. */
  predicate IsSlot(attribute: Attribute) {
    PositionMatrixIdx <= attribute < AttributeMax
  }

  predicate IsColor(attribute: Attribute) {
    Color0 <= attribute <= Color1
  }

  predicate IsTexCoord(attribute: Attribute) {
    TexCoord0 <= attribute <= TexCoord7
  }

  /** The value of a GXVertex: one 16-bit index per attribute slot. */
  type IndexTuple = s: seq<u16> | |s| == AttributeMax as int
    witness seq(AttributeMax as int, _ => MaxU16)

  /**
   * glm::vec3 and glm::vec4.  Components are only ever copied by this core,
   * never computed with, so they are modelled as reals.
   */
  datatype Vec3 = Vec3(x: real, y: real, z: real)
  datatype Vec4 = Vec4(x: real, y: real, z: real, w: real)

  const Zero3: Vec3 := Vec3(0.0, 0.0, 0.0)
  const Zero4: Vec4 := Vec4(0.0, 0.0, 0.0, 0.0)

  /** GXAttributeData: the value pools a model's vertex indices point into. */
  datatype AttributePools = AttributePools(
    positions: seq<Vec4>,
    normals: seq<Vec3>,
    colors: seq<seq<Vec4>>,
    texCoords: seq<seq<Vec3>>)

  /** The source holds exactly two colour pools and eight texture-coordinate pools. */
  type AttributeData = d: AttributePools
    | |d.colors| == ColorChannels && |d.texCoords| == TexCoordChannels
    witness AttributePools([], [], [[], []], [[], [], [], [], [], [], [], []])

  /** The position pool is populated. */
  predicate HasPositions(d: AttributeData)
    ensures HasPositions(d) <==> d.positions != []
  {
    |d.positions| != 0
  }

  /** The normal pool is populated. */
  predicate HasNormals(d: AttributeData)
    ensures HasNormals(d) <==> d.normals != []
  {
    |d.normals| != 0
  }

  /** Colour channel `index` exists and is populated; channels from 2 on never are. */
  predicate HasColors(d: AttributeData, index: u32)
    ensures HasColors(d, index) ==> index < ColorChannels
  {
    index < ColorChannels && |d.colors[index]| != 0
  }

  /** Texture-coordinate channel `index` exists and is populated; channels from 8 on never are. */
  predicate HasTexCoords(d: AttributeData, index: u32)
    ensures HasTexCoords(d, index) ==> index < TexCoordChannels
  {
    index < TexCoordChannels && |d.texCoords[index]| != 0
  }

  /** ModernVertex: one fully resolved vertex. */
  datatype ModernVertex = ModernVertex(
    position: Vec4,
    normal: Vec3,
    colors: seq<Vec4>,
    texCoords: seq<Vec3>)

  /** The ModernVertex default constructor: every component zero. */
  function DefaultModernVertex(): (r: ModernVertex)
    ensures r.position == Zero4 && r.normal == Zero3
    ensures |r.colors| == ColorChannels && |r.texCoords| == TexCoordChannels
    ensures forall c :: 0 <= c < ColorChannels ==> r.colors[c] == Zero4
    ensures forall t :: 0 <= t < TexCoordChannels ==> r.texCoords[t] == Zero3
  {
    ModernVertex(Zero4, Zero3, [Zero4, Zero4], [Zero3, Zero3, Zero3, Zero3, Zero3, Zero3, Zero3, Zero3])
  }

  /** GXVertex: a vertex of a primitive, as one pool index per attribute. */
  class GXVertex {
    const attributeIndices: array<u16>

    ghost predicate Valid()
      reads this
    {
      attributeIndices.Length == AttributeMax as int
    }

    /** The vertex's value: its whole slot array. */
    function Slots(): IndexTuple
      reads this, attributeIndices
      requires Valid()
    {
      attributeIndices[..]
    }

    /** Every slot starts out unset. */
    constructor ()
      ensures Valid() && fresh(attributeIndices)
      ensures forall a :: 0 <= a < AttributeMax ==> Slots()[a] == MaxU16
    {
      attributeIndices := new u16[AttributeMax];
      new;
      var i := 0;
      while i < AttributeMax
        invariant 0 <= i <= AttributeMax
        invariant forall a :: 0 <= a < i ==> attributeIndices[a] == MaxU16
        modifies attributeIndices
      {
        attributeIndices[i] := MaxU16;
        i := i + 1;
      }
    }

    /** The slot of an attribute in range; UINT16_MAX for any other attribute. */
    function GetIndex(attribute: Attribute): (r: u16)
      reads this, attributeIndices
      requires Valid()
      ensures IsSlot(attribute) ==> r == Slots()[attribute]
      ensures !IsSlot(attribute) ==> r == MaxU16
    {
      if PositionMatrixIdx <= attribute && attribute < AttributeMax then attributeIndices[attribute] else MaxU16
    }

    /** Writes the slot of an attribute in range; ignores any other attribute. */
    method SetIndex(attribute: Attribute, value: u16)
      requires Valid()
      modifies attributeIndices
      ensures Valid()
      ensures IsSlot(attribute) ==> Slots() == old(Slots())[attribute := value]
      ensures !IsSlot(attribute) ==> Slots() == old(Slots())
      ensures IsSlot(attribute) ==> GetIndex(attribute) == value
      ensures forall a :: a != attribute ==> GetIndex(a) == old(GetIndex(a))
    {
      if PositionMatrixIdx <= attribute && attribute < AttributeMax {
        attributeIndices[attribute] := value;
      }
    }

    /** operator==: every slot equal, unset slots included. */
    method Equals(b: GXVertex) returns (eq: bool)
      requires Valid() && b.Valid()
      ensures eq <==> Slots() == b.Slots()
      ensures eq <==> forall a :: 0 <= a < AttributeMax ==> GetIndex(a) == b.GetIndex(a)
    {
      var i := 0;
      while i < AttributeMax
        invariant 0 <= i <= AttributeMax
        invariant forall k :: 0 <= k < i ==> attributeIndices[k] == b.attributeIndices[k]
      {
        if attributeIndices[i] != b.attributeIndices[i] {
          assert GetIndex(i) != b.GetIndex(i);
          return false;
        }
        i := i + 1;
      }
      assert Slots() == b.Slots();
      return true;
    }

    /** operator!=: the negation of operator==. */
    method NotEquals(b: GXVertex) returns (ne: bool)
      requires Valid() && b.Valid()
      ensures ne <==> Slots() != b.Slots()
    {
      var eq := Equals(b);
      ne := !eq;
    }
  }

  /**
   * Vertex equality (slot-tuple equality, which Equals computes) is equality
   * slot by slot over all Attribute_Max slots, unset ones included.
   */
  lemma SlotEqualityIsSlotwise(u: IndexTuple, v: IndexTuple)
    ensures u == v <==> forall a :: 0 <= a < AttributeMax ==> u[a] == v[a]
  {
  }
}
