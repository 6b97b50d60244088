/**
 * The packed child references of a collision BSP.  A 3D node names its children with a
 * 32-bit value whose top bit tells a leaf from another 3D node, `0xFFFFFFFF` meaning
 * "no child"; a 2D node names its children the same way, the top bit telling a surface
 * from another 2D node, with no null value.
 *
 * A `u32` is an integer in [0, 2^32).  Masking with `0x7FFFFFFF` keeps the low 31 bits,
 * which for such a value is its remainder modulo 2^31, and the top bit is set exactly
 * when the value is at least 2^31.
 */
module CollisionBSPIndex {
  import opened Wrappers
  import opened MachineInts

  /** The 3D "no child" value. */
  const NULL_3D_INDEX: u32 := 0xFFFF_FFFF
  /** The number of table indices a packed reference can hold: the low 31 bits. */
  const INDEX_LIMIT: int := 0x8000_0000

  /** `x & 0x7FFFFFFF` for a 32-bit `x`. */
  function MaskIndex(x: u32): (r: u32)
    ensures r < INDEX_LIMIT
    ensures x < INDEX_LIMIT ==> r == x
    ensures x >= INDEX_LIMIT ==> r == x - INDEX_LIMIT
  {
    x % INDEX_LIMIT
  }

  datatype CollisionBSP3DNodeIndexType = Node | Leaf

  datatype CollisionBSP2DNodeIndexType = Node | Surface

  datatype CollisionBSP3DNodeIndex = CollisionBSP3DNodeIndex(raw: u32) {

    /** Splits the packed value into its kind and table index; `None` for the null value. */
    function AsTuple(): (r: Option<(CollisionBSP3DNodeIndexType, usize)>)
      ensures r.None? <==> raw == NULL_3D_INDEX
      ensures r.Some? ==> r.value.1 < INDEX_LIMIT
      ensures r.Some? ==> (r.value.0 == CollisionBSP3DNodeIndexType.Node <==> raw < INDEX_LIMIT)
      ensures r.Some? && r.value.0 == CollisionBSP3DNodeIndexType.Node ==> r.value.1 == raw
      ensures r.Some? && r.value.0 == CollisionBSP3DNodeIndexType.Leaf ==> r.value.1 == raw - INDEX_LIMIT
    {
      if raw == NULL_3D_INDEX then None
      else
        var index := MaskIndex(raw);
        var indexType := if index == raw then CollisionBSP3DNodeIndexType.Node else CollisionBSP3DNodeIndexType.Leaf;
        Some((indexType, index))
    }
  }

  datatype CollisionBSP2DNodeIndex = CollisionBSP2DNodeIndex(raw: u32) {

    /** Splits the packed value into its kind and table index; every value decodes. */
    function AsTuple(): (r: (CollisionBSP2DNodeIndexType, usize))
      ensures r.1 < INDEX_LIMIT
      ensures r.0 == CollisionBSP2DNodeIndexType.Node <==> raw < INDEX_LIMIT
      ensures r.0 == CollisionBSP2DNodeIndexType.Node ==> r.1 == raw
      ensures r.0 == CollisionBSP2DNodeIndexType.Surface ==> r.1 == raw - INDEX_LIMIT
    {
      var index := MaskIndex(raw);
      var indexType := if index == raw then CollisionBSP2DNodeIndexType.Node else CollisionBSP2DNodeIndexType.Surface;
      (indexType, index)
    }
  }

  /** Packs a kind and a table index into a 3D child reference: the inverse of `AsTuple`. */
  function Pack3D(kind: CollisionBSP3DNodeIndexType, index: usize): (r: CollisionBSP3DNodeIndex)
    requires index < INDEX_LIMIT
  {
    match kind
    case Node => CollisionBSP3DNodeIndex(index)
    case Leaf => CollisionBSP3DNodeIndex(index + INDEX_LIMIT)
  }

  /** Packs a kind and a table index into a 2D child reference: the inverse of `AsTuple`. */
  function Pack2D(kind: CollisionBSP2DNodeIndexType, index: usize): (r: CollisionBSP2DNodeIndex)
    requires index < INDEX_LIMIT
  {
    match kind
    case Node => CollisionBSP2DNodeIndex(index)
    case Surface => CollisionBSP2DNodeIndex(index + INDEX_LIMIT)
  }

  /**
   * Every node reference round-trips; every leaf reference does too, except leaf
   * `0x7FFFFFFF`, which packs to the null value.
   */
  lemma Decode3DOfPack(kind: CollisionBSP3DNodeIndexType, index: usize)
    requires index < INDEX_LIMIT
    ensures kind == CollisionBSP3DNodeIndexType.Node || index < INDEX_LIMIT - 1
            ==> Pack3D(kind, index).AsTuple() == Some((kind, index))
    ensures kind == CollisionBSP3DNodeIndexType.Leaf && index == INDEX_LIMIT - 1
            ==> Pack3D(kind, index).AsTuple() == None
  {
  }

  /** Packing what a non-null 3D reference decodes to gives back the same raw value. */
  lemma Pack3DOfDecode(a: CollisionBSP3DNodeIndex)
    requires a.AsTuple().Some?
    ensures Pack3D(a.AsTuple().value.0, a.AsTuple().value.1) == a
  {
  }

  /** Every 2D reference round-trips. */
  lemma Decode2DOfPack(kind: CollisionBSP2DNodeIndexType, index: usize)
    requires index < INDEX_LIMIT
    ensures Pack2D(kind, index).AsTuple() == (kind, index)
  {
  }

  /** ...and so does every raw 2D value. */
  lemma Pack2DOfDecode(a: CollisionBSP2DNodeIndex)
    ensures Pack2D(a.AsTuple().0, a.AsTuple().1) == a
  {
  }
}
