/**
 * Collision BSP records, the provider of their six tables, and point localisation:
 * the bounded walk down the 3D node tree that finds the leaf holding a point.
 */
module CollisionBSP {
  import opened Wrappers
  import opened MachineInts
  import opened CollisionBSPIndex

  /** Every way a BSP can be found malformed; each names the offending table index. */
  datatype CollisionBSPError =
    | BSP3DNodeLoop(index: usize)
    | Missing3DNode(index: usize)
    | Missing2DNode(index: usize)
    | Missing2DNodeReference(index: usize)
    | BadLeaf(index: usize)
    | Bad2DReference(index: usize)
    | MissingPlane(index: usize)
    | MissingLeaf(index: usize)
    | MissingSurface(index: usize)

  datatype CollisionBSP3DNode = CollisionBSP3DNode(
    frontChild: CollisionBSP3DNodeIndex,
    backChild: CollisionBSP3DNodeIndex,
    planeIndex: usize)

  datatype CollisionBSPLeaf = CollisionBSPLeaf(
    bsp2DNodeReferenceStart: usize,
    bsp2DNodeReferenceCount: usize)

  datatype BSP2DNodeReference = BSP2DNodeReference(plane: usize, node: CollisionBSP2DNodeIndex)

  datatype CollisionBSP2DNode = CollisionBSP2DNode(
    leftChild: CollisionBSP2DNodeIndex,
    rightChild: CollisionBSP2DNodeIndex)

  datatype CollisionBSPSurface = CollisionBSPSurface(plane: usize)

  /**
   * What an implementer of the BSP functions supplies: a lookup and a count for each of
   * the six tables.  Nothing ties a lookup to its count.  `P` is the 3D plane record,
   * whose geometry is outside this model.
   */
  datatype CollisionBSPFunctions<P> = CollisionBSPFunctions(
    get3DNode: usize -> Option<CollisionBSP3DNode>,
    node3DCount: usize,
    getPlane: usize -> Option<P>,
    planeCount: usize,
    getLeaf: usize -> Option<CollisionBSPLeaf>,
    leafCount: usize,
    get2DNodeReference: usize -> Option<BSP2DNodeReference>,
    node2DReferenceCount: usize,
    get2DNode: usize -> Option<CollisionBSP2DNode>,
    node2DCount: usize,
    getSurface: usize -> Option<CollisionBSPSurface>,
    surfaceCount: usize)

  /** The provider's 3D node lookup answers only below its count. */
  ghost predicate NodeLookupsWithinCount<P>(bsp: CollisionBSPFunctions<P>)
  {
    forall i: usize :: bsp.get3DNode(i).Some? ==> i < bsp.node3DCount
  }

  /** `get_3d_node_count().max(1)`: how many nodes the walk may visit, and the node sweep's end. */
  function NodeBudget<P>(bsp: CollisionBSPFunctions<P>): (n: usize)
    ensures 1 <= n && bsp.node3DCount <= n
    ensures bsp.node3DCount > 0 ==> n == bsp.node3DCount
    ensures bsp.node3DCount == 0 ==> n == 1
  {
    if bsp.node3DCount > 1 then bsp.node3DCount else 1
  }

  /**
   * An error is genuine when the table entry it names really is absent (or, for the two
   * "bad" errors, really is malformed).  A loop cannot be checked locally.
   */
  ghost predicate Genuine<P>(bsp: CollisionBSPFunctions<P>, e: CollisionBSPError)
  {
    match e
    case BSP3DNodeLoop(_) => true
    case Missing3DNode(i) => bsp.get3DNode(i).None?
    case Missing2DNode(i) => bsp.get2DNode(i).None?
    case Missing2DNodeReference(i) => bsp.get2DNodeReference(i).None?
    case BadLeaf(i) =>
      && bsp.getLeaf(i).Some?
      && bsp.getLeaf(i).value.bsp2DNodeReferenceStart + bsp.getLeaf(i).value.bsp2DNodeReferenceCount >= USIZE_LIMIT
    case Bad2DReference(i) =>
      && bsp.get2DNodeReference(i).Some?
      && bsp.get2DNodeReference(i).value.node.AsTuple().0 == CollisionBSP2DNodeIndexType.Surface
    case MissingPlane(i) => bsp.getPlane(i).None?
    case MissingLeaf(i) => bsp.getLeaf(i).None?
    case MissingSurface(i) => bsp.getSurface(i).None?
  }

  /**
   * The walk from 3D node `index` with `steps` node lookups left.  `front` is the query
   * point's half-space test against a plane: `distance_to_point(point) >= 0.0`.
   */
  function Walk<P>(bsp: CollisionBSPFunctions<P>, front: P -> bool, index: usize, steps: nat)
    : (r: Result<Option<usize>, CollisionBSPError>)
    ensures r.Err? ==> r.error.BSP3DNodeLoop? || r.error.Missing3DNode? || r.error.MissingPlane?
    ensures r.Ok? && r.value.Some? ==> r.value.value < INDEX_LIMIT - 1
    decreases steps
  {
    if steps == 0 then Err(BSP3DNodeLoop(index))
    else
      match bsp.get3DNode(index)
      case None => Err(Missing3DNode(index))
      case Some(node) =>
        match bsp.getPlane(node.planeIndex)
        case None => Err(MissingPlane(node.planeIndex))
        case Some(plane) =>
          var next := if front(plane) then node.frontChild else node.backChild;
          match next.AsTuple()
          case Some((Node, nextIndex)) => Walk(bsp, front, nextIndex, steps - 1)
          case Some((Leaf, leaf)) => Ok(Some(leaf))
          case None => Ok(None)
  }

  /** The node the walk moves on to from `index`, if it moves on to a node at all. */
  function NextNode<P>(bsp: CollisionBSPFunctions<P>, front: P -> bool, index: usize): Option<usize>
  {
    match bsp.get3DNode(index)
    case None => None
    case Some(node) =>
      match bsp.getPlane(node.planeIndex)
      case None => None
      case Some(plane) =>
        var next := if front(plane) then node.frontChild else node.backChild;
        match next.AsTuple()
        case Some((Node, nextIndex)) => Some(nextIndex)
        case _ => None
  }

  /** The 3D node indices the walk looks up, in order. */
  function Visited<P>(bsp: CollisionBSPFunctions<P>, front: P -> bool, index: usize, steps: nat): seq<usize>
    decreases steps
  {
    if steps == 0 then []
    else
      match NextNode(bsp, front, index)
      case Some(n) => [index] + Visited(bsp, front, n, steps - 1)
      case None => [index]
  }

  /** `leaf_index_for_point`: the leaf holding the point, `None` outside the BSP, or why the BSP is malformed. */
  method LeafIndexForPoint<P>(bsp: CollisionBSPFunctions<P>, front: P -> bool)
    returns (r: Result<Option<usize>, CollisionBSPError>)
    ensures r == Walk(bsp, front, 0, NodeBudget(bsp))
  {
    var index: usize := 0;
    var count := bsp.node3DCount;
    var budget := if count > 1 then count else 1;
    for i := 0 to budget
      invariant Walk(bsp, front, index, budget - i) == Walk(bsp, front, 0, budget)
    {
      var node := bsp.get3DNode(index);
      if node.None? {
        return Err(Missing3DNode(index));
      }
      var plane := bsp.getPlane(node.value.planeIndex);
      if plane.None? {
        return Err(MissingPlane(node.value.planeIndex));
      }
      var next := if front(plane.value) then node.value.frontChild else node.value.backChild;
      match next.AsTuple() {
        case Some((Node, nextIndex)) =>
          index := nextIndex;
        case Some((Leaf, leaf)) =>
          return Ok(Some(leaf));
        case None =>
          return Ok(None);
      }
    }
    return Err(BSP3DNodeLoop(index));
  }

  /** `point_inside_bsp`: whether the walk ends in a leaf, passing its errors through unchanged. */
  method PointInsideBsp<P>(bsp: CollisionBSPFunctions<P>, front: P -> bool)
    returns (r: Result<bool, CollisionBSPError>)
    ensures r == Ok(true) <==> Walk(bsp, front, 0, NodeBudget(bsp)).Ok? && Walk(bsp, front, 0, NodeBudget(bsp)).value.Some?
    ensures r == Ok(false) <==> Walk(bsp, front, 0, NodeBudget(bsp)) == Ok(None)
    ensures r.Err? <==> Walk(bsp, front, 0, NodeBudget(bsp)).Err?
    ensures r.Err? ==> r.error == Walk(bsp, front, 0, NodeBudget(bsp)).error
  {
    var leaf := LeafIndexForPoint(bsp, front);
    match leaf {
      case Ok(l) => return Ok(l.Some?);
      case Err(e) => return Err(e);
    }
  }

  /** The walk reports only genuine errors: a missing node or plane really is missing. */
  lemma {:induction false} WalkErrorsGenuine<P>(bsp: CollisionBSPFunctions<P>, front: P -> bool, index: usize, steps: nat)
    ensures Walk(bsp, front, index, steps).Err? ==>
      var e := Walk(bsp, front, index, steps).error;
      && (e.BSP3DNodeLoop? || e.Missing3DNode? || e.MissingPlane?)
      && Genuine(bsp, e)
    decreases steps
  {
    if steps > 0 && NextNode(bsp, front, index).Some? {
      WalkErrorsGenuine(bsp, front, NextNode(bsp, front, index).value, steps - 1);
    }
  }

  /** An answer the walk reaches with some budget stays the same under any larger budget. */
  lemma {:induction false} WalkBudgetMonotone<P>(bsp: CollisionBSPFunctions<P>, front: P -> bool, index: usize, steps: nat, more: nat)
    requires steps <= more
    requires !Walk(bsp, front, index, steps).Err? || !Walk(bsp, front, index, steps).error.BSP3DNodeLoop?
    ensures Walk(bsp, front, index, more) == Walk(bsp, front, index, steps)
    decreases steps
  {
    if steps > 0 && NextNode(bsp, front, index).Some? {
      WalkBudgetMonotone(bsp, front, NextNode(bsp, front, index).value, steps - 1, more - 1);
    }
  }

  /** A walk that exhausts its budget looked up exactly `steps` nodes, each of which resolved. */
  lemma {:induction false} LoopVisitsResolvedNodes<P>(bsp: CollisionBSPFunctions<P>, front: P -> bool, index: usize, steps: nat, last: usize)
    requires Walk(bsp, front, index, steps) == Err(BSP3DNodeLoop(last))
    ensures |Visited(bsp, front, index, steps)| == steps
    ensures forall k :: 0 <= k < steps ==> bsp.get3DNode(Visited(bsp, front, index, steps)[k]).Some?
    ensures steps == 0 ==> last == index
    ensures steps > 0 ==> NextNode(bsp, front, Visited(bsp, front, index, steps)[steps - 1]) == Some(last)
    decreases steps
  {
    if steps > 0 {
      var n := NextNode(bsp, front, index).value;
      LoopVisitsResolvedNodes(bsp, front, n, steps - 1, last);
    }
  }

  /**
   * Cycle detection: when the node lookup answers only below the count, a walk from
   * node 0 that runs out of budget has already visited, or is about to revisit, a node,
   * unless the node it stopped at does not exist.
   */
  lemma LoopRevisitsANode<P>(bsp: CollisionBSPFunctions<P>, front: P -> bool, last: usize)
    requires NodeLookupsWithinCount(bsp)
    requires Walk(bsp, front, 0, NodeBudget(bsp)) == Err(BSP3DNodeLoop(last))
    requires bsp.get3DNode(last).Some?
    ensures var path := Visited(bsp, front, 0, NodeBudget(bsp)) + [last];
      exists a, b :: 0 <= a < b < |path| && path[a] == path[b]
  {
    var n := NodeBudget(bsp);
    LoopVisitsResolvedNodes(bsp, front, 0, n, last);
    var path := Visited(bsp, front, 0, n) + [last];
    assert n == bsp.node3DCount;
    forall k | 0 <= k < |path| ensures 0 <= path[k] < n {
      if k < n {
        assert path[k] == Visited(bsp, front, 0, n)[k];
      }
    }
    Pigeonhole(path, n);
  }

  /** The walk of a node whose chosen child is itself never leaves it: `BSP3DNodeLoop` at that node. */
  lemma {:induction false} SelfLoopIsReported<P>(bsp: CollisionBSPFunctions<P>, front: P -> bool, index: usize, steps: nat)
    requires index < INDEX_LIMIT
    requires bsp.get3DNode(index).Some?
    requires var node := bsp.get3DNode(index).value;
      && bsp.getPlane(node.planeIndex).Some?
      && (if front(bsp.getPlane(node.planeIndex).value) then node.frontChild else node.backChild) == CollisionBSP3DNodeIndex(index)
    ensures Walk(bsp, front, index, steps) == Err(BSP3DNodeLoop(index))
    decreases steps
  {
    if steps > 0 {
      SelfLoopIsReported(bsp, front, index, steps - 1);
    }
  }

  /** A single node whose front child is leaf 0 and whose back child is null. */
  lemma SingleLeafBsp<P>(bsp: CollisionBSPFunctions<P>, front: P -> bool, plane: P)
    requires bsp.get3DNode(0) == Some(CollisionBSP3DNode(Pack3D(CollisionBSP3DNodeIndexType.Leaf, 0), CollisionBSP3DNodeIndex(NULL_3D_INDEX), 0))
    requires bsp.getPlane(0) == Some(plane)
    ensures Walk(bsp, front, 0, NodeBudget(bsp)) == if front(plane) then Ok(Some(0)) else Ok(None)
  {
  }

  /**
   * The walk does not look past its budget: a single node whose children both name node 1,
   * which does not exist, is reported as `BSP3DNodeLoop(1)`, not as `Missing3DNode(1)`.
   */
  lemma MissingNodeAtBudgetReportedAsLoop<P>(bsp: CollisionBSPFunctions<P>, front: P -> bool, plane: P)
    requires bsp.node3DCount == 1
    requires bsp.get3DNode(0) == Some(CollisionBSP3DNode(CollisionBSP3DNodeIndex(1), CollisionBSP3DNodeIndex(1), 0))
    requires bsp.getPlane(0) == Some(plane)
    requires bsp.get3DNode(1).None?
    ensures Walk(bsp, front, 0, NodeBudget(bsp)) == Err(BSP3DNodeLoop(1))
    ensures !Genuine(bsp, Missing3DNode(0)) && Genuine(bsp, Missing3DNode(1))
  {
  }

  /** A sequence longer than `n` of values below `n` repeats a value. */
  lemma Pigeonhole(s: seq<int>, n: nat)
    requires forall k :: 0 <= k < |s| ==> 0 <= s[k] < n
    requires |s| > n
    ensures exists a, b :: 0 <= a < b < |s| && s[a] == s[b]
  {
    if forall a, b :: 0 <= a < b < |s| ==> s[a] != s[b] {
      DistinctElementsCount(s);
      var elems := set k | 0 <= k < |s| :: s[k];
      assert elems <= Below(n);
      SubsetCount(elems, Below(n));
      assert false;
    }
  }

  lemma {:induction false} DistinctElementsCount(s: seq<int>)
    requires forall a, b :: 0 <= a < b < |s| ==> s[a] != s[b]
    ensures |set k | 0 <= k < |s| :: s[k]| == |s|
    decreases |s|
  {
    if |s| > 0 {
      var init := s[..|s| - 1];
      DistinctElementsCount(init);
      var before := set k | 0 <= k < |init| :: init[k];
      var after := set k | 0 <= k < |s| :: s[k];
      assert after == before + {s[|s| - 1]};
      assert s[|s| - 1] !in before;
    }
  }

  /** The integers 0 to n - 1, as a set of n elements. */
  function Below(n: nat): (r: set<int>)
    ensures forall x :: x in r <==> 0 <= x < n
    ensures |r| == n
    decreases n
  {
    if n == 0 then {} else Below(n - 1) + {n - 1}
  }

  lemma {:induction false} SubsetCount<T>(a: set<T>, b: set<T>)
    requires a <= b
    ensures |a| <= |b|
    decreases b
  {
    if b != {} {
      var x :| x in b;
      SubsetCount(a - {x}, b - {x});
    }
  }
}
