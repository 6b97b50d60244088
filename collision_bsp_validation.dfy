/**
 * `bounds_check`: six sweeps over the provider's tables, in a fixed order, each stopping
 * at the first entry that names something the provider cannot resolve.
 */
module CollisionBSPValidation {
  import opened Wrappers
  import opened MachineInts
  import opened CollisionBSPIndex
  import opened CollisionBSP

  /** The tables the validator sweeps. */
  datatype Table = Nodes3D | Planes | Leaves | Node2DReferences | Nodes2D | Surfaces

  /** The closure applied to both children of a 3D node: a node or leaf child must resolve. */
  function Check3DChild<P>(bsp: CollisionBSPFunctions<P>, a: CollisionBSP3DNodeIndex): Result<(), CollisionBSPError>
  {
    match a.AsTuple()
    case Some((Node, b)) => if bsp.get3DNode(b).Some? then Ok(()) else Err(Missing3DNode(b))
    case Some((Leaf, b)) => if bsp.getLeaf(b).Some? then Ok(()) else Err(MissingLeaf(b))
    case None => Ok(())
  }

  /** The closure applied to both children of a 2D node: a node or surface child must resolve. */
  function Check2DChild<P>(bsp: CollisionBSPFunctions<P>, a: CollisionBSP2DNodeIndex): Result<(), CollisionBSPError>
  {
    match a.AsTuple()
    case (Node, b) => if bsp.get2DNode(b).Some? then Ok(()) else Err(Missing2DNode(b))
    case (Surface, b) => if bsp.getSurface(b).Some? then Ok(()) else Err(MissingSurface(b))
  }

  /** One iteration of the 3D node sweep. */
  function Check3DNode<P>(bsp: CollisionBSPFunctions<P>, i: usize): Result<(), CollisionBSPError>
  {
    match bsp.get3DNode(i)
    case None => Err(Missing3DNode(i))
    case Some(node) =>
      if bsp.getPlane(node.planeIndex).None? then Err(MissingPlane(node.planeIndex))
      else if Check3DChild(bsp, node.frontChild).Err? then Check3DChild(bsp, node.frontChild)
      else Check3DChild(bsp, node.backChild)
  }

  /** One iteration of the plane sweep. */
  function CheckPlane<P>(bsp: CollisionBSPFunctions<P>, p: usize): Result<(), CollisionBSPError>
  {
    if bsp.getPlane(p).Some? then Ok(()) else Err(MissingPlane(p))
  }

  /** One iteration of the leaf sweep: the leaf, its range's overflow check, then the range. */
  function CheckLeaf<P>(bsp: CollisionBSPFunctions<P>, l: usize): Result<(), CollisionBSPError>
  {
    match bsp.getLeaf(l)
    case None => Err(MissingLeaf(l))
    case Some(leaf) =>
      var start := leaf.bsp2DNodeReferenceStart;
      var end := start + leaf.bsp2DNodeReferenceCount;
      if end >= USIZE_LIMIT then Err(BadLeaf(l))
      else MissingReferenceIn(bsp, start, end)
  }

  /** The inner loop of the leaf sweep: the first reference in `lo..hi` that does not resolve. */
  function MissingReferenceIn<P>(bsp: CollisionBSPFunctions<P>, lo: nat, hi: nat): Result<(), CollisionBSPError>
    requires hi <= USIZE_LIMIT
    decreases hi - lo
  {
    if hi <= lo then Ok(())
    else if bsp.get2DNodeReference(lo).None? then Err(Missing2DNodeReference(lo))
    else MissingReferenceIn(bsp, lo + 1, hi)
  }

  /** One iteration of the 2D node reference sweep; a reference may not enter at a surface. */
  function Check2DNodeReference<P>(bsp: CollisionBSPFunctions<P>, r: usize): Result<(), CollisionBSPError>
  {
    match bsp.get2DNodeReference(r)
    case None => Err(Missing2DNodeReference(r))
    case Some(reference) =>
      if bsp.getPlane(reference.plane).None? then Err(MissingPlane(reference.plane))
      else
        match reference.node.AsTuple()
        case (Node, n) => if bsp.get2DNode(n).Some? then Ok(()) else Err(Missing2DNode(n))
        case (Surface, _) => Err(Bad2DReference(r))
  }

  /** One iteration of the 2D node sweep. */
  function Check2DNode<P>(bsp: CollisionBSPFunctions<P>, n: usize): Result<(), CollisionBSPError>
  {
    match bsp.get2DNode(n)
    case None => Err(Missing2DNode(n))
    case Some(node) =>
      if Check2DChild(bsp, node.leftChild).Err? then Check2DChild(bsp, node.leftChild)
      else Check2DChild(bsp, node.rightChild)
  }

  /** One iteration of the surface sweep. */
  function CheckSurface<P>(bsp: CollisionBSPFunctions<P>, s: usize): Result<(), CollisionBSPError>
  {
    match bsp.getSurface(s)
    case None => Err(MissingSurface(s))
    case Some(surface) => if bsp.getPlane(surface.plane).Some? then Ok(()) else Err(MissingPlane(surface.plane))
  }

  /** What the validator does with entry `i` of table `t`. */
  function CheckEntry<P>(bsp: CollisionBSPFunctions<P>, t: Table, i: usize): Result<(), CollisionBSPError>
  {
    match t
    case Nodes3D => Check3DNode(bsp, i)
    case Planes => CheckPlane(bsp, i)
    case Leaves => CheckLeaf(bsp, i)
    case Node2DReferences => Check2DNodeReference(bsp, i)
    case Nodes2D => Check2DNode(bsp, i)
    case Surfaces => CheckSurface(bsp, i)
  }

  /** A sweep of table `t` over `lo..hi`: the error of its first failing entry, if any. */
  function FirstError<P>(bsp: CollisionBSPFunctions<P>, t: Table, lo: nat, hi: nat): Result<(), CollisionBSPError>
    requires hi <= USIZE_LIMIT
    decreases hi - lo
  {
    if hi <= lo then Ok(())
    else if CheckEntry(bsp, t, lo).Err? then CheckEntry(bsp, t, lo)
    else FirstError(bsp, t, lo + 1, hi)
  }

  /** Where each of the six sweeps of `bounds_check` ends (the leaf sweep is inclusive of the count). */
  function SweepEnd<P>(bsp: CollisionBSPFunctions<P>, t: Table): (n: nat)
    ensures n <= USIZE_LIMIT
  {
    match t
    case Nodes3D => NodeBudget(bsp)
    case Planes => bsp.planeCount
    case Leaves => bsp.leafCount + 1
    case Node2DReferences => bsp.node2DReferenceCount
    case Nodes2D => bsp.node2DCount
    case Surfaces => bsp.surfaceCount
  }

  function Sweep<P>(bsp: CollisionBSPFunctions<P>, t: Table): Result<(), CollisionBSPError>
  {
    FirstError(bsp, t, 0, SweepEnd(bsp, t))
  }

  /** Where a sweep comes in the order `bounds_check` runs them. */
  function Position(t: Table): nat
  {
    match t
    case Nodes3D => 0
    case Planes => 1
    case Leaves => 2
    case Node2DReferences => 3
    case Nodes2D => 4
    case Surfaces => 5
  }

  /** The result of `bounds_check`: the first failing sweep's error, else `Ok(())`. */
  function BoundsCheckResult<P>(bsp: CollisionBSPFunctions<P>): Result<(), CollisionBSPError>
  {
    if Sweep(bsp, Nodes3D).Err? then Sweep(bsp, Nodes3D)
    else if Sweep(bsp, Planes).Err? then Sweep(bsp, Planes)
    else if Sweep(bsp, Leaves).Err? then Sweep(bsp, Leaves)
    else if Sweep(bsp, Node2DReferences).Err? then Sweep(bsp, Node2DReferences)
    else if Sweep(bsp, Nodes2D).Err? then Sweep(bsp, Nodes2D)
    else Sweep(bsp, Surfaces)
  }

  // ---------------------------------------------------------------------------------
  // What a passing sweep means, stated without the error values.

  /** A 3D child reference that is not null names a node or leaf that exists. */
  ghost predicate Resolves3D<P>(bsp: CollisionBSPFunctions<P>, a: CollisionBSP3DNodeIndex)
  {
    match a.AsTuple()
    case None => true
    case Some((kind, b)) => if kind == CollisionBSP3DNodeIndexType.Node then bsp.get3DNode(b).Some? else bsp.getLeaf(b).Some?
  }

  /** A 2D child reference names a 2D node or surface that exists. */
  ghost predicate Resolves2D<P>(bsp: CollisionBSPFunctions<P>, a: CollisionBSP2DNodeIndex)
  {
    var (kind, b) := a.AsTuple();
    if kind == CollisionBSP2DNodeIndexType.Node then bsp.get2DNode(b).Some? else bsp.getSurface(b).Some?
  }

  /** Entry `i` of table `t` is sound: everything it references resolves. */
  ghost predicate EntrySound<P>(bsp: CollisionBSPFunctions<P>, t: Table, i: usize)
  {
    match t
    case Nodes3D =>
      && bsp.get3DNode(i).Some?
      && bsp.getPlane(bsp.get3DNode(i).value.planeIndex).Some?
      && Resolves3D(bsp, bsp.get3DNode(i).value.frontChild)
      && Resolves3D(bsp, bsp.get3DNode(i).value.backChild)
    case Planes => bsp.getPlane(i).Some?
    case Leaves =>
      && bsp.getLeaf(i).Some?
      && var leaf := bsp.getLeaf(i).value;
      && leaf.bsp2DNodeReferenceStart + leaf.bsp2DNodeReferenceCount < USIZE_LIMIT
      && forall r: usize :: leaf.bsp2DNodeReferenceStart <= r < leaf.bsp2DNodeReferenceStart + leaf.bsp2DNodeReferenceCount
           ==> bsp.get2DNodeReference(r).Some?
    case Node2DReferences =>
      && bsp.get2DNodeReference(i).Some?
      && var reference := bsp.get2DNodeReference(i).value;
      && bsp.getPlane(reference.plane).Some?
      && reference.node.AsTuple().0 == CollisionBSP2DNodeIndexType.Node
      && bsp.get2DNode(reference.node.AsTuple().1).Some?
    case Nodes2D =>
      && bsp.get2DNode(i).Some?
      && Resolves2D(bsp, bsp.get2DNode(i).value.leftChild)
      && Resolves2D(bsp, bsp.get2DNode(i).value.rightChild)
    case Surfaces =>
      && bsp.getSurface(i).Some?
      && bsp.getPlane(bsp.getSurface(i).value.plane).Some?
  }

  /** Every entry of every swept range is sound. */
  ghost predicate Sound<P>(bsp: CollisionBSPFunctions<P>)
  {
    forall t: Table, i: usize :: i < SweepEnd(bsp, t) ==> EntrySound(bsp, t, i)
  }

  // ---------------------------------------------------------------------------------
  // Sweeps.

  /** A sweep passes exactly when every entry of its range passes. */
  lemma {:induction false} FirstErrorOk<P>(bsp: CollisionBSPFunctions<P>, t: Table, lo: nat, hi: nat)
    requires hi <= USIZE_LIMIT
    ensures FirstError(bsp, t, lo, hi).Ok? <==> forall i: usize :: lo <= i < hi ==> CheckEntry(bsp, t, i).Ok?
    decreases hi - lo
  {
    if lo < hi {
      FirstErrorOk(bsp, t, lo + 1, hi);
    }
  }

  /** The inner loop passes exactly when every reference of the range resolves... */
  lemma {:induction false} MissingReferenceInOk<P>(bsp: CollisionBSPFunctions<P>, lo: nat, hi: nat)
    requires hi <= USIZE_LIMIT
    ensures MissingReferenceIn(bsp, lo, hi).Ok? <==> forall r: usize :: lo <= r < hi ==> bsp.get2DNodeReference(r).Some?
    decreases hi - lo
  {
    if lo < hi {
      MissingReferenceInOk(bsp, lo + 1, hi);
    }
  }

  /** ...and otherwise reports the first reference of the range that does not. */
  lemma {:induction false} MissingReferenceInIsFirst<P>(bsp: CollisionBSPFunctions<P>, lo: nat, hi: nat)
    requires hi <= USIZE_LIMIT
    requires MissingReferenceIn(bsp, lo, hi).Err?
    ensures var e := MissingReferenceIn(bsp, lo, hi).error;
      && e.Missing2DNodeReference? && lo <= e.index < hi && bsp.get2DNodeReference(e.index).None?
      && forall r: usize :: lo <= r < e.index ==> bsp.get2DNodeReference(r).Some?
    decreases hi - lo
  {
    if bsp.get2DNodeReference(lo).Some? {
      MissingReferenceInIsFirst(bsp, lo + 1, hi);
    }
  }

  /** A failing sweep reports the error of its first failing entry. */
  lemma {:induction false} FirstErrorIsFirstFailure<P>(bsp: CollisionBSPFunctions<P>, t: Table, lo: nat, hi: nat)
    requires hi <= USIZE_LIMIT
    requires FirstError(bsp, t, lo, hi).Err?
    ensures exists j: usize :: (lo <= j < hi && CheckEntry(bsp, t, j) == FirstError(bsp, t, lo, hi)
      && forall i: usize :: lo <= i < j ==> CheckEntry(bsp, t, i).Ok?)
    decreases hi - lo
  {
    if CheckEntry(bsp, t, lo).Ok? {
      FirstErrorIsFirstFailure(bsp, t, lo + 1, hi);
      var j: usize :| lo + 1 <= j < hi && CheckEntry(bsp, t, j) == FirstError(bsp, t, lo + 1, hi)
        && forall i: usize :: lo + 1 <= i < j ==> CheckEntry(bsp, t, i).Ok?;
      assert forall i: usize :: lo <= i < j ==> CheckEntry(bsp, t, i).Ok?;
    } else {
      assert CheckEntry(bsp, t, lo) == FirstError(bsp, t, lo, hi);
    }
  }

  /** An entry passes its check exactly when it is sound. */
  lemma CheckEntryOk<P>(bsp: CollisionBSPFunctions<P>, t: Table, i: usize)
    ensures CheckEntry(bsp, t, i).Ok? <==> EntrySound(bsp, t, i)
  {
    if t.Leaves? && bsp.getLeaf(i).Some? {
      var leaf := bsp.getLeaf(i).value;
      var end := leaf.bsp2DNodeReferenceStart + leaf.bsp2DNodeReferenceCount;
      if end < USIZE_LIMIT {
        MissingReferenceInOk(bsp, leaf.bsp2DNodeReferenceStart, end);
      }
    }
  }

  /** An entry's check fails only with a genuine error, and never with a loop. */
  lemma CheckEntryErrorGenuine<P>(bsp: CollisionBSPFunctions<P>, t: Table, i: usize)
    requires CheckEntry(bsp, t, i).Err?
    ensures Genuine(bsp, CheckEntry(bsp, t, i).error) && !CheckEntry(bsp, t, i).error.BSP3DNodeLoop?
  {
    if t.Leaves? && bsp.getLeaf(i).Some? {
      var leaf := bsp.getLeaf(i).value;
      var end := leaf.bsp2DNodeReferenceStart + leaf.bsp2DNodeReferenceCount;
      if end < USIZE_LIMIT {
        MissingReferenceInIsFirst(bsp, leaf.bsp2DNodeReferenceStart, end);
      }
    }
  }

  // ---------------------------------------------------------------------------------
  // bounds_check as a whole.

  /** `bounds_check` passes exactly when every reference in every swept range resolves. */
  lemma BoundsCheckOkIffSound<P>(bsp: CollisionBSPFunctions<P>)
    ensures BoundsCheckResult(bsp).Ok? <==> Sound(bsp)
  {
    forall t: Table
      ensures Sweep(bsp, t).Ok? <==> forall i: usize :: i < SweepEnd(bsp, t) ==> EntrySound(bsp, t, i)
    {
      FirstErrorOk(bsp, t, 0, SweepEnd(bsp, t));
      forall i: usize | i < SweepEnd(bsp, t)
        ensures CheckEntry(bsp, t, i).Ok? <==> EntrySound(bsp, t, i)
      {
        CheckEntryOk(bsp, t, i);
      }
    }
  }

  /** The sweep whose error a failing `bounds_check` reports: the first that fails. */
  function FailingSweep<P>(bsp: CollisionBSPFunctions<P>): (t: Table)
    requires BoundsCheckResult(bsp).Err?
    ensures Sweep(bsp, t) == BoundsCheckResult(bsp)
    ensures forall u: Table :: Position(u) < Position(t) ==> Sweep(bsp, u).Ok?
  {
    if Sweep(bsp, Nodes3D).Err? then Nodes3D
    else if Sweep(bsp, Planes).Err? then Planes
    else if Sweep(bsp, Leaves).Err? then Leaves
    else if Sweep(bsp, Node2DReferences).Err? then Node2DReferences
    else if Sweep(bsp, Nodes2D).Err? then Nodes2D
    else Surfaces
  }

  /** Every entry of every sweep that passes passes its check. */
  lemma PassingSweepsPass<P>(bsp: CollisionBSPFunctions<P>, t: Table)
    requires forall u: Table :: Position(u) < Position(t) ==> Sweep(bsp, u).Ok?
    ensures forall u: Table, i: usize :: Position(u) < Position(t) && i < SweepEnd(bsp, u) ==> CheckEntry(bsp, u, i).Ok?
  {
    forall u: Table | Position(u) < Position(t)
      ensures forall i: usize :: i < SweepEnd(bsp, u) ==> CheckEntry(bsp, u, i).Ok?
    {
      FirstErrorOk(bsp, u, 0, SweepEnd(bsp, u));
    }
  }

  /**
   * A failing `bounds_check` reports the error of the first failing entry of the first
   * failing sweep, and that error is genuine.
   */
  lemma BoundsCheckReportsFirstFailure<P>(bsp: CollisionBSPFunctions<P>)
    requires BoundsCheckResult(bsp).Err?
    ensures Genuine(bsp, BoundsCheckResult(bsp).error) && !BoundsCheckResult(bsp).error.BSP3DNodeLoop?
    ensures exists t: Table, j: usize :: (j < SweepEnd(bsp, t)
      && CheckEntry(bsp, t, j) == BoundsCheckResult(bsp)
      && (forall i: usize :: i < j ==> CheckEntry(bsp, t, i).Ok?)
      && (forall u: Table, i: usize :: Position(u) < Position(t) && i < SweepEnd(bsp, u) ==> CheckEntry(bsp, u, i).Ok?))
  {
    var t := FailingSweep(bsp);
    FirstErrorIsFirstFailure(bsp, t, 0, SweepEnd(bsp, t));
    var j: usize :| j < SweepEnd(bsp, t) && CheckEntry(bsp, t, j) == BoundsCheckResult(bsp)
      && forall i: usize :: i < j ==> CheckEntry(bsp, t, i).Ok?;
    CheckEntryErrorGenuine(bsp, t, j);
    PassingSweepsPass(bsp, t);
  }

  /**
   * The leaf sweep runs to `leaf_count` inclusive, so a provider with no leaf at index
   * `leaf_count` never passes; in particular no provider whose leaf lookup answers only
   * below its count does.
   */
  lemma LeafAtCountRequired<P>(bsp: CollisionBSPFunctions<P>)
    requires bsp.getLeaf(bsp.leafCount).None?
    ensures BoundsCheckResult(bsp).Err?
  {
    BoundsCheckOkIffSound(bsp);
    assert !EntrySound(bsp, Leaves, bsp.leafCount);
  }

  /**
   * A leaf whose references are 5, 6 and 7, in a reference table that resolves only
   * 0 through 5, fails at reference 6, the first missing one; it passes once 6 and 7 resolve.
   */
  lemma DanglingLeafReference<P>(bsp: CollisionBSPFunctions<P>, l: usize)
    requires bsp.getLeaf(l) == Some(CollisionBSPLeaf(5, 3))
    ensures (forall r: usize :: bsp.get2DNodeReference(r).Some? <==> r < 6) ==> CheckLeaf(bsp, l) == Err(Missing2DNodeReference(6))
    ensures (forall r: usize :: r < 8 ==> bsp.get2DNodeReference(r).Some?) ==> CheckLeaf(bsp, l) == Ok(())
  {
    assert CheckLeaf(bsp, l) == MissingReferenceIn(bsp, 5, 8);
    if forall r: usize :: bsp.get2DNodeReference(r).Some? <==> r < 6 {
      assert bsp.get2DNodeReference(5).Some? && bsp.get2DNodeReference(6).None?;
      assert MissingReferenceIn(bsp, 5, 8) == MissingReferenceIn(bsp, 6, 8);
    }
    if forall r: usize :: r < 8 ==> bsp.get2DNodeReference(r).Some? {
      assert bsp.get2DNodeReference(5).Some? && bsp.get2DNodeReference(6).Some? && bsp.get2DNodeReference(7).Some?;
      assert MissingReferenceIn(bsp, 5, 8) == MissingReferenceIn(bsp, 6, 8) == MissingReferenceIn(bsp, 7, 8)
        == MissingReferenceIn(bsp, 8, 8);
    }
  }

  // ---------------------------------------------------------------------------------
  // What a passing bounds_check buys the point walk.

  /** The point walk can end in only these ways once the BSP has been checked. */
  ghost predicate TrustedAnswer<P>(bsp: CollisionBSPFunctions<P>, r: Result<Option<usize>, CollisionBSPError>)
  {
    match r
    case Ok(None) => true
    case Ok(Some(leaf)) => bsp.getLeaf(leaf).Some?
    case Err(e) => e.BSP3DNodeLoop?
  }

  lemma {:induction false} CheckedWalkFrom<P>(bsp: CollisionBSPFunctions<P>, front: P -> bool, index: usize, steps: nat)
    requires Sound(bsp) && NodeLookupsWithinCount(bsp)
    requires index < NodeBudget(bsp)
    ensures TrustedAnswer(bsp, Walk(bsp, front, index, steps))
    decreases steps
  {
    assert EntrySound(bsp, Nodes3D, index);
    if steps > 0 {
      var next := NextNode(bsp, front, index);
      if next.Some? {
        CheckedWalkFrom(bsp, front, next.value, steps - 1);
      }
    }
  }

  /**
   * On a BSP that passes `bounds_check`, and whose 3D node lookup answers only below its
   * count, the point walk never reports a missing node or plane, and the leaf it finds exists.
   */
  lemma CheckedBspWalk<P>(bsp: CollisionBSPFunctions<P>, front: P -> bool)
    requires BoundsCheckResult(bsp).Ok?
    requires NodeLookupsWithinCount(bsp)
    ensures TrustedAnswer(bsp, Walk(bsp, front, 0, NodeBudget(bsp)))
  {
    BoundsCheckOkIffSound(bsp);
    CheckedWalkFrom(bsp, front, 0, NodeBudget(bsp));
  }

  // ---------------------------------------------------------------------------------
  // The sweeps as the loops of `bounds_check`.

  /** The 3D node sweep, over `0..max(count, 1)`. */
  method Check3DNodes<P>(bsp: CollisionBSPFunctions<P>) returns (r: Result<(), CollisionBSPError>)
    ensures r == Sweep(bsp, Nodes3D)
  {
    var count := bsp.node3DCount;
    var end := if count > 1 then count else 1;
    for n := 0 to end
      invariant FirstError(bsp, Nodes3D, n, end) == Sweep(bsp, Nodes3D)
    {
      var node := bsp.get3DNode(n);
      if node.None? {
        return Err(Missing3DNode(n));
      }
      if bsp.getPlane(node.value.planeIndex).None? {
        return Err(MissingPlane(node.value.planeIndex));
      }
      var front := Check3DChild(bsp, node.value.frontChild);
      if front.Err? {
        return front;
      }
      var back := Check3DChild(bsp, node.value.backChild);
      if back.Err? {
        return back;
      }
    }
    return Ok(());
  }

  /** The plane sweep. */
  method CheckPlanes<P>(bsp: CollisionBSPFunctions<P>) returns (r: Result<(), CollisionBSPError>)
    ensures r == Sweep(bsp, Planes)
  {
    for p := 0 to bsp.planeCount
      invariant FirstError(bsp, Planes, p, bsp.planeCount) == Sweep(bsp, Planes)
    {
      if bsp.getPlane(p).None? {
        return Err(MissingPlane(p));
      }
    }
    return Ok(());
  }

  /** The leaf sweep, over `0..=leaf_count`, with the inner loop over each leaf's references. */
  method CheckLeaves<P>(bsp: CollisionBSPFunctions<P>) returns (r: Result<(), CollisionBSPError>)
    ensures r == Sweep(bsp, Leaves)
  {
    for l := 0 to bsp.leafCount + 1
      invariant FirstError(bsp, Leaves, l, bsp.leafCount + 1) == Sweep(bsp, Leaves)
    {
      var leaf := bsp.getLeaf(l);
      if leaf.None? {
        return Err(MissingLeaf(l));
      }
      var start := leaf.value.bsp2DNodeReferenceStart;
      var end := start + leaf.value.bsp2DNodeReferenceCount;
      if end >= USIZE_LIMIT {
        return Err(BadLeaf(l));
      }
      for ref := start to end
        invariant MissingReferenceIn(bsp, ref, end) == MissingReferenceIn(bsp, start, end)
      {
        if bsp.get2DNodeReference(ref).None? {
          return Err(Missing2DNodeReference(ref));
        }
      }
    }
    return Ok(());
  }

  /** The 2D node reference sweep. */
  method Check2DNodeReferences<P>(bsp: CollisionBSPFunctions<P>) returns (r: Result<(), CollisionBSPError>)
    ensures r == Sweep(bsp, Node2DReferences)
  {
    for ref := 0 to bsp.node2DReferenceCount
      invariant FirstError(bsp, Node2DReferences, ref, bsp.node2DReferenceCount) == Sweep(bsp, Node2DReferences)
    {
      var reference := bsp.get2DNodeReference(ref);
      if reference.None? {
        return Err(Missing2DNodeReference(ref));
      }
      if bsp.getPlane(reference.value.plane).None? {
        return Err(MissingPlane(reference.value.plane));
      }
      match reference.value.node.AsTuple() {
        case (Node, n) =>
          if bsp.get2DNode(n).None? {
            return Err(Missing2DNode(n));
          }
        case (Surface, _) =>
          return Err(Bad2DReference(ref));
      }
    }
    return Ok(());
  }

  /** The 2D node sweep. */
  method Check2DNodes<P>(bsp: CollisionBSPFunctions<P>) returns (r: Result<(), CollisionBSPError>)
    ensures r == Sweep(bsp, Nodes2D)
  {
    for n := 0 to bsp.node2DCount
      invariant FirstError(bsp, Nodes2D, n, bsp.node2DCount) == Sweep(bsp, Nodes2D)
    {
      var node := bsp.get2DNode(n);
      if node.None? {
        return Err(Missing2DNode(n));
      }
      var left := Check2DChild(bsp, node.value.leftChild);
      if left.Err? {
        return left;
      }
      var right := Check2DChild(bsp, node.value.rightChild);
      if right.Err? {
        return right;
      }
    }
    return Ok(());
  }

  /** The surface sweep. */
  method CheckSurfaces<P>(bsp: CollisionBSPFunctions<P>) returns (r: Result<(), CollisionBSPError>)
    ensures r == Sweep(bsp, Surfaces)
  {
    for s := 0 to bsp.surfaceCount
      invariant FirstError(bsp, Surfaces, s, bsp.surfaceCount) == Sweep(bsp, Surfaces)
    {
      var surface := bsp.getSurface(s);
      if surface.None? {
        return Err(MissingSurface(s));
      }
      if bsp.getPlane(surface.value.plane).None? {
        return Err(MissingPlane(surface.value.plane));
      }
    }
    return Ok(());
  }

  /**
   * `bounds_check`: the six sweeps in order, stopping at the first error. It passes exactly
   * when every swept entry is sound.
   */
  method BoundsCheck<P>(bsp: CollisionBSPFunctions<P>) returns (r: Result<(), CollisionBSPError>)
    ensures r == BoundsCheckResult(bsp)
    ensures r.Ok? <==> Sound(bsp)
  {
    BoundsCheckOkIffSound(bsp);
    r := Check3DNodes(bsp);
    if r.Err? {
      return;
    }
    r := CheckPlanes(bsp);
    if r.Err? {
      return;
    }
    r := CheckLeaves(bsp);
    if r.Err? {
      return;
    }
    r := Check2DNodeReferences(bsp);
    if r.Err? {
      return;
    }
    r := Check2DNodes(bsp);
    if r.Err? {
      return;
    }
    r := CheckSurfaces(bsp);
  }
}
