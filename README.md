# funnel-web collision BSP, IDs, strings and rectangles in Dafny

This project models the collision BSP core of the funnel-web library, together with three
small value types the library uses.

- **Collision BSP** (`src/collision_bsp.rs`).
  - An implementer of the BSP functions provides six tables, each as a lookup plus a count:
    3D nodes, planes, leaves, 2D node references, 2D nodes and surfaces.
  - `leaf_index_for_point` walks the 3D node tree from node 0 and takes at most
    `max(node count, 1)` steps. It ends in a leaf, ends outside the BSP on a null child,
    or reports why the BSP is malformed. `point_inside_bsp` builds on it.
  - `bounds_check` runs six sweeps, one over each table, and reports the first entry that
    fails its check: a missing entry, a leaf whose reference range overflows, or a 2D node
    reference that enters at a surface.
  - Packed child references (`CollisionBSP3DNodeIndex`, `CollisionBSP2DNodeIndex`) keep a
    kind bit above a 31-bit table index.
- **IDs** (`src/id.rs`).
  - A salted 32-bit `ID` has the index value in its low half. Its high half is
    `salt ^ value` with bit 15 set. The all-ones word is null for every salt.
  - A 16-bit `Index` treats `0xFFFF` as null.
- **Strings** (`src/string.rs`). `ASCIIString<LEN>` is a NUL-terminated buffer of `LEN`
  bytes. It holds printable ASCII, and every byte after the text is NUL.
- **Rectangles** (`src/rectangle.rs`). Four `i16` edges. The width and height wrap
  modulo 2^16. `centered_inside` moves a rectangle with wrapping addition. It reads only
  the target's width and height, not its position (`CenteredInsideIgnoresPosition`). The
  result is therefore the centered position shifted by the offset between the two top left
  corners: a 4 by 4 square at the origin "centered" in the 10 by 10 square at (10, 10)
  stays near the origin (`CenteredInsideAwayFromOrigin`).

Files, one module each:
- `wrappers.dfy`: `Option` and `Result`.
- `machine_ints.dfy`: the fixed-width integer types.
- `collision_bsp_index.dfy`: the packed child references.
- `collision_bsp.dfy`: the records, the provider and the point walk.
- `collision_bsp_validation.dfy`: `bounds_check`.
- `ids.dfy`, `ascii_string.dfy`, `rectangle.dfy`.

The source's loops are methods with loop invariants. The sweeps of `bounds_check`, the
walk of `leaf_index_for_point`, and the byte loops of `from_bytes` and `from_str` are all
written this way. Each method is proved equal to a specification function, and the
lemmas state what the source promises about that function.

Some of the source's own behaviour is kept as written:
- The 3D node sweep runs over `0..max(count, 1)`.
- The leaf sweep runs over `0..=leaf_count`, one entry past the count. `LeafAtCountRequired`
  shows that `bounds_check` therefore fails whenever leaf `leaf_count` is absent.
- A leaf whose references start at 5, with count 3, in a reference table of length 6 is
  rejected at index 6, the first missing reference, as `DanglingLeafReference` proves.
- The walk takes at most `max(count, 1)` steps and does not look past its budget. A chain
  that runs into a missing node just as the budget runs out is therefore reported as
  `BSP3DNodeLoop`, not as `Missing3DNode`, as `MissingNodeAtBudgetReportedAsLoop` shows.
- `bounds_check` only visits the entries below each count. The lookups are free to answer
  beyond the counts, and then a passing `bounds_check` does not make the walk safe. For
  example, take two nodes where node 0's children name node 5, which exists beyond the
  count and names a missing plane. `bounds_check` passes, yet the walk reports
  `MissingPlane`. `CheckedWalkFrom`, `CheckedBspWalk` and `LoopRevisitsANode` therefore
  assume that the 3D node lookup answers only below its count.

## Model

| member | source | states |
|---|---|---|
| CollisionBSPIndex.MaskIndex | src/collision_bsp.rs:260 | `x & 0x7FFFFFFF` is below 2^31; it keeps a value below 2^31 and clears bit 31 of one above |
| CollisionBSPIndex.CollisionBSP3DNodeIndex.AsTuple | src/collision_bsp.rs:255-269 | `None` exactly for `0xFFFFFFFF`; otherwise, Node exactly when bit 31 is clear, with the index being the low 31 bits |
| CollisionBSPIndex.CollisionBSP2DNodeIndex.AsTuple | src/collision_bsp.rs:291-301 | every value decodes; Node exactly when bit 31 is clear; the index is the low 31 bits |
| CollisionBSPIndex.Decode3DOfPack | src/collision_bsp.rs:255-269 | `(Node, i)` round-trips for every `i < 2^31`, as does `(Leaf, i)` for `i < 2^31 - 1`; `(Leaf, 2^31 - 1)` packs to null |
| CollisionBSPIndex.Pack3DOfDecode | src/collision_bsp.rs:255-269 | packing what a non-null 3D reference decodes to gives back its raw value |
| CollisionBSPIndex.Decode2DOfPack | src/collision_bsp.rs:291-301 | every `(kind, i)` with `i < 2^31` round-trips through a 2D reference |
| CollisionBSPIndex.Pack2DOfDecode | src/collision_bsp.rs:291-301 | every raw 2D reference value round-trips through its decoding |
| CollisionBSP.Walk | src/collision_bsp.rs:63-85 | the walk's only errors are a loop, a missing node or a missing plane, and a leaf it finds has an index below 2^31 - 1 |
| CollisionBSP.NodeBudget | src/collision_bsp.rs:65 | `max(count, 1)` is at least 1 and at least the count; it equals the count when the count is nonzero, and is 1 when the count is 0, so one lookup of node 0 is still made |
| CollisionBSP.LeafIndexForPoint | src/collision_bsp.rs:62-86 | the loop's result is the bounded walk from node 0 with `max(count, 1)` steps |
| CollisionBSP.PointInsideBsp | src/collision_bsp.rs:51-54 | `Ok(true)` exactly when the walk finds a leaf, `Ok(false)` exactly when it ends outside, and the walk's error unchanged otherwise |
| CollisionBSP.WalkErrorsGenuine | src/collision_bsp.rs:66-69 | a `Missing3DNode` or `MissingPlane` error from the walk names an entry whose lookup really fails |
| CollisionBSP.WalkBudgetMonotone | src/collision_bsp.rs:65-85 | an answer other than `BSP3DNodeLoop` stays the same under any larger step budget |
| CollisionBSP.LoopVisitsResolvedNodes | src/collision_bsp.rs:65-85 | a walk that exhausts its budget looked up exactly that many nodes, each resolved, and the last one moved on to the reported node |
| CollisionBSP.LoopRevisitsANode | src/collision_bsp.rs:85 | when lookups answer only below the count, a `BSP3DNodeLoop` at an existing node means the node path repeats a node: the loop is real |
| CollisionBSP.SelfLoopIsReported | src/collision_bsp.rs:78-85 | a node whose chosen child is itself yields `BSP3DNodeLoop` at that node, whatever the budget |
| CollisionBSP.SingleLeafBsp | src/collision_bsp.rs:62-86 | in a one-node BSP with front child leaf 0 and a null back child, the point is in leaf 0 when in front, and outside otherwise |
| CollisionBSP.MissingNodeAtBudgetReportedAsLoop | src/collision_bsp.rs:65-85 | in a one-node BSP whose children both name missing node 1, the walk reports `BSP3DNodeLoop(1)` and not `Missing3DNode(1)`, even though node 1 really is missing |
| CollisionBSPValidation.FirstErrorOk | src/collision_bsp.rs:94-171 | a sweep over a range passes exactly when every entry of the range passes its check |
| CollisionBSPValidation.FirstErrorIsFirstFailure | src/collision_bsp.rs:94-171 | a failing sweep reports the error of its first failing entry, and every earlier entry passes |
| CollisionBSPValidation.MissingReferenceInOk | src/collision_bsp.rs:134-136 | the reference loop of a leaf passes exactly when every reference in its range exists |
| CollisionBSPValidation.MissingReferenceInIsFirst | src/collision_bsp.rs:134-136 | a failing reference loop names the first missing reference of the range |
| CollisionBSPValidation.CheckEntryOk | src/collision_bsp.rs:94-171 | an entry passes its check exactly when everything it references resolves |
| CollisionBSPValidation.CheckEntryErrorGenuine | src/collision_bsp.rs:94-171 | an entry's error names an entry that is really absent, or a leaf or 2D reference that is really bad, and is never a loop error |
| CollisionBSPValidation.Check3DNodes | src/collision_bsp.rs:94-118 | the loop over 3D nodes computes the node sweep: each node, its plane, and both children resolve |
| CollisionBSPValidation.CheckPlanes | src/collision_bsp.rs:120-123 | the loop over planes computes the plane sweep |
| CollisionBSPValidation.CheckLeaves | src/collision_bsp.rs:125-137 | the nested loops over leaves and their reference ranges compute the leaf sweep, including the overflow check of `start + count` |
| CollisionBSPValidation.Check2DNodeReferences | src/collision_bsp.rs:139-146 | the loop over 2D node references computes their sweep: each reference needs a plane and a 2D node, and a surface is rejected |
| CollisionBSPValidation.Check2DNodes | src/collision_bsp.rs:148-166 | the loop over 2D nodes computes their sweep: both children resolve to a 2D node or a surface |
| CollisionBSPValidation.CheckSurfaces | src/collision_bsp.rs:168-171 | the loop over surfaces computes their sweep: each surface and its plane exist |
| CollisionBSPValidation.BoundsCheck | src/collision_bsp.rs:91-174 | the method returns the six sweeps in order, stopping at the first error, and passes exactly when every swept entry of every table is sound |
| CollisionBSPValidation.BoundsCheckOkIffSound | src/collision_bsp.rs:91-174 | `bounds_check` passes if and only if every swept entry of every table is sound |
| CollisionBSPValidation.BoundsCheckReportsFirstFailure | src/collision_bsp.rs:91-174 | a failing `bounds_check` reports a genuine error: the first failing entry of the first failing sweep, every earlier sweep having passed |
| CollisionBSPValidation.LeafAtCountRequired | src/collision_bsp.rs:125-127 | `bounds_check` fails whenever leaf `leaf_count` is absent, because the leaf sweep includes the count |
| CollisionBSPValidation.DanglingLeafReference | src/collision_bsp.rs:129-136 | a leaf with references 5 to 7 fails at reference 6 when only 0 to 5 exist, and passes when 0 to 7 exist |
| CollisionBSPValidation.CheckedWalkFrom | src/collision_bsp.rs:62-86 | on a sound BSP whose 3D node lookup answers only below its count, the walk from any node below the budget misses no node or plane, and any leaf it finds exists |
| CollisionBSPValidation.CheckedBspWalk | src/collision_bsp.rs:62-174 | when the 3D node lookup answers only below its count and `bounds_check` passes, `leaf_index_for_point` can fail only with `BSP3DNodeLoop`, and any leaf it returns exists |
| Ids.SetTopBit | src/id.rs:96 | setting bit 15 of `h` gives `0x8000` plus the low 15 bits of `h` |
| Ids.Index.IsNull | src/id.rs:137-139 | an index is null exactly for the largest 16-bit value, `0xFFFF` |
| Ids.Index.AsUsize | src/id.rs:143-150 | `None` exactly for the null index; otherwise the value, which is below `0xFFFF` |
| Ids.NewIndex | src/id.rs:119-121 | the new index is null |
| Ids.IndexFromUsize | src/id.rs:128-133 | `None` exactly for values from `0xFFFF` up; otherwise an index whose value is the argument |
| Ids.IndexRoundTrip | src/id.rs:128-150 | every index that is not null is rebuilt from its value |
| Ids.ID.AsU32 | src/id.rs:75-77 | the word is the whole ID: the ID rebuilt from it is the same ID |
| Ids.ID.IsNull | src/id.rs:81-83 | an ID is null exactly when both halves of its word are all ones |
| Ids.ID.AsUsize | src/id.rs:87-92 | `None` exactly for the null ID; otherwise a value below 2^16 |
| Ids.NewId | src/id.rs:27-29 | the new ID is null, and its word is `0xFFFFFFFF` |
| Ids.IdFromIndexValue | src/id.rs:95-98 | the low half of the word is the value, and the high half is `salt ^ value` with bit 15 set, so at least `0x8000` |
| Ids.SaltedHighEq | src/id.rs:96 | two salts give the same high half for a value exactly when they agree below bit 15 |
| Ids.IdFromIndexValueNull | src/id.rs:95-98 | an encoded ID is null exactly for value `0xFFFF` under a salt with bits 0 to 14 clear |
| Ids.IdFromIndexValueIndex | src/id.rs:87-98 | an encoded ID that is not null gives back its value |
| Ids.FromIndex | src/id.rs:35-40 | the ID is null exactly when the index is, it gives back the same value as the index, and a non-null index gives the salted encoding of its value |
| Ids.FromU32OfFromIndex | src/id.rs:35-71 | reading back any ID from `from_index` under the same salt gives it back |
| Ids.FromUsize | src/id.rs:46-51 | `None` exactly above `0xFFFF`; otherwise the ID gives back the value, except that `0xFFFF` under a salt with bits 0 to 14 clear is null |
| Ids.FromU32 | src/id.rs:57-71 | accepted exactly when the word is zero, null, or the re-encoding of its own low half; zero and null give the null ID, and others are kept |
| Ids.FromU32OfEncoded | src/id.rs:57-71 | reading back an encoded ID under its own salt gives it back |
| Ids.FromU32OfFromUsize | src/id.rs:46-71 | reading back any ID from `from_usize` under the same salt gives the same result |
| Ids.FromU32SaltMismatch | src/id.rs:63-70 | an encoded ID that is not null is refused under another salt exactly when the salts differ below bit 15 |
| Ids.HighIgnoresValueTopBit | src/id.rs:96 | values that agree below bit 15 give the same high half |
| Ids.TagIdExamplesEven | src/id.rs:165-167 | tag IDs of indices 0 and `0x8000` are `0xE1740000` and `0xE1748000` |
| Ids.TagIdExamplesOdd | src/id.rs:166-168 | tag IDs of indices 1 and `0x8001` are `0xE1750001` and `0xE1758001` |
| Ids.TagIdExamples | src/id.rs:169-174 | `0xE1750001` is read back; the new ID is `0xFFFFFFFF`; index 1 gives `0xE1750001`; the null word and the null index give null IDs |
| AsciiStrings.ASCIIString.StringLen | src/string.rs:97-99 | the length is at most the buffer size, every byte before it is not NUL, and the byte at it is NUL when it is inside the buffer |
| AsciiStrings.ASCIIString.EqualsStr | src/string.rs:158-192 | a string equals the text exactly when it has the text's length and matches the buffer up to there; a string holding a NUL byte never equals one |
| AsciiStrings.ASCIIString.AsStr | src/string.rs:103-108 | the text is the longest prefix of the buffer without a NUL: no byte of it is NUL, and the byte after it is NUL when there is one |
| AsciiStrings.FirstNul | src/string.rs:97-99 | the length is the position of the first NUL, or the whole buffer when there is none |
| AsciiStrings.New | src/string.rs:17-21 | the all-zero buffer is a valid string of length 0 that equals `""` |
| AsciiStrings.FromBytes | src/string.rs:31-62 | the in-place loop computes `from_bytes`: refusal, or the buffer with its tail zeroed |
| AsciiStrings.FromStr | src/string.rs:71-88 | the copy loop followed by `from_bytes` computes `from_str` |
| AsciiStrings.FromBytesNoneIff | src/string.rs:35-56 | refused exactly when the last byte is not NUL, or some byte before the first NUL is not ASCII or is a control character |
| AsciiStrings.FromBytesKeepsText | src/string.rs:5-9 | an accepted buffer is valid; its text is the bytes before the first NUL; every later byte is NUL; its length is below `LEN` |
| AsciiStrings.FromBytesFixedPoints | src/string.rs:5-9 | the valid strings are exactly the buffers `from_bytes` accepts unchanged |
| AsciiStrings.FromBytesIdempotent | src/string.rs:31-62 | `from_bytes` accepts its own output unchanged |
| AsciiStrings.FromStrResult | src/string.rs:71-88 | refused exactly when the string does not fit below `LEN` or has a bad byte before its first NUL; otherwise valid, with the text up to that NUL |
| AsciiStrings.FromStrPrintable | src/string.rs:71-88 | a printable string shorter than `LEN` is stored exactly |
| AsciiStrings.String32Examples | src/string.rs:200-202 | `String32::new()` equals `""`, and `"this is a string"` is stored and read back |
| Rectangles.Rectangle.Width | src/rectangle.rs:36-40 | for edges in order, the width is `right - left` |
| Rectangles.Rectangle.Height | src/rectangle.rs:42-46 | for edges in order, the height is `bottom - top` |
| Rectangles.ExtentOfEdges | src/rectangle.rs:36-46 | the width is `(right - left) mod 2^16` and the height is `(bottom - top) mod 2^16`: the `i32` subtraction never wraps |
| Rectangles.FromWidthAndHeight | src/rectangle.rs:27-34 | the top left corner is at the origin, and the width and height are `width as u16` and `height as u16` |
| Rectangles.Rectangle.CenteredInside | src/rectangle.rs:50-58 | both horizontal edges move by half the difference of the widths, and both vertical edges by half the difference of the heights, modulo 2^16 |
| Rectangles.FromWidthAndHeightSize | src/rectangle.rs:27-46 | the rectangle of width `w` and height `h` has width `w as u16` and height `h as u16`, which is `w` and `h` when they are not negative |
| Rectangles.CenteredInsideKeepsSize | src/rectangle.rs:50-58 | centering keeps the width and the height, wrapping included |
| Rectangles.CenteredInsideSelf | src/rectangle.rs:50-58 | centering a rectangle inside itself leaves it unchanged |
| Rectangles.CenteredInsideIgnoresPosition | src/rectangle.rs:50-58 | centering depends only on the width and height of the target, never on its position |
| Rectangles.CenteredInsideAwayFromOrigin | src/rectangle.rs:50-58 | a 4 by 4 square at the origin centered inside the 10 by 10 square at (10, 10) lands at (3, 3) to (7, 7), left of the target |
| Rectangles.CenteredInsideMargins | src/rectangle.rs:50-58 | a rectangle that fits inside another and shares its top left corner ends up inside it, with opposite margins within one of each other |

## Left out

- Plane geometry: `Plane3D::distance_to_point` works on `f32`. The walk takes the query point's side of each plane as a parameter, `front: P -> bool`. `Plane2D` and the 2D node's plane are not modelled.
- Record fields the core never reads are not modelled: the leaf's `contains_double_sided_surfaces` and the surface's `material`.
- The `Display` text of `CollisionBSPError`, and the `Display`, `Debug`, `AsRef` and `Default` impls of the other types, are not modelled.
- `usize` is taken to be 64 bits wide. The overflow check of a leaf's reference range (`checked_add`) is modelled against 2^64.
- The `SALT` const generic of `ID` is an explicit argument of each ID function.
- The `LEN` const generic of `ASCIIString` is the length of the byte sequence. `new` and `from_str` take it as an argument. The `LEN > 0` assertion of `new`, `from_bytes` and `from_str` is a precondition: `New` and `FromStr` require `len > 0`, and `FromBytes` requires `|input| > 0`.
- AsciiStrings.FromStr: a `str` is its UTF-8 bytes. The model does not check that the bytes are valid UTF-8.
- `as_str`, `as_cstr` and `bytes` are views of the buffer. They are modelled as the text before the first NUL and as the byte sequence itself. The unsafe pointer and UTF-8 conversion is not modelled.
- The derived orderings (`PartialOrd`, `Ord`) of `ASCIIString` are not modelled.
- `Rectangle::get_aspect_ratio` divides `f32` values and is not modelled.
- CollisionBSP.LoopRevisitsANode, CollisionBSPValidation.CheckedWalkFrom and CollisionBSPValidation.CheckedBspWalk: all three assume that the provider's 3D node lookup answers only below its count. The source's trait does not require this, and `bounds_check` does not check it, so without it a passing `bounds_check` does not rule out `Missing3DNode` or `MissingPlane` from the walk.
- src/vector.rs, src/float.rs and the other modules of the library are not part of this model.

