# Slate texture atlas

A model of `FSlateTextureAtlas`, the CPU-side texture atlas of the Slate UI renderer.
An atlas is a fixed-size canvas. It has `atlasWidth x atlasHeight` pixels of `stride` bytes each, and a padding style: `NoPadding`, `DilateBorder` or `PadWithZero`.

- **Allocation.** A request for a `w x h` rectangle is served from a binary tree of slots.
  - The search goes left child first and takes the first free leaf that the padded request fits.
  - That leaf shrinks to the padded footprint at its own corner.
  - The rest of the leaf goes to two new free children.
- **Copy.** The caller's bitmap is copied into the allocated slot row by row.
  - With padding, the slot holds a one-pixel border.
  - `DilateBorder` fills the border with the nearest edge pixel. `PadWithZero` fills it with zero.

The model is split by concern:

| Module | File | What it holds |
|---|---|---|
| `Geometry` | `geometry.dfy` | Rectangles; the int32 clamp of the remainder; the split of a leaf into three pieces. |
| `SlotTree` | `slot_tree.dfy` | The slot tree as an arena: node `i` is `slots[i]`, and a child link is an index. It defines the specification of the search (`FindLeaf`) and of the split (`Place`), and their well-formedness lemmas. |
| `PixelLayout` | `pixel_layout.dfy` | Row-major byte addressing. |
| `BlitSpec` | `blit_spec.dfy` | The reference picture a slot must hold (`SlotByte`), defined for each padding style. It also defines what "the bitmap was copied into the slot" means for the whole atlas buffer (`CopiedInto`). |
| `RowCopy` | `row_copy.dfy` | `FCopyRowData`; the byte ranges that `CopyRow` and `ZeroRow` write; `Memcpy` and `Memzero` as byte loops. |
| `SlotCopy` | `slot_copy.dfy` | How the row copies of `CopyDataIntoSlot` build the picture one row at a time. |
| `Atlas` | `texture_atlas.dfy` | The class `TextureAtlas`. |

`TextureAtlas` has two kinds of fields:

- **Real fields:**
  - an `array<byte>` pixel buffer;
  - the slot arena `slots`;
  - the root link;
  - the set `live` of arena entries still allocated;
  - the dirty flag.
- **Ghost fields:**
  - `parent`, the parent of each slot;
  - `placed`, the slots returned by past allocations.

Its methods follow the source one for one: `InitAtlasData`, `DestroyNodes`, `Empty`, `MarkTextureDirty`, both `FindSlotForTexture` overloads (the recursive one is `FindSlotInSubtree`), `CopyRow`, `ZeroRow`, `CopyDataIntoSlot` and `AddTexture`.

The main results:

- **The search.** `FindSlotForTexture` returns exactly `FindLeaf`. `FindLeaf` is proved to be the first fitting leaf in left-to-right order, and to be none exactly when no leaf fits.
- **The tree invariant.** Every allocation keeps the slot tree well formed: it stays a tree, inside the canvas, and no two slots overlap.
- **Earlier allocations.** An allocation never moves an earlier allocation. All allocations are pairwise disjoint and lie inside the atlas.
- **The copy.** After `CopyDataIntoSlot`, every byte of the slot is the reference picture of the bitmap and every byte outside the slot is unchanged. Without padding, reading the slot back gives the bitmap rows byte for byte.
- **Freeing.** `DestroyNodes` frees exactly the subtree below its start node, and `Empty` frees every node.

## Model

| member | source | states |
|---|---|---|
| Geometry.DisjointIffNoCommonPixel | Engine/Source/Runtime/SlateCore/Private/Textures/TextureAtlas.cpp:249-265 | Two slot rectangles are disjoint exactly when no pixel lies in both; this is the non-overlap notion the split is proved against. |
| Geometry.Remaining | Engine/Source/Runtime/SlateCore/Private/Textures/TextureAtlas.cpp:245-246 | The remainder never exceeds `size - used`, and it equals `size - used` whenever that difference fits an int32. |
| Geometry.SplitPiecesDisjointWithin | Engine/Source/Runtime/SlateCore/Private/Textures/TextureAtlas.cpp:242-265 | The occupied footprint keeps the leaf's corner and has the padded size. The occupied part and both children lie inside the leaf and are pairwise disjoint. Which child spans the full height or width depends on the cut direction. |
| Geometry.SplitTilesLeaf | Engine/Source/Runtime/SlateCore/Private/Textures/TextureAtlas.cpp:242-265 | When the leaf fits int32 sizes, a pixel is in the leaf iff it is in exactly one of the three pieces: nothing is lost and nothing is shared. |
| Geometry.LargeRemainderIsDropped | Engine/Source/Runtime/SlateCore/Private/Textures/TextureAtlas.cpp:245-254 | Above the int32 range the clamp drops the remainder: the right child of a 2^31+1 wide leaf has width 0, and a pixel of the leaf then lies outside it. |
| SlotTree.Subtree | Engine/Source/Runtime/SlateCore/Private/Textures/TextureAtlas.cpp:63-76 | The nodes DestroyNodes visits from i contain i and only nodes at or after i in the arena. |
| SlotTree.ChildSubtreesDisjoint | Engine/Source/Runtime/SlateCore/Private/Textures/TextureAtlas.cpp:65-73 | The left and right subtrees of a node share no node, so no slot is deleted twice. |
| SlotTree.SubtreeOfRoot | Engine/Source/Runtime/SlateCore/Private/Textures/TextureAtlas.cpp:19-23 | The root's subtree is exactly the whole arena, so destroying it frees every slot. |
| SlotTree.FindLeafIsFirstFit | Engine/Source/Runtime/SlateCore/Private/Textures/TextureAtlas.cpp:201-240 | The recursive search returns the first leaf, in left-to-right order below the start node, that fits the padded request. It returns none when no leaf fits. |
| SlotTree.FindLeafCorrect | Engine/Source/Runtime/SlateCore/Private/Textures/TextureAtlas.cpp:201-240 | An answer is a leaf of the start node's subtree that the padded request fits. There is no answer iff no leaf of the subtree fits. |
| SlotTree.PlaceFacts | Engine/Source/Runtime/SlateCore/Private/Textures/TextureAtlas.cpp:248-267 | The split changes only the chosen slot. It shrinks that slot to the occupied footprint and appends the two pieces as its new leaf children. |
| SlotTree.PlaceTreeShaped | Engine/Source/Runtime/SlateCore/Private/Textures/TextureAtlas.cpp:248-261 | Splitting a leaf keeps the arena a tree: each new child has the split leaf as its only parent. |
| SlotTree.PlaceInsideCanvas | Engine/Source/Runtime/SlateCore/Private/Textures/TextureAtlas.cpp:248-265 | After a split every slot still lies inside the atlas. |
| SlotTree.PlaceNoOverlap | Engine/Source/Runtime/SlateCore/Private/Textures/TextureAtlas.cpp:248-265 | After a split no two slots overlap. |
| SlotTree.PlacePairDisjoint | Engine/Source/Runtime/SlateCore/Private/Textures/TextureAtlas.cpp:248-265 | Any two distinct slots of the arena after a split are disjoint. |
| SlotTree.PlacePreservesWellFormed | Engine/Source/Runtime/SlateCore/Private/Textures/TextureAtlas.cpp:232-267 | Placing a fitting request in a free leaf keeps the arena well formed: tree shaped, inside the canvas, no overlap. |
| SlotTree.FitsAgreesWithoutWrap | Engine/Source/Runtime/SlateCore/Private/Textures/TextureAtlas.cpp:232-240 | When the padded request does not overflow uint32, the source's leaf test and the corrected test agree, in both directions. |
| SlotTree.WrappedGuardAdmitsOversizedRequest | Engine/Source/Runtime/SlateCore/Private/Textures/TextureAtlas.cpp:232-240 | The source's test accepts a request of width 2^32-1 for a leaf one pixel wide; the corrected test rejects it. |
| SlotTree.FitsPlacesInsideLeaf | Engine/Source/Runtime/SlateCore/Private/Textures/TextureAtlas.cpp:236-265 | With the corrected test, the padded footprint always lies inside the chosen leaf. |
| PixelLayout.OffsetOutsideSpan | Engine/Source/Runtime/SlateCore/Private/Textures/TextureAtlas.cpp:102-104 | The bytes of a run of pixels in one row are contiguous, and every other pixel's bytes lie outside that run. |
| BlitSpec.PaddingOf | Engine/Source/Runtime/SlateCore/Private/Textures/TextureAtlas.cpp:99-100 | The padding is 0 or 1, and it is 0 exactly for NoPadding. |
| BlitSpec.Clamp | Engine/Source/Runtime/SlateCore/Private/Textures/TextureAtlas.cpp:110-116 | The result is a valid index: v itself when in range, 0 below it, and the last index above it. |
| BlitSpec.RealRowMatchesPicture | Engine/Source/Runtime/SlateCore/Private/Textures/TextureAtlas.cpp:174-181 | Every real row r of the slot, border pixels included, is what CopyRow writes for source row r - padding. |
| BlitSpec.PaddingRowsMatchPicture | Engine/Source/Runtime/SlateCore/Private/Textures/TextureAtlas.cpp:158-197 | With DilateBorder the top and bottom padding rows are CopyRow's output for the first and last source rows. With PadWithZero both rows are zero. |
| BlitSpec.DilateBorderRepeatsEdges | Engine/Source/Runtime/SlateCore/Private/Textures/TextureAtlas.cpp:106-116 | With DilateBorder each border row and column repeats its neighbouring edge row or column, and the inside of the slot is the source shifted by one pixel. |
| BlitSpec.ZeroPaddingFrame | Engine/Source/Runtime/SlateCore/Private/Textures/TextureAtlas.cpp:117-121 | With PadWithZero every byte of the one-pixel frame is zero, and the inside is the source shifted by one pixel. |
| BlitSpec.NoPaddingReadBack | Engine/Source/Runtime/SlateCore/Private/Textures/TextureAtlas.cpp:137-181 | Without padding, after a copy each row of the slot region reads back as the corresponding row of the source bitmap, byte for byte. |
| RowCopy.CopyRowLayout | Engine/Source/Runtime/SlateCore/Private/Textures/TextureAtlas.cpp:102-115 | The addresses CopyRow computes tile the destination row. The middle range starts one border pixel after the row start and ends one border pixel before the row end. The right border pixel follows the middle range directly. The source row lies inside the bitmap, and for DilateBorder the last-pixel address is the final pixel of the source row. |
| RowCopy.BordersWritten | Engine/Source/Runtime/SlateCore/Private/Textures/TextureAtlas.cpp:104-121 | After the middle copy and the two border writes, all three results hold together and nothing outside the destination row has changed. |
| RowCopy.RowCopiedFromSpans | Engine/Source/Runtime/SlateCore/Private/Textures/TextureAtlas.cpp:102-124 | The middle copy plus the two borders give every byte of the destination row its CopyRow value. |
| RowCopy.ZeroedRowFromSpan | Engine/Source/Runtime/SlateCore/Private/Textures/TextureAtlas.cpp:132-133 | Zeroing rowWidth * stride bytes from the row start zeroes every pixel of the destination row. |
| RowCopy.Memcpy | Engine/Source/Runtime/SlateCore/Private/Textures/TextureAtlas.cpp:104 | Copies count bytes from src into dest; dest is unchanged outside those bytes. |
| RowCopy.Memzero | Engine/Source/Runtime/SlateCore/Private/Textures/TextureAtlas.cpp:119-120 | Zeroes count bytes of dest; dest is unchanged outside those bytes. |
| SlotCopy.SlotRowGeometry | Engine/Source/Runtime/SlateCore/Private/Textures/TextureAtlas.cpp:140-154 | With the Start pointer of CopyDataIntoSlot, row r of the slot runs from atlas pixel (x, y+r) to (x+width, y+r) and lies inside the atlas buffer. |
| SlotCopy.SlotRowCopyable | Engine/Source/Runtime/SlateCore/Private/Textures/TextureAtlas.cpp:146-154 | The row data CopyDataIntoSlot builds for any existing source row meets what CopyRow reads. |
| SlotCopy.CopiedRowIsPictureRow | Engine/Source/Runtime/SlateCore/Private/Textures/TextureAtlas.cpp:175-181 | A real slot row that CopyRow wrote holds that row of the reference picture. |
| SlotCopy.PaddingRowIsPictureRow | Engine/Source/Runtime/SlateCore/Private/Textures/TextureAtlas.cpp:158-197 | A top or bottom padding row written by CopyRow (DilateBorder) or ZeroRow (PadWithZero) holds that row of the reference picture. |
| SlotCopy.RowStep | Engine/Source/Runtime/SlateCore/Private/Textures/TextureAtlas.cpp:174-181 | Writing row r extends the finished picture by that row. The rows above and every pixel outside the slot keep their bytes. |
| Atlas.PlaceKeepsArenaInvariant | Engine/Source/Runtime/SlateCore/Private/Textures/TextureAtlas.cpp:242-267 | One split keeps the arena invariant: well formed, `live` is exactly the arena, placements recorded and distinct. It also fixes the footprint and keeps every earlier placement unchanged. |
| Atlas.AllocatedKeepsArena | Engine/Source/Runtime/SlateCore/Private/Textures/TextureAtlas.cpp:58-61 | Any allocation step, successful or not, keeps the arena invariant and never changes an earlier allocation. |
| Atlas.TextureAtlas.constructor | Engine/Source/Runtime/SlateCore/Private/Textures/TextureAtlas.cpp:81 | A new atlas has its dimensions, stride and style, and no slot tree and no pixel data until InitAtlasData. |
| Atlas.TextureAtlas.InitAtlasData | Engine/Source/Runtime/SlateCore/Private/Textures/TextureAtlas.cpp:79-88 | Creates one free root slot covering the whole atlas, with the style's padding, and a zeroed buffer of width * height * stride bytes. |
| Atlas.TextureAtlas.DestroyNodes | Engine/Source/Runtime/SlateCore/Private/Textures/TextureAtlas.cpp:63-76 | Frees exactly the start node's subtree, children first, and nothing else. |
| Atlas.TextureAtlas.Empty | Engine/Source/Runtime/SlateCore/Private/Textures/TextureAtlas.cpp:19-32 | Frees every slot, clears the root and empties the pixel buffer. The dirty flag is unchanged. |
| Atlas.TextureAtlas.MarkTextureDirty | Engine/Source/Runtime/SlateCore/Private/Textures/TextureAtlas.cpp:51-55 | Sets the dirty flag. |
| Atlas.TextureAtlas.FindSlotInSubtree | Engine/Source/Runtime/SlateCore/Private/Textures/TextureAtlas.cpp:201-268 | Returns FindLeaf from the start node. When it finds a leaf, the arena is split there exactly as Place says; otherwise nothing changes. |
| Atlas.TextureAtlas.FindSlotForTexture | Engine/Source/Runtime/SlateCore/Private/Textures/TextureAtlas.cpp:58-61 | Returns the first fitting free leaf from the root, shrunk to the padded size at its own corner, and keeps the atlas invariant. No earlier allocation changes. |
| Atlas.TextureAtlas.CopyRow | Engine/Source/Runtime/SlateCore/Private/Textures/TextureAtlas.cpp:91-124 | Every byte of the destination row becomes the source row shifted by the padding, with DilateBorder copies or PadWithZero zeros in the border pixels. Nothing outside the row changes. |
| Atlas.TextureAtlas.ZeroRow | Engine/Source/Runtime/SlateCore/Private/Textures/TextureAtlas.cpp:126-134 | Every byte of the destination row becomes zero, and nothing outside it changes. |
| Atlas.TextureAtlas.CopyDataIntoSlot | Engine/Source/Runtime/SlateCore/Private/Textures/TextureAtlas.cpp:137-198 | Afterwards every byte of the slot is the reference picture of the bitmap under the atlas's padding style, and every byte outside the slot is unchanged. |
| Atlas.TextureAtlas.CopyPaddingRow | Engine/Source/Runtime/SlateCore/Private/Textures/TextureAtlas.cpp:158-172 | The top or bottom padding row joins the finished picture, and nothing outside the slot changes. |
| Atlas.TextureAtlas.AddTexture | Engine/Source/Runtime/SlateCore/Private/Textures/TextureAtlas.cpp:35-49 | Returns the search's slot. A slot with a positive-size bitmap receives the copy and marks the atlas dirty. A zero-size bitmap or a failed search leaves the pixels and the flag unchanged. |
| Atlas.TextureAtlas.PlacementsDisjointInside | Engine/Source/Runtime/SlateCore/Private/Textures/TextureAtlas.cpp:35-49 | The rectangles of all allocations lie inside the atlas and never overlap one another. |

## Left out

- **Memory statistics.**
  - The statistics at lines 25, 30-31 and 87 are not modelled; they are bookkeeping for a profiler.
  - The `Reserve` call at line 84 only sets capacity, so it is not modelled either.
- **Thread check.** The check at line 53 is not modelled; threads are out of scope.
- **GPU upload.** Uploading the atlas to the GPU is not modelled, because it happens outside this file. `needsUpdate` is the flag that requests it.
- **Destructor.** The destructor (lines 10-13) only calls `Empty`, which is modelled.
- **Class declaration.** The header that declares the class, its constructor and `FAtlasedTextureSlot` is not part of this model. The fields are taken from their uses in the `.cpp` file, and the constructor from the state that `InitAtlasData` checks for at line 81.
- **Slot pointers and heap nodes.**
  - The model holds the slots in an arena, and a pointer is an arena index.
  - `new` is modelled as appending to the arena.
  - `delete` is modelled as removal from the `live` set.
  - Aliasing between nodes is therefore not modelled.
- **Empty** requires that a root exists (`InitAtlasData` was called). With a null root the source dereferences a null pointer in `DestroyNodes`.
- **FindSlotForTexture** requires a root, for the same reason (line 60 dereferences it).
- **Integer widths.**
  - The uint32 arithmetic of the source is modelled on unbounded integers.
  - The constructor and `Valid` bound the atlas dimensions and buffer size below 2^31, so no address computation of the source can wrap.
  - The wrap in the leaf test is kept as a finding, below.
  - The int32 clamp of `Remaining` is modelled as written.
- **AddTexture** requires the bitmap to hold at least `w * h * stride` bytes, because the source reads that many without checking.
- **CopyDataIntoSlot** takes the slot's rectangle rather than a slot pointer.
- **CopyPaddingRow** is not a separate function in the source. It factors out the two identical padding-row blocks of `CopyDataIntoSlot` (lines 158-172 and 183-197).

## Findings

| source | as written | input that shows it | evidently intended | confidence | as-written member | corrected member |
|---|---|---|---|---|---|---|
| Engine/Source/Runtime/SlateCore/Private/Textures/TextureAtlas.cpp:236 | `InWidth + TotalPadding` is a uint32 sum and wraps before it is compared with the leaf width | A leaf 1 pixel wide and 4 high, padding 1, a request of width 2^32-1 and height 1: the padded width wraps to 1, so the test admits the request | The padded size is compared without wrap, so a request larger than the leaf is rejected | not executed | SlotTree.WrappedGuardAdmitsOversizedRequest | SlotTree.FitsPlacesInsideLeaf |
