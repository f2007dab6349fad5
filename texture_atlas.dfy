/**
 * FSlateTextureAtlas: a fixed-size CPU-side texture atlas.  Rectangles are allocated
 * from a binary tree of slots by first-fit search with a two-way split of the chosen
 * leaf, and each allocated rectangle receives a copy of the caller's bitmap, with a
 * one-pixel border when the atlas pads its slots.
 *
 * The slot tree lives in an arena (`slots`): a slot pointer is an index, a split appends
 * the two new children, and `live` is the set of arena entries still allocated.
 */
module Atlas {
  import opened Options
  import opened Geometry
  import opened SlotTree
  import opened PixelLayout
  import opened BlitSpec
  import opened RowCopy
  import opened SlotCopy

  /** Every recorded allocation is a distinct slot that has been split (so is no longer free). */
  ghost predicate PlacementsRecorded(s: seq<Slot>, placed: seq<nat>) {
    (forall m :: 0 <= m < |placed| ==> placed[m] < |s| && !IsLeaf(s[placed[m]])) &&
    (forall m, n :: 0 <= m < n < |placed| ==> placed[m] != placed[n])
  }

  /**
   * Allocating leaf j records a new placement distinct from every earlier one and leaves
   * every earlier placement's slot as it was.
   */
  lemma PlaceKeepsPlacements(s: seq<Slot>, placed: seq<nat>, j: nat, inWidth: nat, inHeight: nat, padding: nat)
    requires PlacementsRecorded(s, placed)
    requires j < |s| && IsLeaf(s[j]) && Fits(s[j], inWidth, inHeight, padding)
    ensures var s' := Place(s, j, inWidth, inHeight, padding);
      PlacementsRecorded(s', placed + [j]) &&
      s'[j].Bounds() == Rect(s[j].x, s[j].y, inWidth + 2 * padding, inHeight + 2 * padding) &&
      forall m :: 0 <= m < |placed| ==> s'[placed[m]] == s[placed[m]]
  {
    PlaceFacts(s, j, inWidth, inHeight, padding);
    SplitPiecesDisjointWithin(s[j].Bounds(), inWidth + 2 * padding, inHeight + 2 * padding);
  }

  /**
   * The atlas's bookkeeping of its slot arena: the slots form a well-formed tree inside
   * the canvas, exactly the arena's entries are allocated, and the placements are recorded.
   */
  ghost predicate ArenaInvariant(s: seq<Slot>, parent: seq<nat>, placed: seq<nat>, live: set<nat>,
                                 atlasWidth: nat, atlasHeight: nat) {
    WellFormed(s, parent, atlasWidth, atlasHeight) &&
    (forall j: nat :: j in live <==> j < |s|) &&
    PlacementsRecorded(s, placed)
  }

  lemma PlaceKeepsArenaInvariant(s: seq<Slot>, parent: seq<nat>, placed: seq<nat>, live: set<nat>,
                                 atlasWidth: nat, atlasHeight: nat, j: nat, inWidth: nat, inHeight: nat, padding: nat)
    requires ArenaInvariant(s, parent, placed, live, atlasWidth, atlasHeight)
    requires j < |s| && IsLeaf(s[j]) && Fits(s[j], inWidth, inHeight, padding)
    ensures var s' := Place(s, j, inWidth, inHeight, padding);
      ArenaInvariant(s', parent + [j, j], placed + [j], live + {|s|, |s| + 1}, atlasWidth, atlasHeight) &&
      |s'| == |s| + 2 &&
      s'[j].Bounds() == Rect(s[j].x, s[j].y, inWidth + 2 * padding, inHeight + 2 * padding) &&
      forall m :: 0 <= m < |placed| ==> s'[placed[m]] == s[placed[m]]
  {
    PlacePreservesWellFormed(s, parent, atlasWidth, atlasHeight, j, inWidth, inHeight, padding);
    PlaceKeepsPlacements(s, placed, j, inWidth, inHeight, padding);
  }

  /**
   * One allocation step on the arena: when the search found leaf r, the arena is s0 with
   * r split around the request, r's two new children live with parent r, and r is
   * recorded as placed; when it found nothing, nothing changed.
   */
  ghost predicate Allocated(s0: seq<Slot>, parent0: seq<nat>, placed0: seq<nat>, live0: set<nat>,
                            s: seq<Slot>, parent: seq<nat>, placed: seq<nat>, live: set<nat>,
                            r: Option<nat>, inWidth: nat, inHeight: nat, padding: nat) {
    match r
    case Some(j) =>
      j < |s0| && IsLeaf(s0[j]) && Fits(s0[j], inWidth, inHeight, padding) &&
      s == Place(s0, j, inWidth, inHeight, padding) && parent == parent0 + [j, j] &&
      placed == placed0 + [j] && live == live0 + {|s0|, |s0| + 1}
    case None =>
      s == s0 && parent == parent0 && placed == placed0 && live == live0
  }

  /**
   * An allocation step keeps the arena invariant, gives the allocated slot its padded
   * size at its own corner, and leaves every earlier placement as it was.
   */
  lemma AllocatedKeepsArena(s0: seq<Slot>, parent0: seq<nat>, placed0: seq<nat>, live0: set<nat>,
                            s: seq<Slot>, parent: seq<nat>, placed: seq<nat>, live: set<nat>,
                            r: Option<nat>, inWidth: nat, inHeight: nat, padding: nat,
                            atlasWidth: nat, atlasHeight: nat)
    requires ArenaInvariant(s0, parent0, placed0, live0, atlasWidth, atlasHeight)
    requires Allocated(s0, parent0, placed0, live0, s, parent, placed, live, r, inWidth, inHeight, padding)
    ensures ArenaInvariant(s, parent, placed, live, atlasWidth, atlasHeight)
    ensures |s| >= |s0|
    ensures r.Some? ==>
      r.value < |s| &&
      s[r.value].Bounds() == Rect(s0[r.value].x, s0[r.value].y, inWidth + 2 * padding, inHeight + 2 * padding)
    ensures forall m :: 0 <= m < |placed0| ==> placed0[m] < |s| && s[placed0[m]] == s0[placed0[m]]
  {
    if r.Some? {
      PlaceKeepsArenaInvariant(s0, parent0, placed0, live0, atlasWidth, atlasHeight, r.value, inWidth, inHeight, padding);
    }
  }

  class TextureAtlas {
    const atlasWidth: nat
    const atlasHeight: nat
    /** Bytes per pixel. */
    const stride: nat
    const paddingStyle: PaddingStyle

    var atlasData: array<byte>
    var slots: seq<Slot>
    var rootNode: Option<nat>
    var live: set<nat>
    var needsUpdate: bool

    /** The parent of each non-root slot. */
    ghost var parent: seq<nat>
    /** The slots returned by past allocations, in order. */
    ghost var placed: seq<nat>

    /** Border width of every allocation: one pixel unless the style is NoPadding. */
    function Padding(): nat {
      PaddingOf(paddingStyle)
    }

    ghost predicate Valid()
      reads this
    {
      atlasWidth < Int32Limit && atlasHeight < Int32Limit && ImageSize(atlasWidth, atlasHeight, stride) < Int32Limit &&
      ArenaInvariant(slots, parent, placed, live, atlasWidth, atlasHeight) &&
      (rootNode.None? ==> slots == [] && atlasData.Length == 0) &&
      (rootNode.Some? ==> rootNode.value == 0 && |slots| > 0 &&
                          atlasData.Length == ImageSize(atlasWidth, atlasHeight, stride))
    }

    /** A new atlas has no slot tree and no pixel data until InitAtlasData. */
    constructor (width: nat, height: nat, bytesPerPixel: nat, style: PaddingStyle)
      requires width < Int32Limit && height < Int32Limit && ImageSize(width, height, bytesPerPixel) < Int32Limit
      ensures Valid()
      ensures atlasWidth == width && atlasHeight == height && stride == bytesPerPixel && paddingStyle == style
      ensures rootNode.None? && atlasData.Length == 0 && !needsUpdate && placed == []
    {
      atlasWidth := width;
      atlasHeight := height;
      stride := bytesPerPixel;
      paddingStyle := style;
      atlasData := new byte[0];
      slots := [];
      rootNode := None;
      live := {};
      needsUpdate := false;
      parent := [];
      placed := [];
    }

    /** One free root slot covering the whole atlas, and a zeroed pixel buffer. */
    method InitAtlasData()
      requires Valid() && rootNode.None? && atlasData.Length == 0
      modifies this
      ensures Valid()
      ensures rootNode == Some(0) && slots == [Slot(0, 0, atlasWidth, atlasHeight, Padding(), None, None)]
      ensures fresh(atlasData) && atlasData.Length == ImageSize(atlasWidth, atlasHeight, stride)
      ensures forall i :: 0 <= i < atlasData.Length ==> atlasData[i] == 0
      ensures needsUpdate == old(needsUpdate) && placed == []
    {
      slots := [Slot(0, 0, atlasWidth, atlasHeight, Padding(), None, None)];
      parent := [0];
      live := {0};
      placed := [];
      rootNode := Some(0);
      atlasData := new byte[ImageSize(atlasWidth, atlasHeight, stride)](_ => 0);
    }

    /** Frees startNode and every slot below it, children first. */
    method DestroyNodes(startNode: nat)
      requires TreeShaped(slots, parent) && startNode < |slots|
      requires Subtree(slots, startNode) <= live
      modifies this`live
      ensures live == old(live) - Subtree(slots, startNode)
      decreases |slots| - startNode
    {
      var t := slots[startNode];
      if t.left.Some? {
        DestroyNodes(t.left.value);
      }
      if t.right.Some? {
        if t.left.Some? {
          ChildSubtreesDisjoint(slots, parent, startNode);
        }
        DestroyNodes(t.right.value);
      }
      live := live - {startNode};
    }

    /** Frees the whole slot tree and the pixel buffer. */
    method Empty()
      requires Valid() && rootNode.Some?
      modifies this
      ensures Valid()
      ensures rootNode.None? && slots == [] && live == {} && atlasData.Length == 0 && placed == []
      ensures needsUpdate == old(needsUpdate)
    {
      SubtreeOfRoot(slots, parent);
      DestroyNodes(rootNode.value);
      assert live == {} by {
        forall j: nat | j in live ensures false {
        }
      }
      rootNode := None;
      atlasData := new byte[0];
      slots := [];
      parent := [];
      placed := [];
    }

    method MarkTextureDirty()
      modifies this`needsUpdate
      ensures needsUpdate
    {
      needsUpdate := true;
    }

    /**
     * Left-first search below start for a free leaf that fits the padded request; the
     * leaf found is split around the request and shrunk to it.
     */
    method FindSlotInSubtree(start: nat, inWidth: nat, inHeight: nat) returns (r: Option<nat>)
      requires ChildrenAfter(slots) && start < |slots|
      modifies this
      ensures r == FindLeaf(old(slots), start, inWidth, inHeight, Padding())
      ensures Allocated(old(slots), old(parent), old(placed), old(live), slots, parent, placed, live,
                        r, inWidth, inHeight, Padding())
      ensures rootNode == old(rootNode) && needsUpdate == old(needsUpdate) && atlasData == old(atlasData)
      decreases |slots| - start
    {
      var t := slots[start];
      if t.left.Some? || t.right.Some? {
        if t.left.Some? {
          var newSlot := FindSlotInSubtree(t.left.value, inWidth, inHeight);
          if newSlot.Some? {
            return newSlot;
          }
        }
        if t.right.Some? {
          var newSlot := FindSlotInSubtree(t.right.value, inWidth, inHeight);
          if newSlot.Some? {
            return newSlot;
          }
        }
        return None;
      }

      var padding := Padding();
      var totalPadding := padding * 2;
      if inWidth + totalPadding > t.width || inHeight + totalPadding > t.height {
        return None;
      }

      var paddedWidth := inWidth + totalPadding;
      var paddedHeight := inHeight + totalPadding;
      var remainingWidth := Remaining(t.width, paddedWidth);
      var remainingHeight := Remaining(t.height, paddedHeight);
      var left, right;
      if remainingHeight <= remainingWidth {
        // split vertically
        left := Slot(t.x, t.y + paddedHeight, paddedWidth, remainingHeight, padding, None, None);
        right := Slot(t.x + paddedWidth, t.y, remainingWidth, t.height, padding, None, None);
      } else {
        // split horizontally
        left := Slot(t.x + paddedWidth, t.y, remainingWidth, paddedHeight, padding, None, None);
        right := Slot(t.x, t.y + paddedHeight, t.width, remainingHeight, padding, None, None);
      }
      var n := |slots|;
      slots := slots + [left, right];
      live := live + {n, n + 1};
      parent := parent + [start, start];
      // shrink the slot to the area it now occupies
      slots := slots[start := t.(width := paddedWidth, height := paddedHeight, left := Some(n), right := Some(n + 1))];
      placed := placed + [start];
      r := Some(start);
    }

    /**
     * Allocates room for an inWidth x inHeight texture plus its border: the first free
     * leaf in left-first order that fits, shrunk to the padded size at its own corner,
     * with the rest of the leaf handed to two new free children.  No slot allocated
     * before moves or changes.
     */
    method FindSlotForTexture(inWidth: nat, inHeight: nat) returns (r: Option<nat>)
      requires Valid() && rootNode.Some?
      modifies this
      ensures Valid()
      ensures r == FindLeaf(old(slots), 0, inWidth, inHeight, Padding())
      ensures Allocated(old(slots), old(parent), old(placed), old(live), slots, parent, placed, live,
                        r, inWidth, inHeight, Padding())
      ensures r.Some? ==>
        r.value < |slots| &&
        slots[r.value].Bounds() ==
          Rect(old(slots)[r.value].x, old(slots)[r.value].y, inWidth + 2 * Padding(), inHeight + 2 * Padding())
      ensures forall m :: 0 <= m < |old(placed)| ==>
        old(placed)[m] < |slots| && slots[old(placed)[m]] == old(slots)[old(placed)[m]]
      ensures rootNode == old(rootNode) && needsUpdate == old(needsUpdate) && atlasData == old(atlasData)
    {
      ghost var s0, parent0, placed0, live0 := slots, parent, placed, live;
      r := FindSlotInSubtree(rootNode.value, inWidth, inHeight);
      AllocatedKeepsArena(s0, parent0, placed0, live0, slots, parent, placed, live,
                          r, inWidth, inHeight, Padding(), atlasWidth, atlasHeight);
    }

    /**
     * Copies source row srcRow into destination row destRow at full width, and with a
     * border writes its two border pixels: copies of the row's first and last pixel for
     * DilateBorder, zero for PadWithZero.  Nothing outside the destination row changes.
     */
    method CopyRow(copyRowData: CopyRowData)
      requires RowCopyable(paddingStyle, stride, copyRowData) && RowInBuffer(atlasData.Length, stride, copyRowData)
      modifies atlasData
      ensures RowCopied(atlasData[..], paddingStyle, stride, copyRowData)
      ensures OnlyRowChanged(old(atlasData[..]), atlasData[..], stride, copyRowData)
    {
      var data := copyRowData.srcData;
      var start := copyRowData.destStart;
      var sourceWidth := copyRowData.srcTextureWidth;
      var destWidth := copyRowData.destTextureWidth;
      var srcRow := copyRowData.srcRow;
      var destRow := copyRowData.destRow;
      var padding := Padding();
      CopyRowLayout(paddingStyle, stride, copyRowData);
      ghost var a0 := atlasData[..];

      var sourceDataAddr := Mul(Mul(srcRow, sourceWidth), stride);
      var destDataAddr := start + Mul(Mul(destRow, destWidth) + padding, stride);
      assert sourceDataAddr == SrcRowAddr(copyRowData, stride);
      assert destDataAddr == DestDataAddr(copyRowData, stride, PaddingOf(paddingStyle));
      Memcpy(atlasData, destDataAddr, data, sourceDataAddr, Mul(sourceWidth, stride));

      if padding > 0 {
        ghost var a1 := atlasData[..];
        ghost var a2;
        var destPaddingPixelLeft := start + Mul(Mul(destRow, destWidth), stride);
        var destPaddingPixelRight := destPaddingPixelLeft + Mul(copyRowData.rowWidth - 1, stride);
        assert destPaddingPixelLeft == RowBegin(copyRowData, stride);
        assert destPaddingPixelRight == RightPixelAddr(copyRowData, stride);
        if paddingStyle == DilateBorder {
          var firstPixel := sourceDataAddr;
          var lastPixel := sourceDataAddr + Mul(sourceWidth - 1, stride);
          assert lastPixel == LastPixelAddr(copyRowData, stride);
          Memcpy(atlasData, destPaddingPixelLeft, data, firstPixel, stride);
          a2 := atlasData[..];
          Memcpy(atlasData, destPaddingPixelRight, data, lastPixel, stride);
        } else {
          Memzero(atlasData, destPaddingPixelLeft, stride);
          a2 := atlasData[..];
          Memzero(atlasData, destPaddingPixelRight, stride);
        }
        BordersWritten(a0, a1, a2, atlasData[..], paddingStyle, stride, copyRowData);
      }
      RowCopiedFromSpans(atlasData[..], paddingStyle, stride, copyRowData);
    }

    /** Clears the rowWidth pixels of destination row destRow; nothing else changes. */
    method ZeroRow(copyRowData: CopyRowData)
      requires RowInBuffer(atlasData.Length, stride, copyRowData)
      modifies atlasData
      ensures RowZeroed(atlasData[..], stride, copyRowData)
      ensures OnlyRowChanged(old(atlasData[..]), atlasData[..], stride, copyRowData)
    {
      var destWidth := copyRowData.destTextureWidth;
      var destRow := copyRowData.destRow;
      var destDataAddr := copyRowData.destStart + Mul(Mul(destRow, destWidth), stride);
      Memzero(atlasData, destDataAddr, Mul(copyRowData.rowWidth, stride));
      ZeroedRowFromSpan(atlasData[..], stride, copyRowData);
    }

    /**
     * Copies the bitmap data into slot row by row: with a border, the top padding row
     * first (a copy of source row 0 for DilateBorder, zero for PadWithZero), then every
     * source row, then the bottom padding row (a copy of the last source row, or zero).
     * Afterwards the slot holds the picture of data and every other pixel is unchanged.
     */
    method CopyDataIntoSlot(slot: Rect, data: seq<byte>)
      requires atlasData.Length == ImageSize(atlasWidth, atlasHeight, stride)
      requires SlotHoldsImage(paddingStyle, atlasWidth, atlasHeight, slot)
      requires CopyableImage(paddingStyle, data, SourceWidthOf(paddingStyle, slot), SourceHeightOf(paddingStyle, slot), stride)
      modifies atlasData
      ensures CopiedInto(old(atlasData[..]), atlasData[..], atlasWidth, atlasHeight, stride, paddingStyle, slot, data)
    {
      ghost var before := atlasData[..];
      var start := Mul(Mul(slot.y, atlasWidth), stride) + Mul(slot.x, stride);
      var padding := Padding();
      var allPadding := padding * 2;
      var sourceWidth := slot.width - allPadding;
      var sourceHeight := slot.height - allPadding;

      if padding > 0 {
        // the first source row (or zero) into the top padding row
        var copyRowData := CopyRowData(data, start, sourceWidth, atlasWidth, 0, 0, slot.width);
        CopyPaddingRow(slot, data, copyRowData, before);
      }

      var row := padding;
      while row < slot.height - padding
        invariant padding <= row <= slot.height - padding
        invariant PictureRows(atlasData[..], atlasWidth, atlasHeight, stride, paddingStyle, slot, data, row)
        invariant OutsideUnchanged(before, atlasData[..], atlasWidth, atlasHeight, stride, slot)
      {
        var copyRowData := CopyRowData(data, start, sourceWidth, atlasWidth, row - padding, row, slot.width);
        assert copyRowData == SlotRowData(atlasWidth, stride, paddingStyle, slot, data, row - padding, row);
        SlotRowGeometry(atlasWidth, atlasHeight, stride, paddingStyle, slot, data, row - padding, row);
        SlotRowCopyable(atlasWidth, stride, paddingStyle, slot, data, row - padding, row);
        ghost var a0 := atlasData[..];
        CopyRow(copyRowData);
        CopiedRowIsPictureRow(atlasData[..], atlasWidth, atlasHeight, stride, paddingStyle, slot, data, row);
        RowStep(before, a0, atlasData[..], atlasWidth, atlasHeight, stride, paddingStyle, slot, data, row - padding, row);
        row := row + 1;
      }

      if padding > 0 {
        // the last source row (or zero) into the bottom padding row
        var copyRowData := CopyRowData(data, start, sourceWidth, atlasWidth, sourceHeight - 1, slot.height - padding, slot.width);
        CopyPaddingRow(slot, data, copyRowData, before);
      }
    }

    /**
     * One padding row of CopyDataIntoSlot, the top one (from source row 0) or the bottom
     * one (from the last source row): CopyRow for DilateBorder, ZeroRow for PadWithZero.
     * The picture grows by that row.
     */
    method CopyPaddingRow(slot: Rect, data: seq<byte>, copyRowData: CopyRowData, ghost before: seq<byte>)
      requires atlasData.Length == ImageSize(atlasWidth, atlasHeight, stride) && |before| == atlasData.Length
      requires paddingStyle != NoPadding && SlotHoldsImage(paddingStyle, atlasWidth, atlasHeight, slot)
      requires CopyableImage(paddingStyle, data, SourceWidthOf(paddingStyle, slot), SourceHeightOf(paddingStyle, slot), stride)
      requires var sh := SourceHeightOf(paddingStyle, slot);
        (copyRowData == SlotRowData(atlasWidth, stride, paddingStyle, slot, data, 0, 0) &&
         atlasData[..] == before) ||
        (copyRowData == SlotRowData(atlasWidth, stride, paddingStyle, slot, data, sh - 1, slot.height - 1) &&
         PictureRows(atlasData[..], atlasWidth, atlasHeight, stride, paddingStyle, slot, data, slot.height - 1) &&
         OutsideUnchanged(before, atlasData[..], atlasWidth, atlasHeight, stride, slot))
      modifies atlasData
      ensures PictureRows(atlasData[..], atlasWidth, atlasHeight, stride, paddingStyle, slot, data, copyRowData.destRow + 1)
      ensures OutsideUnchanged(before, atlasData[..], atlasWidth, atlasHeight, stride, slot)
    {
      var r, srcRow := copyRowData.destRow, copyRowData.srcRow;
      SlotRowGeometry(atlasWidth, atlasHeight, stride, paddingStyle, slot, data, srcRow, r);
      SlotRowCopyable(atlasWidth, stride, paddingStyle, slot, data, srcRow, r);
      ghost var a0 := atlasData[..];
      if paddingStyle == DilateBorder {
        CopyRow(copyRowData);
      } else {
        ZeroRow(copyRowData);
      }
      PaddingRowIsPictureRow(atlasData[..], atlasWidth, atlasHeight, stride, paddingStyle, slot, data, srcRow, r);
      RowStep(before, a0, atlasData[..], atlasWidth, atlasHeight, stride, paddingStyle, slot, data, srcRow, r);
    }

    /**
     * Allocates a slot for a textureWidth x textureHeight bitmap and copies the bitmap
     * into it; a zero-sized bitmap gets a slot but no copy.  A copy marks the atlas dirty.
     */
    method AddTexture(textureWidth: nat, textureHeight: nat, data: seq<byte>) returns (newSlot: Option<nat>)
      requires Valid() && rootNode.Some?
      requires ImageSize(textureWidth, textureHeight, stride) <= |data|
      modifies this, atlasData
      ensures Valid()
      ensures newSlot == FindLeaf(old(slots), 0, textureWidth, textureHeight, Padding())
      ensures Allocated(old(slots), old(parent), old(placed), old(live), slots, parent, placed, live,
                        newSlot, textureWidth, textureHeight, Padding())
      ensures newSlot.Some? ==>
        newSlot.value < |slots| &&
        slots[newSlot.value].Bounds() ==
          Rect(old(slots)[newSlot.value].x, old(slots)[newSlot.value].y,
               textureWidth + 2 * Padding(), textureHeight + 2 * Padding()) &&
        SlotHoldsImage(paddingStyle, atlasWidth, atlasHeight, slots[newSlot.value].Bounds())
      ensures rootNode == old(rootNode) && atlasData == old(atlasData)
      ensures if newSlot.Some? && textureWidth > 0 && textureHeight > 0 then
          CopiedInto(old(atlasData[..]), atlasData[..], atlasWidth, atlasHeight, stride, paddingStyle,
                     slots[newSlot.value].Bounds(), data) &&
          needsUpdate
        else
          atlasData[..] == old(atlasData[..]) && needsUpdate == old(needsUpdate)
    {
      newSlot := FindSlotForTexture(textureWidth, textureHeight);
      if newSlot.Some? {
        PlacementsDisjointInside();
        assert placed[|placed| - 1] == newSlot.value;
      }
      if newSlot.Some? && textureWidth > 0 && textureHeight > 0 {
        CopyDataIntoSlot(slots[newSlot.value].Bounds(), data);
        MarkTextureDirty();
      }
    }

    /** The rectangles of all past allocations lie in the atlas and never overlap. */
    lemma PlacementsDisjointInside()
      requires Valid()
      ensures forall m :: 0 <= m < |placed| ==>
        Within(slots[placed[m]].Bounds(), Rect(0, 0, atlasWidth, atlasHeight))
      ensures forall m, n :: 0 <= m < |placed| && 0 <= n < |placed| && m != n ==>
        Disjoint(slots[placed[m]].Bounds(), slots[placed[n]].Bounds())
    {
      forall m, n | 0 <= m < |placed| && 0 <= n < |placed| && m != n
        ensures Disjoint(slots[placed[m]].Bounds(), slots[placed[n]].Bounds())
      {
        if m < n {
          assert placed[m] != placed[n];
        } else {
          assert placed[n] != placed[m];
        }
      }
    }
  }
}
