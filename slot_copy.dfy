/**
 * CopyDataIntoSlot's view of the atlas buffer: the row parameters it passes for each row
 * of a slot, where those rows lie among the atlas pixels, and how row-by-row copies build
 * up the reference picture of the slot.
 */
module SlotCopy {
  import opened PixelLayout
  import opened Geometry
  import opened BlitSpec
  import opened RowCopy

  /** Byte offset of the slot's first pixel: y * atlasWidth * stride + x * stride. */
  function SlotStart(atlasWidth: nat, stride: nat, slot: Rect): nat {
    Mul(Mul(slot.y, atlasWidth), stride) + Mul(slot.x, stride)
  }

  /** The row parameters CopyDataIntoSlot passes to copy source row srcRow into row destRow of slot. */
  function SlotRowData(atlasWidth: nat, stride: nat, style: PaddingStyle, slot: Rect, src: seq<byte>,
                       srcRow: nat, destRow: nat): CopyRowData
    requires slot.width >= 2 * PaddingOf(style)
  {
    CopyRowData(src, SlotStart(atlasWidth, stride, slot), SourceWidthOf(style, slot), atlasWidth,
                srcRow, destRow, slot.width)
  }

  /** Pixel (c, r) counted from the slot's first pixel (x, y) is pixel (x + c, y + r) of the atlas. */
  lemma SlotPixelAddress(atlasWidth: nat, stride: nat, x: nat, y: nat, c: nat, r: nat, k: nat)
    ensures Mul(Mul(y, atlasWidth), stride) + Mul(x, stride) + Mul(Mul(r, atlasWidth), stride) + Mul(c, stride) + k ==
            Offset(atlasWidth, stride, x + c, y + r, k)
  {
    var a, b := Mul(y, atlasWidth), Mul(r, atlasWidth);
    calc {
      Offset(atlasWidth, stride, x + c, y + r, k);
      Mul(Mul(y + r, atlasWidth) + (x + c), stride) + k;
      { MulAddLeft(y, r, atlasWidth);
        assert Mul(y + r, atlasWidth) + (x + c) == a + (x + (b + c)); }
      Mul(a + (x + (b + c)), stride) + k;
      { MulAddLeft(a, x + (b + c), stride); }
      Mul(a, stride) + Mul(x + (b + c), stride) + k;
      { MulAddLeft(x, b + c, stride); }
      Mul(a, stride) + Mul(x, stride) + Mul(b + c, stride) + k;
      { MulAddLeft(b, c, stride); }
      Mul(a, stride) + Mul(x, stride) + Mul(b, stride) + Mul(c, stride) + k;
    }
  }

  /** Row r of a slot inside the canvas runs from the atlas offset of its first pixel to that of the pixel after its last. */
  lemma SlotRowGeometry(atlasWidth: nat, atlasHeight: nat, stride: nat, style: PaddingStyle, slot: Rect,
                        src: seq<byte>, srcRow: nat, r: nat)
    requires SlotHoldsImage(style, atlasWidth, atlasHeight, slot) && r < slot.height
    ensures var d := SlotRowData(atlasWidth, stride, style, slot, src, srcRow, r);
      RowBegin(d, stride) == Offset(atlasWidth, stride, slot.x, slot.y + r, 0) &&
      RowEnd(d, stride) == Offset(atlasWidth, stride, slot.x + slot.width, slot.y + r, 0) &&
      RowInBuffer(ImageSize(atlasWidth, atlasHeight, stride), stride, d)
  {
    SlotPixelAddress(atlasWidth, stride, slot.x, slot.y, 0, r, 0);
    SlotPixelAddress(atlasWidth, stride, slot.x, slot.y, slot.width, r, 0);
    RowEndBeforeNextRow(atlasWidth, stride, slot.x + slot.width, slot.y + r, atlasHeight);
    assert Offset(atlasWidth, stride, 0, atlasHeight, 0) == ImageSize(atlasWidth, atlasHeight, stride) by {
      assert Mul(atlasHeight, atlasWidth) + 0 == Mul(atlasHeight, atlasWidth);
    }
  }

  /** A source row of the image can be copied into any row of the slot. */
  lemma SlotRowCopyable(atlasWidth: nat, stride: nat, style: PaddingStyle, slot: Rect, src: seq<byte>,
                        srcRow: nat, r: nat)
    requires slot.width >= 2 * PaddingOf(style) && slot.height >= 2 * PaddingOf(style)
    requires CopyableImage(style, src, SourceWidthOf(style, slot), SourceHeightOf(style, slot), stride)
    requires srcRow < SourceHeightOf(style, slot)
    ensures RowCopyable(style, stride, SlotRowData(atlasWidth, stride, style, slot, src, srcRow, r))
  {
    RowsInImage(SourceWidthOf(style, slot), srcRow + 1, SourceHeightOf(style, slot), stride);
  }

  /** Row r of slot in a holds row r of the picture of src. */
  ghost predicate PictureRow(a: seq<byte>, atlasWidth: nat, atlasHeight: nat, stride: nat,
                             style: PaddingStyle, slot: Rect, src: seq<byte>, r: nat)
    requires SlotHoldsImage(style, atlasWidth, atlasHeight, slot)
    requires CopyableImage(style, src, SourceWidthOf(style, slot), SourceHeightOf(style, slot), stride)
    requires |a| == ImageSize(atlasWidth, atlasHeight, stride)
  {
    forall px: nat, py: nat, k: nat :: Contains(slot, px, py) && py == slot.y + r && k < stride ==>
      (OffsetInImage(atlasWidth, atlasHeight, stride, px, py, k);
       a[Offset(atlasWidth, stride, px, py, k)] ==
         SlotByte(style, src, SourceWidthOf(style, slot), SourceHeightOf(style, slot), stride,
                  py - slot.y, px - slot.x, k))
  }

  /** A real row of the slot (not a padding row) that CopyRow wrote holds that row of the picture. */
  lemma CopiedRowIsPictureRow(a: seq<byte>, atlasWidth: nat, atlasHeight: nat, stride: nat,
                              style: PaddingStyle, slot: Rect, src: seq<byte>, r: nat)
    requires SlotHoldsImage(style, atlasWidth, atlasHeight, slot)
    requires CopyableImage(style, src, SourceWidthOf(style, slot), SourceHeightOf(style, slot), stride)
    requires |a| == ImageSize(atlasWidth, atlasHeight, stride)
    requires PaddingOf(style) <= r < slot.height - PaddingOf(style)
    requires var d := SlotRowData(atlasWidth, stride, style, slot, src, r - PaddingOf(style), r);
      RowCopyable(style, stride, d) && RowInBuffer(|a|, stride, d) && RowCopied(a, style, stride, d)
    ensures PictureRow(a, atlasWidth, atlasHeight, stride, style, slot, src, r)
  {
    var p := PaddingOf(style);
    var sw, sh := SourceWidthOf(style, slot), SourceHeightOf(style, slot);
    var d := SlotRowData(atlasWidth, stride, style, slot, src, r - p, r);
    forall px: nat, py: nat, k: nat | Contains(slot, px, py) && py == slot.y + r && k < stride
      ensures Offset(atlasWidth, stride, px, py, k) < |a|
      ensures a[Offset(atlasWidth, stride, px, py, k)] == SlotByte(style, src, sw, sh, stride, py - slot.y, px - slot.x, k)
    {
      var c := px - slot.x;
      assert slot.x + c == px && py - slot.y == r;
      SlotPixelAddress(atlasWidth, stride, slot.x, slot.y, c, r, k);
      OffsetInImage(atlasWidth, atlasHeight, stride, px, py, k);
      assert a[PixelAddr(d, stride, c, k)] == CopiedRowByte(style, src, sw, stride, r - p, c, k);
      RealRowMatchesPicture(style, src, sw, sh, stride, r, c, k);
    }
  }

  /**
   * A padding row (the top one, from source row 0, or the bottom one, from the last
   * source row) that CopyRow (DilateBorder) or ZeroRow (PadWithZero) wrote holds that
   * row of the picture.
   */
  lemma PaddingRowIsPictureRow(a: seq<byte>, atlasWidth: nat, atlasHeight: nat, stride: nat,
                               style: PaddingStyle, slot: Rect, src: seq<byte>, srcRow: nat, r: nat)
    requires style != NoPadding && SlotHoldsImage(style, atlasWidth, atlasHeight, slot)
    requires CopyableImage(style, src, SourceWidthOf(style, slot), SourceHeightOf(style, slot), stride)
    requires |a| == ImageSize(atlasWidth, atlasHeight, stride)
    requires (r == 0 && srcRow == 0) || (r == slot.height - 1 && srcRow == SourceHeightOf(style, slot) - 1)
    requires var d := SlotRowData(atlasWidth, stride, style, slot, src, srcRow, r);
      RowCopyable(style, stride, d) && RowInBuffer(|a|, stride, d) &&
      (style == DilateBorder ==> RowCopied(a, style, stride, d)) &&
      (style == PadWithZero ==> RowZeroed(a, stride, d))
    ensures PictureRow(a, atlasWidth, atlasHeight, stride, style, slot, src, r)
  {
    var sw, sh := SourceWidthOf(style, slot), SourceHeightOf(style, slot);
    var d := SlotRowData(atlasWidth, stride, style, slot, src, srcRow, r);
    forall px: nat, py: nat, k: nat | Contains(slot, px, py) && py == slot.y + r && k < stride
      ensures Offset(atlasWidth, stride, px, py, k) < |a|
      ensures a[Offset(atlasWidth, stride, px, py, k)] == SlotByte(style, src, sw, sh, stride, py - slot.y, px - slot.x, k)
    {
      var c := px - slot.x;
      assert slot.x + c == px && py - slot.y == r;
      SlotPixelAddress(atlasWidth, stride, slot.x, slot.y, c, r, k);
      OffsetInImage(atlasWidth, atlasHeight, stride, px, py, k);
      PaddingRowsMatchPicture(style, src, sw, sh, stride, c, k);
      if style == DilateBorder {
        assert a[PixelAddr(d, stride, c, k)] == CopiedRowByte(style, src, sw, stride, srcRow, c, k);
      } else {
        assert a[PixelAddr(d, stride, c, k)] == 0;
      }
    }
  }

  /**
   * Writing row r of the slot extends the picture by that row: the rows above keep their
   * bytes, and so does every pixel outside the slot.
   */
  lemma RowStep(before: seq<byte>, a0: seq<byte>, a1: seq<byte>, atlasWidth: nat, atlasHeight: nat, stride: nat,
                style: PaddingStyle, slot: Rect, src: seq<byte>, srcRow: nat, r: nat)
    requires SlotHoldsImage(style, atlasWidth, atlasHeight, slot) && r < slot.height
    requires CopyableImage(style, src, SourceWidthOf(style, slot), SourceHeightOf(style, slot), stride)
    requires |before| == ImageSize(atlasWidth, atlasHeight, stride) && |a0| == |before|
    requires PictureRows(a0, atlasWidth, atlasHeight, stride, style, slot, src, r)
    requires OutsideUnchanged(before, a0, atlasWidth, atlasHeight, stride, slot)
    requires OnlyRowChanged(a0, a1, stride, SlotRowData(atlasWidth, stride, style, slot, src, srcRow, r))
    requires PictureRow(a1, atlasWidth, atlasHeight, stride, style, slot, src, r)
    ensures PictureRows(a1, atlasWidth, atlasHeight, stride, style, slot, src, r + 1)
    ensures OutsideUnchanged(before, a1, atlasWidth, atlasHeight, stride, slot)
  {
    SlotRowGeometry(atlasWidth, atlasHeight, stride, style, slot, src, srcRow, r);
    forall px: nat, py: nat, k: nat | px < atlasWidth && py < atlasHeight && k < stride &&
                                      (!Contains(slot, px, py) || py < slot.y + r)
      ensures Offset(atlasWidth, stride, px, py, k) < |a0|
      ensures a1[Offset(atlasWidth, stride, px, py, k)] == a0[Offset(atlasWidth, stride, px, py, k)]
    {
      OffsetInImage(atlasWidth, atlasHeight, stride, px, py, k);
      OffsetOutsideSpan(atlasWidth, stride, px, py, k, slot.x, slot.x + slot.width, slot.y + r);
    }
  }
}
