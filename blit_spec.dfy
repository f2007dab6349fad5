/**
 * What the blitter of the texture atlas (CopyDataIntoSlot, CopyRow, ZeroRow) puts into
 * a slot: the reference picture of a padded image, stated pixel by pixel.
 */
module BlitSpec {
  import opened PixelLayout
  import opened Geometry

  /** ESlateTextureAtlasPaddingStyle. */
  datatype PaddingStyle = NoPadding | DilateBorder | PadWithZero

  /** The border width in pixels on each side: 0 for NoPadding, 1 otherwise. */
  function PaddingOf(style: PaddingStyle): (p: nat)
    ensures p <= 1 && (p == 0 <==> style == NoPadding)
  {
    if style != NoPadding then 1 else 0
  }

  /** The nearest index of 0 .. n - 1 to v. */
  function Clamp(v: int, n: nat): (r: nat)
    requires n > 0
    ensures r < n
    ensures 0 <= v < n ==> r == v
    ensures v < 0 ==> r == 0
    ensures v >= n ==> r == n - 1
  {
    if v < 0 then 0 else if v >= n then n - 1 else v
  }

  /** Byte k of pixel (col, row) of a source bitmap sourceWidth x sourceHeight. */
  function SourceByte(src: seq<byte>, sourceWidth: nat, sourceHeight: nat, stride: nat,
                      row: nat, col: nat, k: nat): byte
    requires row < sourceHeight && col < sourceWidth && k < stride
    requires ImageSize(sourceWidth, sourceHeight, stride) <= |src|
  {
    OffsetInImage(sourceWidth, sourceHeight, stride, col, row, k);
    src[Offset(sourceWidth, stride, col, row, k)]
  }

  /** What the source demands of an image copied with a style (AddTexture, lines 40-42). */
  predicate CopyableImage(style: PaddingStyle, src: seq<byte>, sourceWidth: nat, sourceHeight: nat, stride: nat) {
    ImageSize(sourceWidth, sourceHeight, stride) <= |src| &&
    (PaddingOf(style) > 0 ==> sourceWidth > 0 && sourceHeight > 0)
  }

  /**
   * The reference picture: byte k of pixel (c, r) of a slot holding the image with its
   * border.  Without padding it is the source pixel itself.  With DilateBorder it is the
   * nearest source pixel (the border repeats the edge rows and columns, corners
   * included).  With PadWithZero the one-pixel frame is zero and the inside is the source
   * shifted by one pixel.
   */
  function SlotByte(style: PaddingStyle, src: seq<byte>, sourceWidth: nat, sourceHeight: nat, stride: nat,
                    r: nat, c: nat, k: nat): byte
    requires CopyableImage(style, src, sourceWidth, sourceHeight, stride)
    requires r < sourceHeight + 2 * PaddingOf(style) && c < sourceWidth + 2 * PaddingOf(style) && k < stride
  {
    match style
    case NoPadding =>
      SourceByte(src, sourceWidth, sourceHeight, stride, r, c, k)
    case DilateBorder =>
      SourceByte(src, sourceWidth, sourceHeight, stride, Clamp(r - 1, sourceHeight), Clamp(c - 1, sourceWidth), k)
    case PadWithZero =>
      if r == 0 || r == sourceHeight + 1 || c == 0 || c == sourceWidth + 1 then 0
      else SourceByte(src, sourceWidth, sourceHeight, stride, r - 1, c - 1, k)
  }

  /**
   * Byte k of pixel c of a destination row that CopyRow writes from source row srcRow
   * (lines 102-121): the source row shifted right by the padding, and with padding a
   * left and right border pixel that repeat the row's first and last pixels
   * (DilateBorder) or are zero (PadWithZero).
   */
  function CopiedRowByte(style: PaddingStyle, src: seq<byte>, sourceWidth: nat, stride: nat,
                         srcRow: nat, c: nat, k: nat): byte
    requires ImageSize(sourceWidth, srcRow + 1, stride) <= |src|
    requires style == DilateBorder ==> sourceWidth > 0
    requires c < sourceWidth + 2 * PaddingOf(style) && k < stride
  {
    var p := PaddingOf(style);
    if p > 0 && (c == 0 || c == sourceWidth + 1) then
      if style == DilateBorder then
        SourceByte(src, sourceWidth, srcRow + 1, stride, srcRow, if c == 0 then 0 else sourceWidth - 1, k)
      else 0
    else SourceByte(src, sourceWidth, srcRow + 1, stride, srcRow, c - p, k)
  }

  /** Reading a source pixel does not depend on how many rows the bitmap is said to have. */
  lemma SourceByteRows(src: seq<byte>, sourceWidth: nat, h1: nat, h2: nat, stride: nat, row: nat, col: nat, k: nat)
    requires row < h1 && row < h2 && col < sourceWidth && k < stride
    requires ImageSize(sourceWidth, h1, stride) <= |src| && ImageSize(sourceWidth, h2, stride) <= |src|
    ensures SourceByte(src, sourceWidth, h1, stride, row, col, k) == SourceByte(src, sourceWidth, h2, stride, row, col, k)
  {
  }

  /**
   * Each real row r of the slot (p <= r < sourceHeight + p) is CopyRow's output for
   * source row r - p: the picture and the row copier agree.
   */
  lemma RealRowMatchesPicture(style: PaddingStyle, src: seq<byte>, sourceWidth: nat, sourceHeight: nat, stride: nat,
                              r: nat, c: nat, k: nat)
    requires CopyableImage(style, src, sourceWidth, sourceHeight, stride)
    requires PaddingOf(style) <= r < sourceHeight + PaddingOf(style)
    requires c < sourceWidth + 2 * PaddingOf(style) && k < stride
    ensures ImageSize(sourceWidth, r - PaddingOf(style) + 1, stride) <= |src|
    ensures SlotByte(style, src, sourceWidth, sourceHeight, stride, r, c, k) ==
            CopiedRowByte(style, src, sourceWidth, stride, r - PaddingOf(style), c, k)
  {
    var p := PaddingOf(style);
    RowsInImage(sourceWidth, r - p + 1, sourceHeight, stride);
  }

  /**
   * The padding rows: with DilateBorder the top row is CopyRow's output for source row 0
   * and the bottom row its output for the last source row; with PadWithZero both are zero.
   */
  lemma PaddingRowsMatchPicture(style: PaddingStyle, src: seq<byte>, sourceWidth: nat, sourceHeight: nat, stride: nat,
                                c: nat, k: nat)
    requires CopyableImage(style, src, sourceWidth, sourceHeight, stride) && style != NoPadding
    requires c < sourceWidth + 2 && k < stride
    ensures ImageSize(sourceWidth, 1, stride) <= |src| && ImageSize(sourceWidth, sourceHeight, stride) <= |src|
    ensures style == DilateBorder ==>
      SlotByte(style, src, sourceWidth, sourceHeight, stride, 0, c, k) == CopiedRowByte(style, src, sourceWidth, stride, 0, c, k) &&
      SlotByte(style, src, sourceWidth, sourceHeight, stride, sourceHeight + 1, c, k) ==
        CopiedRowByte(style, src, sourceWidth, stride, sourceHeight - 1, c, k)
    ensures style == PadWithZero ==>
      SlotByte(style, src, sourceWidth, sourceHeight, stride, 0, c, k) == 0 &&
      SlotByte(style, src, sourceWidth, sourceHeight, stride, sourceHeight + 1, c, k) == 0
  {
    RowsInImage(sourceWidth, 1, sourceHeight, stride);
  }

  // ---------------------------------------------------------------- properties of the picture

  /**
   * DilateBorder: the top padding row repeats the first real row and the bottom one the
   * last; the left and right border pixels of every row repeat that row's first and last
   * pixels; inside the border the slot holds the source shifted by one pixel.
   */
  lemma DilateBorderRepeatsEdges(src: seq<byte>, sourceWidth: nat, sourceHeight: nat, stride: nat)
    requires CopyableImage(DilateBorder, src, sourceWidth, sourceHeight, stride)
    ensures forall c: nat, k: nat :: c < sourceWidth + 2 && k < stride ==>
      SlotByte(DilateBorder, src, sourceWidth, sourceHeight, stride, 0, c, k) ==
        SlotByte(DilateBorder, src, sourceWidth, sourceHeight, stride, 1, c, k) &&
      SlotByte(DilateBorder, src, sourceWidth, sourceHeight, stride, sourceHeight + 1, c, k) ==
        SlotByte(DilateBorder, src, sourceWidth, sourceHeight, stride, sourceHeight, c, k)
    ensures forall r: nat, k: nat :: r < sourceHeight + 2 && k < stride ==>
      SlotByte(DilateBorder, src, sourceWidth, sourceHeight, stride, r, 0, k) ==
        SlotByte(DilateBorder, src, sourceWidth, sourceHeight, stride, r, 1, k) &&
      SlotByte(DilateBorder, src, sourceWidth, sourceHeight, stride, r, sourceWidth + 1, k) ==
        SlotByte(DilateBorder, src, sourceWidth, sourceHeight, stride, r, sourceWidth, k)
    ensures forall r: nat, c: nat, k: nat :: 1 <= r <= sourceHeight && 1 <= c <= sourceWidth && k < stride ==>
      SlotByte(DilateBorder, src, sourceWidth, sourceHeight, stride, r, c, k) ==
        SourceByte(src, sourceWidth, sourceHeight, stride, r - 1, c - 1, k)
  {
  }

  /**
   * PadWithZero: every byte of the one-pixel frame is zero; inside it the slot holds the
   * source shifted by one pixel.
   */
  lemma ZeroPaddingFrame(src: seq<byte>, sourceWidth: nat, sourceHeight: nat, stride: nat)
    requires CopyableImage(PadWithZero, src, sourceWidth, sourceHeight, stride)
    ensures forall r: nat, c: nat, k: nat ::
      r < sourceHeight + 2 && c < sourceWidth + 2 && k < stride &&
      (r == 0 || r == sourceHeight + 1 || c == 0 || c == sourceWidth + 1)
      ==> SlotByte(PadWithZero, src, sourceWidth, sourceHeight, stride, r, c, k) == 0
    ensures forall r: nat, c: nat, k: nat :: 1 <= r <= sourceHeight && 1 <= c <= sourceWidth && k < stride ==>
      SlotByte(PadWithZero, src, sourceWidth, sourceHeight, stride, r, c, k) ==
        SourceByte(src, sourceWidth, sourceHeight, stride, r - 1, c - 1, k)
  {
  }

  // ---------------------------------------------------------------- the whole atlas after a copy

  /** The geometry a copy into slot needs: the slot is inside the canvas and holds the padded image. */
  predicate SlotHoldsImage(style: PaddingStyle, atlasWidth: nat, atlasHeight: nat, slot: Rect) {
    Within(slot, Rect(0, 0, atlasWidth, atlasHeight)) &&
    slot.width >= 2 * PaddingOf(style) && slot.height >= 2 * PaddingOf(style)
  }

  function SourceWidthOf(style: PaddingStyle, slot: Rect): nat
    requires slot.width >= 2 * PaddingOf(style)
  {
    slot.width - 2 * PaddingOf(style)
  }

  function SourceHeightOf(style: PaddingStyle, slot: Rect): nat
    requires slot.height >= 2 * PaddingOf(style)
  {
    slot.height - 2 * PaddingOf(style)
  }

  /** The first `rows` rows of slot in a hold the picture of src. */
  ghost predicate PictureRows(a: seq<byte>, atlasWidth: nat, atlasHeight: nat, stride: nat,
                              style: PaddingStyle, slot: Rect, src: seq<byte>, rows: nat)
    requires SlotHoldsImage(style, atlasWidth, atlasHeight, slot)
    requires CopyableImage(style, src, SourceWidthOf(style, slot), SourceHeightOf(style, slot), stride)
    requires |a| == ImageSize(atlasWidth, atlasHeight, stride)
  {
    forall px: nat, py: nat, k: nat :: Contains(slot, px, py) && py < slot.y + rows && k < stride ==>
      (OffsetInImage(atlasWidth, atlasHeight, stride, px, py, k);
       a[Offset(atlasWidth, stride, px, py, k)] ==
         SlotByte(style, src, SourceWidthOf(style, slot), SourceHeightOf(style, slot), stride,
                  py - slot.y, px - slot.x, k))
  }

  /** Every byte of every pixel outside slot is the same in before and after. */
  ghost predicate OutsideUnchanged(before: seq<byte>, after: seq<byte>, atlasWidth: nat, atlasHeight: nat,
                                   stride: nat, slot: Rect)
    requires |before| == ImageSize(atlasWidth, atlasHeight, stride) && |after| == |before|
  {
    forall px: nat, py: nat, k: nat :: px < atlasWidth && py < atlasHeight && k < stride && !Contains(slot, px, py) ==>
      (OffsetInImage(atlasWidth, atlasHeight, stride, px, py, k);
       after[Offset(atlasWidth, stride, px, py, k)] == before[Offset(atlasWidth, stride, px, py, k)])
  }

  /**
   * after is the atlas buffer before once src has been copied into slot: every byte of a
   * slot pixel is the picture's, and every byte of every other pixel is unchanged.
   */
  ghost predicate CopiedInto(before: seq<byte>, after: seq<byte>, atlasWidth: nat, atlasHeight: nat, stride: nat,
                             style: PaddingStyle, slot: Rect, src: seq<byte>)
    requires SlotHoldsImage(style, atlasWidth, atlasHeight, slot)
    requires CopyableImage(style, src, SourceWidthOf(style, slot), SourceHeightOf(style, slot), stride)
    requires |before| == ImageSize(atlasWidth, atlasHeight, stride)
  {
    |after| == |before| &&
    PictureRows(after, atlasWidth, atlasHeight, stride, style, slot, src, slot.height) &&
    OutsideUnchanged(before, after, atlasWidth, atlasHeight, stride, slot)
  }

  /** One byte of the read-back of NoPaddingReadBack. */
  lemma NoPaddingReadBackByte(before: seq<byte>, after: seq<byte>, atlasWidth: nat, atlasHeight: nat, stride: nat,
                              slot: Rect, src: seq<byte>, r: nat, b: nat)
    requires SlotHoldsImage(NoPadding, atlasWidth, atlasHeight, slot)
    requires CopyableImage(NoPadding, src, slot.width, slot.height, stride)
    requires |before| == ImageSize(atlasWidth, atlasHeight, stride)
    requires CopiedInto(before, after, atlasWidth, atlasHeight, stride, NoPadding, slot, src)
    requires r < slot.height && b < Mul(slot.width, stride)
    ensures var i := Offset(atlasWidth, stride, slot.x, slot.y + r, 0) + b;
      var j := Offset(slot.width, stride, 0, r, 0) + b;
      i < |after| && j < |src| && after[i] == src[j]
  {
    if stride == 0 {
      MulZeroRight(slot.width);
      assert false;
    }
    var c, k := DivideBy(b, stride);
    if c >= slot.width {
      MulMonotone(slot.width, c, stride);
      assert false;
    }
    OffsetShift(atlasWidth, stride, slot.x, slot.y + r, c, k);
    OffsetShift(slot.width, stride, 0, r, c, k);
    assert Contains(slot, slot.x + c, slot.y + r);
    OffsetInImage(atlasWidth, atlasHeight, stride, slot.x + c, slot.y + r, k);
    OffsetInImage(slot.width, slot.height, stride, c, r, k);
  }

  /**
   * Round trip without padding: reading back row r of the slot region, the
   * slot.width * stride bytes from the offset of pixel (slot.x, slot.y + r), gives row r
   * of the source bitmap byte for byte.
   */
  lemma NoPaddingReadBack(before: seq<byte>, after: seq<byte>, atlasWidth: nat, atlasHeight: nat, stride: nat,
                          slot: Rect, src: seq<byte>, r: nat)
    requires SlotHoldsImage(NoPadding, atlasWidth, atlasHeight, slot)
    requires CopyableImage(NoPadding, src, slot.width, slot.height, stride)
    requires |before| == ImageSize(atlasWidth, atlasHeight, stride)
    requires CopiedInto(before, after, atlasWidth, atlasHeight, stride, NoPadding, slot, src)
    requires r < slot.height
    ensures var start := Offset(atlasWidth, stride, slot.x, slot.y + r, 0);
      var srcStart := Offset(slot.width, stride, 0, r, 0);
      var n := Mul(slot.width, stride);
      start + n <= |after| && srcStart + n <= |src| &&
      after[start .. start + n] == src[srcStart .. srcStart + n]
  {
    var n := Mul(slot.width, stride);
    var start := Offset(atlasWidth, stride, slot.x, slot.y + r, 0);
    var srcStart := Offset(slot.width, stride, 0, r, 0);
    OffsetShift(atlasWidth, stride, slot.x, slot.y + r, slot.width, 0);
    RowEndBeforeNextRow(atlasWidth, stride, slot.x + slot.width, slot.y + r, atlasHeight);
    OffsetShift(slot.width, stride, 0, r, slot.width, 0);
    RowEndBeforeNextRow(slot.width, stride, slot.width, r, slot.height);
    var readBack, sourceRow := after[start .. start + n], src[srcStart .. srcStart + n];
    forall j | 0 <= j < n ensures readBack[j] == sourceRow[j] {
      NoPaddingReadBackByte(before, after, atlasWidth, atlasHeight, stride, slot, src, r, j);
    }
  }
}
