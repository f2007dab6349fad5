/**
 * The row copier of the texture atlas: FCopyRowData, the byte ranges CopyRow and ZeroRow
 * write, and what those writes leave in the destination row.  FMemory::Memcpy and
 * FMemory::Memzero are the byte loops at the end.
 */
module RowCopy {
  import opened PixelLayout
  import opened BlitSpec

  /**
   * FCopyRowData: what one call of CopyRow or ZeroRow works on.  destStart is the byte
   * offset in the atlas buffer of the slot's first pixel (the DestData pointer).
   */
  datatype CopyRowData = CopyRowData(srcData: seq<byte>, destStart: nat, srcTextureWidth: nat,
                                     destTextureWidth: nat, srcRow: nat, destRow: nat, rowWidth: nat)

  /** First byte of the destination row: (destRow * destTextureWidth) * stride past destStart. */
  function RowBegin(d: CopyRowData, stride: nat): nat {
    d.destStart + Mul(Mul(d.destRow, d.destTextureWidth), stride)
  }

  /** One past the last byte of the destination row's rowWidth pixels. */
  function RowEnd(d: CopyRowData, stride: nat): nat {
    RowBegin(d, stride) + Mul(d.rowWidth, stride)
  }

  /** Byte k of pixel c of the destination row. */
  function PixelAddr(d: CopyRowData, stride: nat, c: nat, k: nat): nat {
    RowBegin(d, stride) + Mul(c, stride) + k
  }

  /** The destination row lies inside a buffer of `length` bytes. */
  predicate RowInBuffer(length: nat, stride: nat, d: CopyRowData) {
    RowEnd(d, stride) <= length
  }

  lemma PixelInRow(length: nat, stride: nat, d: CopyRowData, c: nat, k: nat)
    requires RowInBuffer(length, stride, d) && c < d.rowWidth && k < stride
    ensures RowBegin(d, stride) <= PixelAddr(d, stride, c, k) < RowEnd(d, stride) <= length
  {
    PixelInSpan(c, d.rowWidth, stride, k);
  }

  /**
   * What CopyRow reads: the destination row is the source width plus the border, the
   * source row exists, and a dilated border has an edge pixel to repeat.
   */
  predicate RowCopyable(style: PaddingStyle, stride: nat, d: CopyRowData) {
    d.rowWidth == d.srcTextureWidth + 2 * PaddingOf(style) &&
    ImageSize(d.srcTextureWidth, d.srcRow + 1, stride) <= |d.srcData| &&
    (style == DilateBorder ==> d.srcTextureWidth > 0)
  }

  /** Every byte of the destination row of a is what CopyRow writes there. */
  ghost predicate RowCopied(a: seq<byte>, style: PaddingStyle, stride: nat, d: CopyRowData)
    requires RowCopyable(style, stride, d) && RowInBuffer(|a|, stride, d)
  {
    forall c: nat, k: nat :: c < d.rowWidth && k < stride ==>
      (PixelInRow(|a|, stride, d, c, k);
       a[PixelAddr(d, stride, c, k)] == CopiedRowByte(style, d.srcData, d.srcTextureWidth, stride, d.srcRow, c, k))
  }

  /** Every byte of the destination row of a is zero. */
  ghost predicate RowZeroed(a: seq<byte>, stride: nat, d: CopyRowData)
    requires RowInBuffer(|a|, stride, d)
  {
    forall c: nat, k: nat :: c < d.rowWidth && k < stride ==>
      (PixelInRow(|a|, stride, d, c, k);
       a[PixelAddr(d, stride, c, k)] == 0)
  }

  // ---------------------------------------------------------------- byte ranges

  /** The count bytes of a at `at` are the count bytes of src at srcAt. */
  ghost predicate SpanCopied(a: seq<byte>, at: nat, src: seq<byte>, srcAt: nat, count: nat) {
    at + count <= |a| && srcAt + count <= |src| &&
    forall i :: at <= i < at + count ==> a[i] == src[srcAt + (i - at)]
  }

  /** The count bytes of a at `at` are zero. */
  ghost predicate SpanZeroed(a: seq<byte>, at: nat, count: nat) {
    at + count <= |a| &&
    forall i :: at <= i < at + count ==> a[i] == 0
  }

  /** after is before except possibly at the indices lo .. hi - 1. */
  ghost predicate UnchangedOutside(before: seq<byte>, after: seq<byte>, lo: nat, hi: nat) {
    |after| == |before| &&
    forall i :: 0 <= i < |before| && !(lo <= i < hi) ==> after[i] == before[i]
  }

  /** before and after differ at most inside the destination row. */
  ghost predicate OnlyRowChanged(before: seq<byte>, after: seq<byte>, stride: nat, d: CopyRowData) {
    UnchangedOutside(before, after, RowBegin(d, stride), RowEnd(d, stride))
  }

  lemma SpanCopiedKept(a: seq<byte>, a': seq<byte>, at: nat, src: seq<byte>, srcAt: nat, count: nat, lo: nat, hi: nat)
    requires SpanCopied(a, at, src, srcAt, count) && UnchangedOutside(a, a', lo, hi)
    requires hi <= at || at + count <= lo
    ensures SpanCopied(a', at, src, srcAt, count)
  {
  }

  lemma SpanZeroedKept(a: seq<byte>, a': seq<byte>, at: nat, count: nat, lo: nat, hi: nat)
    requires SpanZeroed(a, at, count) && UnchangedOutside(a, a', lo, hi)
    requires hi <= at || at + count <= lo
    ensures SpanZeroed(a', at, count)
  {
  }

  lemma UnchangedOutsideTrans(a0: seq<byte>, a1: seq<byte>, a2: seq<byte>,
                              lo1: nat, hi1: nat, lo2: nat, hi2: nat, lo: nat, hi: nat)
    requires UnchangedOutside(a0, a1, lo1, hi1) && UnchangedOutside(a1, a2, lo2, hi2)
    requires lo <= lo1 && hi1 <= hi && lo <= lo2 && hi2 <= hi
    ensures UnchangedOutside(a0, a2, lo, hi)
  {
  }

  // ---------------------------------------------------------------- the addresses CopyRow computes

  /** The source row's first byte: (srcRow * srcTextureWidth) * stride. */
  function SrcRowAddr(d: CopyRowData, stride: nat): nat {
    Mul(Mul(d.srcRow, d.srcTextureWidth), stride)
  }

  /** The first pixel after the left border: (destRow * destTextureWidth + padding) * stride. */
  function DestDataAddr(d: CopyRowData, stride: nat, padding: nat): nat {
    d.destStart + Mul(Mul(d.destRow, d.destTextureWidth) + padding, stride)
  }

  /** The right border pixel: (rowWidth - 1) * stride past the row's first byte. */
  function RightPixelAddr(d: CopyRowData, stride: nat): nat
    requires d.rowWidth > 0
  {
    RowBegin(d, stride) + Mul(d.rowWidth - 1, stride)
  }

  /** The source row's last pixel: (srcTextureWidth - 1) * stride past its first byte. */
  function LastPixelAddr(d: CopyRowData, stride: nat): nat
    requires d.srcTextureWidth > 0
  {
    SrcRowAddr(d, stride) + Mul(d.srcTextureWidth - 1, stride)
  }

  /** How those addresses sit relative to each other and to the row's span. */
  predicate RowLaidOut(style: PaddingStyle, stride: nat, d: CopyRowData) {
    var p := PaddingOf(style);
    var border := if p > 0 then stride else 0;
    var span := Mul(d.srcTextureWidth, stride);
    DestDataAddr(d, stride, p) == RowBegin(d, stride) + border &&
    RowEnd(d, stride) == DestDataAddr(d, stride, p) + span + border &&
    SrcRowAddr(d, stride) + span <= |d.srcData| &&
    (p > 0 ==> d.rowWidth > 0 && RightPixelAddr(d, stride) == DestDataAddr(d, stride, p) + span) &&
    (style == DilateBorder ==>
       d.srcTextureWidth > 0 && LastPixelAddr(d, stride) + stride == SrcRowAddr(d, stride) + span)
  }

  lemma CopyRowLayout(style: PaddingStyle, stride: nat, d: CopyRowData)
    requires RowCopyable(style, stride, d)
    ensures RowLaidOut(style, stride, d)
  {
    var p := PaddingOf(style);
    var sw := d.srcTextureWidth;
    DestLayout(stride, d, p);
    MulSucc(d.srcRow, sw);
    MulAddLeft(Mul(d.srcRow, sw), sw, stride);
    if style == DilateBorder {
      assert sw - 1 + 1 == sw;
      MulSucc(sw - 1, stride);
    }
  }

  /** The destination side of RowLaidOut, for a border of p pixels (0 or 1). */
  lemma DestLayout(stride: nat, d: CopyRowData, p: nat)
    requires p <= 1 && d.rowWidth == d.srcTextureWidth + 2 * p
    ensures var border := if p > 0 then stride else 0;
      var span := Mul(d.srcTextureWidth, stride);
      DestDataAddr(d, stride, p) == RowBegin(d, stride) + border &&
      RowEnd(d, stride) == DestDataAddr(d, stride, p) + span + border &&
      (p > 0 ==> d.rowWidth > 0 && RightPixelAddr(d, stride) == DestDataAddr(d, stride, p) + span)
  {
    var sw := d.srcTextureWidth;
    var a := Mul(d.destRow, d.destTextureWidth);
    if p == 0 {
      assert a + p == a;
      assert d.rowWidth == sw;
    } else {
      MulSucc(a, stride);
      assert a + p == a + 1;
      assert d.rowWidth == 1 + (sw + 1);
      MulAddLeft(1, sw + 1, stride);
      MulSucc(sw, stride);
      MulOneLeft(stride);
      assert d.rowWidth - 1 == 1 + sw;
      MulAddLeft(1, sw, stride);
    }
  }

  /** CopyRow's first write: the source row at the first pixel after the border. */
  ghost predicate MiddleCopied(a: seq<byte>, style: PaddingStyle, stride: nat, d: CopyRowData) {
    SpanCopied(a, DestDataAddr(d, stride, PaddingOf(style)), d.srcData, SrcRowAddr(d, stride),
               Mul(d.srcTextureWidth, stride))
  }

  /** The left border pixel: the source row's first pixel (DilateBorder) or zero. */
  ghost predicate LeftBorderHolds(a: seq<byte>, style: PaddingStyle, stride: nat, d: CopyRowData) {
    if style == DilateBorder then SpanCopied(a, RowBegin(d, stride), d.srcData, SrcRowAddr(d, stride), stride)
    else SpanZeroed(a, RowBegin(d, stride), stride)
  }

  /** The right border pixel: the source row's last pixel (DilateBorder) or zero. */
  ghost predicate RightBorderHolds(a: seq<byte>, style: PaddingStyle, stride: nat, d: CopyRowData) {
    d.rowWidth > 0 &&
    if style == DilateBorder then
      d.srcTextureWidth > 0 && SpanCopied(a, RightPixelAddr(d, stride), d.srcData, LastPixelAddr(d, stride), stride)
    else SpanZeroed(a, RightPixelAddr(d, stride), stride)
  }

  /**
   * The two border writes keep the middle of the row, and together with the middle write
   * change nothing outside the row.
   */
  lemma BordersWritten(a0: seq<byte>, a1: seq<byte>, a2: seq<byte>, a3: seq<byte>,
                       style: PaddingStyle, stride: nat, d: CopyRowData)
    requires RowLaidOut(style, stride, d) && PaddingOf(style) > 0
    requires MiddleCopied(a1, style, stride, d)
    requires UnchangedOutside(a0, a1, DestDataAddr(d, stride, PaddingOf(style)), DestDataAddr(d, stride, PaddingOf(style)) + Mul(d.srcTextureWidth, stride))
    requires LeftBorderHolds(a2, style, stride, d)
    requires UnchangedOutside(a1, a2, RowBegin(d, stride), RowBegin(d, stride) + stride)
    requires RightBorderHolds(a3, style, stride, d)
    requires UnchangedOutside(a2, a3, RightPixelAddr(d, stride), RightPixelAddr(d, stride) + stride)
    ensures MiddleCopied(a3, style, stride, d) && LeftBorderHolds(a3, style, stride, d) && RightBorderHolds(a3, style, stride, d)
    ensures OnlyRowChanged(a0, a3, stride, d)
  {
    var span := Mul(d.srcTextureWidth, stride);
    var mid := DestDataAddr(d, stride, PaddingOf(style));
    var left, right := RowBegin(d, stride), RightPixelAddr(d, stride);
    SpanCopiedKept(a1, a2, mid, d.srcData, SrcRowAddr(d, stride), span, left, left + stride);
    SpanCopiedKept(a2, a3, mid, d.srcData, SrcRowAddr(d, stride), span, right, right + stride);
    if style == DilateBorder {
      SpanCopiedKept(a2, a3, left, d.srcData, SrcRowAddr(d, stride), stride, right, right + stride);
    } else {
      SpanZeroedKept(a2, a3, left, stride, right, right + stride);
    }
    UnchangedOutsideTrans(a0, a1, a2, mid, mid + span, left, left + stride, RowBegin(d, stride), RowEnd(d, stride));
    UnchangedOutsideTrans(a0, a2, a3, RowBegin(d, stride), RowEnd(d, stride), right, right + stride,
                          RowBegin(d, stride), RowEnd(d, stride));
  }

  /** A pixel of the row between the borders holds the source pixel c - padding. */
  lemma MiddlePixelCopied(a: seq<byte>, style: PaddingStyle, stride: nat, d: CopyRowData, c: nat, k: nat)
    requires RowCopyable(style, stride, d) && RowInBuffer(|a|, stride, d) && RowLaidOut(style, stride, d)
    requires MiddleCopied(a, style, stride, d)
    requires PaddingOf(style) <= c < d.srcTextureWidth + PaddingOf(style) && k < stride
    ensures PixelAddr(d, stride, c, k) < |a|
    ensures a[PixelAddr(d, stride, c, k)] == CopiedRowByte(style, d.srcData, d.srcTextureWidth, stride, d.srcRow, c, k)
  {
    var p := PaddingOf(style);
    var sw := d.srcTextureWidth;
    var mid := DestDataAddr(d, stride, p);
    assert c == p + (c - p);
    MulAddLeft(p, c - p, stride);
    MulOneLeft(stride);
    PixelInSpan(c - p, sw, stride, k);
    OffsetInRow(sw, stride, c - p, d.srcRow, k);
    assert PixelAddr(d, stride, c, k) == mid + (Mul(c - p, stride) + k);
  }

  /** The left border pixel holds the row's first source pixel, or zero. */
  lemma LeftBorderCopied(a: seq<byte>, style: PaddingStyle, stride: nat, d: CopyRowData, k: nat)
    requires RowCopyable(style, stride, d) && RowInBuffer(|a|, stride, d) && RowLaidOut(style, stride, d)
    requires PaddingOf(style) > 0 && LeftBorderHolds(a, style, stride, d) && k < stride
    ensures PixelAddr(d, stride, 0, k) < |a|
    ensures a[PixelAddr(d, stride, 0, k)] == CopiedRowByte(style, d.srcData, d.srcTextureWidth, stride, d.srcRow, 0, k)
  {
    OffsetInRow(d.srcTextureWidth, stride, 0, d.srcRow, k);
  }

  /** The right border pixel holds the row's last source pixel, or zero. */
  lemma RightBorderCopied(a: seq<byte>, style: PaddingStyle, stride: nat, d: CopyRowData, k: nat)
    requires RowCopyable(style, stride, d) && RowInBuffer(|a|, stride, d) && RowLaidOut(style, stride, d)
    requires PaddingOf(style) > 0 && RightBorderHolds(a, style, stride, d) && k < stride
    ensures PixelAddr(d, stride, d.srcTextureWidth + 1, k) < |a|
    ensures a[PixelAddr(d, stride, d.srcTextureWidth + 1, k)] ==
            CopiedRowByte(style, d.srcData, d.srcTextureWidth, stride, d.srcRow, d.srcTextureWidth + 1, k)
  {
    var sw := d.srcTextureWidth;
    assert d.rowWidth - 1 == sw + 1;
    assert PixelAddr(d, stride, sw + 1, k) == RightPixelAddr(d, stride) + k;
    if style == DilateBorder {
      OffsetInRow(sw, stride, sw - 1, d.srcRow, k);
    }
  }

  /**
   * The byte ranges CopyRow writes make up the copied row: the source row's
   * srcTextureWidth * stride bytes at the first pixel after the border, and with a border
   * one pixel at each end of the row, the source row's first and last pixel for
   * DilateBorder and zero for PadWithZero.
   */
  lemma RowCopiedFromSpans(a: seq<byte>, style: PaddingStyle, stride: nat, d: CopyRowData)
    requires RowCopyable(style, stride, d) && RowInBuffer(|a|, stride, d) && RowLaidOut(style, stride, d)
    requires MiddleCopied(a, style, stride, d)
    requires PaddingOf(style) > 0 ==> LeftBorderHolds(a, style, stride, d) && RightBorderHolds(a, style, stride, d)
    ensures RowCopied(a, style, stride, d)
  {
    var p := PaddingOf(style);
    forall c: nat, k: nat | c < d.rowWidth && k < stride
      ensures PixelAddr(d, stride, c, k) < |a|
      ensures a[PixelAddr(d, stride, c, k)] == CopiedRowByte(style, d.srcData, d.srcTextureWidth, stride, d.srcRow, c, k)
    {
      if p > 0 && c == 0 {
        LeftBorderCopied(a, style, stride, d, k);
      } else if p > 0 && c == d.srcTextureWidth + 1 {
        RightBorderCopied(a, style, stride, d, k);
      } else {
        MiddlePixelCopied(a, style, stride, d, c, k);
      }
    }
  }

  /** Clearing the row's rowWidth * stride bytes clears every byte of every pixel of the row. */
  lemma ZeroedRowFromSpan(a: seq<byte>, stride: nat, d: CopyRowData)
    requires SpanZeroed(a, RowBegin(d, stride), Mul(d.rowWidth, stride))
    ensures RowInBuffer(|a|, stride, d) && RowZeroed(a, stride, d)
  {
    forall c: nat, k: nat | c < d.rowWidth && k < stride
      ensures PixelAddr(d, stride, c, k) < |a| && a[PixelAddr(d, stride, c, k)] == 0
    {
      PixelInRow(|a|, stride, d, c, k);
    }
  }

  /** Byte-wise copy of count bytes (FMemory::Memcpy). */
  method Memcpy(dest: array<byte>, destAt: nat, src: seq<byte>, srcAt: nat, count: nat)
    requires destAt + count <= dest.Length && srcAt + count <= |src|
    modifies dest
    ensures SpanCopied(dest[..], destAt, src, srcAt, count)
    ensures UnchangedOutside(old(dest[..]), dest[..], destAt, destAt + count)
  {
    var m := 0;
    while m < count
      invariant m <= count
      invariant forall i :: destAt <= i < destAt + m ==> dest[i] == src[srcAt + (i - destAt)]
      invariant forall i :: 0 <= i < dest.Length && !(destAt <= i < destAt + m) ==> dest[i] == old(dest[i])
    {
      dest[destAt + m] := src[srcAt + m];
      m := m + 1;
    }
  }

  /** Byte-wise clear of count bytes (FMemory::Memzero). */
  method Memzero(dest: array<byte>, destAt: nat, count: nat)
    requires destAt + count <= dest.Length
    modifies dest
    ensures SpanZeroed(dest[..], destAt, count)
    ensures UnchangedOutside(old(dest[..]), dest[..], destAt, destAt + count)
  {
    var m := 0;
    while m < count
      invariant m <= count
      invariant forall i :: destAt <= i < destAt + m ==> dest[i] == 0
      invariant forall i :: 0 <= i < dest.Length && !(destAt <= i < destAt + m) ==> dest[i] == old(dest[i])
    {
      dest[destAt + m] := 0;
      m := m + 1;
    }
  }
}
