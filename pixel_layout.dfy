/**
 * Row-major layout of an image in a flat byte buffer, as the atlas and its source
 * bitmaps use it: byte k of pixel (x, y) of an image `width` pixels wide with `stride`
 * bytes per pixel sits at (y * width + x) * stride + k.
 *
 * Products of two variables are written with Mul, and the arithmetic about addresses
 * goes through the distributivity and monotonicity lemmas below.
 */
module PixelLayout {

  newtype byte = b: int | 0 <= b < 256

  function Mul(a: nat, b: nat): nat {
    a * b
  }

  lemma MulAddLeft(a: nat, b: nat, c: nat)
    ensures Mul(a + b, c) == Mul(a, c) + Mul(b, c)
  {
  }

  lemma MulOneLeft(b: nat)
    ensures Mul(1, b) == b
  {
  }

  lemma MulZeroRight(a: nat)
    ensures Mul(a, 0) == 0
  {
  }

  lemma MulSucc(a: nat, b: nat)
    ensures Mul(a + 1, b) == Mul(a, b) + b
  {
    MulAddLeft(a, 1, b);
  }

  lemma MulMonotone(a: nat, b: nat, c: nat)
    requires a <= b
    ensures Mul(a, c) <= Mul(b, c)
  {
    MulAddLeft(a, b - a, c);
  }

  /** Byte k of the c-th of n pixels of stride bytes lies inside the n pixels' bytes. */
  lemma PixelInSpan(c: nat, n: nat, stride: nat, k: nat)
    requires c < n && k < stride
    ensures Mul(c, stride) + k < Mul(n, stride)
  {
    MulSucc(c, stride);
    MulMonotone(c + 1, n, stride);
  }

  /** Division with remainder: i is q whole groups of n and r < n more. */
  lemma {:induction false} DivideBy(i: nat, n: nat) returns (q: nat, r: nat)
    requires n > 0
    ensures r < n && i == Mul(q, n) + r
    decreases i
  {
    if i < n {
      q, r := 0, i;
    } else {
      var q', r' := DivideBy(i - n, n);
      q, r := q' + 1, r';
      assert Mul(q' + 1, n) == n + Mul(q', n);
    }
  }

  /** Byte k of pixel x of row y lies x * stride + k bytes after the row's first byte. */
  lemma OffsetInRow(width: nat, stride: nat, x: nat, y: nat, k: nat)
    ensures Offset(width, stride, x, y, k) == Mul(Mul(y, width), stride) + Mul(x, stride) + k
  {
    MulAddLeft(Mul(y, width), x, stride);
  }

  function Offset(width: nat, stride: nat, x: nat, y: nat, k: nat): nat {
    Mul(Mul(y, width) + x, stride) + k
  }

  /** The size in bytes of an image width x height: the offset of the row after the last. */
  function ImageSize(width: nat, height: nat, stride: nat): nat {
    Mul(Mul(height, width), stride)
  }

  /** Moving dx pixels right within a row moves dx * stride bytes. */
  lemma OffsetShift(width: nat, stride: nat, x: nat, y: nat, dx: nat, k: nat)
    ensures Offset(width, stride, x + dx, y, k) == Offset(width, stride, x, y, 0) + Mul(dx, stride) + k
  {
    MulAddLeft(Mul(y, width) + x, dx, stride);
  }

  /** Moving dy rows down moves dy * width * stride bytes. */
  lemma OffsetRowShift(width: nat, stride: nat, x: nat, y: nat, dy: nat, k: nat)
    ensures Offset(width, stride, x, y + dy, k) == Offset(width, stride, x, y, k) + Mul(Mul(dy, width), stride)
  {
    MulAddLeft(y, dy, width);
    MulAddLeft(Mul(y, width) + x, Mul(dy, width), stride);
  }

  /** The next pixel starts stride bytes later. */
  lemma OffsetNextPixel(width: nat, stride: nat, x: nat, y: nat)
    ensures Offset(width, stride, x + 1, y, 0) == Offset(width, stride, x, y, 0) + stride
  {
    OffsetShift(width, stride, x, y, 1, 0);
    MulOneLeft(stride);
  }

  /** Every byte of a row comes before the first byte of any later row. */
  lemma OffsetBeforeRow(width: nat, stride: nat, x: nat, y: nat, k: nat, y2: nat)
    requires x < width && k < stride && y < y2
    ensures Offset(width, stride, x, y, k) < Offset(width, stride, 0, y2, 0)
  {
    MulMonotone(y + 1, y2, width);
    assert Mul(y + 1, width) == width + Mul(y, width);
    OffsetNextPixel(width, stride, x, y);
    MulMonotone(Mul(y, width) + x + 1, Mul(y2, width), stride);
  }

  /** Within a row, every byte of a pixel comes before the first byte of any later pixel. */
  lemma OffsetBeforePixel(width: nat, stride: nat, x: nat, y: nat, k: nat, x2: nat)
    requires k < stride && x < x2
    ensures Offset(width, stride, x, y, k) < Offset(width, stride, x2, y, 0)
  {
    OffsetNextPixel(width, stride, x, y);
    MulMonotone(Mul(y, width) + x + 1, Mul(y, width) + x2, stride);
  }

  /** Every byte of an image width x height lies inside its ImageSize bytes. */
  lemma OffsetInImage(width: nat, height: nat, stride: nat, x: nat, y: nat, k: nat)
    requires x < width && y < height && k < stride
    ensures Offset(width, stride, x, y, k) < ImageSize(width, height, stride)
  {
    OffsetBeforeRow(width, stride, x, y, k, height);
  }

  /** An image of fewer rows fits wherever the whole image does. */
  lemma RowsInImage(width: nat, rows: nat, height: nat, stride: nat)
    requires rows <= height
    ensures ImageSize(width, rows, stride) <= ImageSize(width, height, stride)
  {
    MulMonotone(rows, height, width);
    MulMonotone(Mul(rows, width), Mul(height, width), stride);
  }

  /** The end of a row's pixels comes no later than the start of the next row. */
  lemma RowEndBeforeNextRow(width: nat, stride: nat, x1: nat, y: nat, y2: nat)
    requires x1 <= width && y < y2
    ensures Offset(width, stride, x1, y, 0) <= Offset(width, stride, 0, y2, 0)
  {
    MulMonotone(y + 1, y2, width);
    assert Mul(y + 1, width) == width + Mul(y, width);
    MulMonotone(Mul(y, width) + x1, Mul(y2, width), stride);
  }

  lemma RowStartBeforePixel(width: nat, stride: nat, px: nat, py: nat, k: nat)
    ensures Offset(width, stride, 0, py, 0) <= Offset(width, stride, px, py, k)
  {
    MulMonotone(Mul(py, width), Mul(py, width) + px, stride);
  }

  /**
   * The bytes of the pixels x0 <= x < x1 of row y form the contiguous span from the
   * offset of pixel x0 to the offset of pixel x1; any other pixel's bytes lie outside it.
   */
  lemma OffsetOutsideSpan(width: nat, stride: nat, px: nat, py: nat, k: nat, x0: nat, x1: nat, y: nat)
    requires px < width && k < stride && x0 <= x1 <= width
    requires py != y || px < x0 || x1 <= px
    ensures var o := Offset(width, stride, px, py, k);
      o < Offset(width, stride, x0, y, 0) || Offset(width, stride, x1, y, 0) <= o
  {
    if py < y {
      OffsetBeforeRow(width, stride, px, py, k, y);
      RowStartBeforePixel(width, stride, x0, y, 0);
    } else if py > y {
      RowEndBeforeNextRow(width, stride, x1, y, py);
      RowStartBeforePixel(width, stride, px, py, k);
    } else if px < x0 {
      OffsetBeforePixel(width, stride, px, py, k, x0);
    } else {
      OffsetShift(width, stride, x1, y, px - x1, k);
    }
  }
}
