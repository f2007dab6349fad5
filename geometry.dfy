/**
 * Rectangles of atlas pixels and the split that the slot-tree packer performs on a
 * free leaf (TextureAtlas.cpp, FindSlotForTexture).
 */
module Geometry {

  /** Columns [x, x + width) and rows [y, y + height) of the atlas. */
  datatype Rect = Rect(x: nat, y: nat, width: nat, height: nat)

  /** The pixel (px, py) belongs to r. */
  predicate Contains(r: Rect, px: nat, py: nat) {
    r.x <= px < r.x + r.width && r.y <= py < r.y + r.height
  }

  predicate IsEmpty(r: Rect) {
    r.width == 0 || r.height == 0
  }

  /** a and b share no pixel: one of them is empty or they are separated along an axis. */
  predicate Disjoint(a: Rect, b: Rect) {
    IsEmpty(a) || IsEmpty(b) ||
    a.x + a.width <= b.x || b.x + b.width <= a.x ||
    a.y + a.height <= b.y || b.y + b.height <= a.y
  }

  /** inner lies inside outer, coordinate by coordinate. */
  predicate Within(inner: Rect, outer: Rect) {
    outer.x <= inner.x && inner.x + inner.width <= outer.x + outer.width &&
    outer.y <= inner.y && inner.y + inner.height <= outer.y + outer.height
  }

  /** Disjoint means exactly "no common pixel" (both directions). */
  lemma DisjointIffNoCommonPixel(a: Rect, b: Rect)
    ensures Disjoint(a, b) <==> forall px: nat, py: nat :: !(Contains(a, px, py) && Contains(b, px, py))
  {
    if !Disjoint(a, b) {
      var px := if a.x < b.x then b.x else a.x;
      var py := if a.y < b.y then b.y else a.y;
      assert Contains(a, px, py) && Contains(b, px, py);
    }
  }

  /** Shrinking one side of a disjoint pair keeps it disjoint. */
  lemma WithinKeepsDisjoint(a: Rect, outer: Rect, b: Rect)
    requires Within(a, outer) && Disjoint(outer, b)
    ensures Disjoint(a, b)
  {
  }

  lemma WithinTransitive(a: Rect, b: Rect, c: Rect)
    requires Within(a, b) && Within(b, c)
    ensures Within(a, c)
  {
  }

  const Int32Limit: nat := 0x8000_0000

  /**
   * FMath::Max<int32>(0, Size - Used) on uint32 operands (lines 245-246): the uint32
   * difference is read as an int32, so a difference of 2^31 or more counts as negative
   * and the remainder becomes 0.
   */
  function Remaining(size: nat, used: nat): (r: nat)
    requires used <= size
    ensures r <= size - used
    ensures size - used < Int32Limit ==> r == size - used
  {
    var d := size - used;
    if d < Int32Limit then d else 0
  }

  /** The three pieces a leaf becomes once a padded request is placed in it. */
  datatype Pieces = Pieces(occupied: Rect, left: Rect, right: Rect)

  /**
   * The split of FindSlotForTexture (lines 242-265): the leaf keeps its corner and
   * shrinks to the padded footprint; the remainder goes to two children, cut vertically
   * when the remaining height does not exceed the remaining width, horizontally otherwise.
   */
  function SplitLeaf(leaf: Rect, paddedWidth: nat, paddedHeight: nat): Pieces
    requires paddedWidth <= leaf.width && paddedHeight <= leaf.height
  {
    var remainingWidth := Remaining(leaf.width, paddedWidth);
    var remainingHeight := Remaining(leaf.height, paddedHeight);
    var occupied := Rect(leaf.x, leaf.y, paddedWidth, paddedHeight);
    if remainingHeight <= remainingWidth then
      Pieces(occupied,
             Rect(leaf.x, leaf.y + paddedHeight, paddedWidth, remainingHeight),
             Rect(leaf.x + paddedWidth, leaf.y, remainingWidth, leaf.height))
    else
      Pieces(occupied,
             Rect(leaf.x + paddedWidth, leaf.y, remainingWidth, paddedHeight),
             Rect(leaf.x, leaf.y + paddedHeight, leaf.width, remainingHeight))
  }

  /**
   * The occupied footprint keeps the leaf's corner and has exactly the padded size; the
   * three pieces lie inside the leaf and are pairwise disjoint; the right child spans the
   * leaf's full height after a vertical cut and its full width after a horizontal one.
   */
  lemma SplitPiecesDisjointWithin(leaf: Rect, paddedWidth: nat, paddedHeight: nat)
    requires paddedWidth <= leaf.width && paddedHeight <= leaf.height
    ensures var p := SplitLeaf(leaf, paddedWidth, paddedHeight);
      p.occupied == Rect(leaf.x, leaf.y, paddedWidth, paddedHeight) &&
      Within(p.occupied, leaf) && Within(p.left, leaf) && Within(p.right, leaf) &&
      Disjoint(p.occupied, p.left) && Disjoint(p.occupied, p.right) && Disjoint(p.left, p.right)
    ensures var p := SplitLeaf(leaf, paddedWidth, paddedHeight);
      if Remaining(leaf.height, paddedHeight) <= Remaining(leaf.width, paddedWidth)
      then p.right.height == leaf.height && p.right.x == leaf.x + paddedWidth && p.left.x == leaf.x
      else p.right.width == leaf.width && p.right.y == leaf.y + paddedHeight && p.left.y == leaf.y
  {
  }

  /**
   * When both remainders fit an int32 (so the clamp of Remaining does not fire) the three
   * pieces tile the leaf: a pixel is in the leaf iff it is in exactly one piece.
   */
  lemma SplitTilesLeaf(leaf: Rect, paddedWidth: nat, paddedHeight: nat, px: nat, py: nat)
    requires paddedWidth <= leaf.width && paddedHeight <= leaf.height
    requires leaf.width < Int32Limit && leaf.height < Int32Limit
    ensures var p := SplitLeaf(leaf, paddedWidth, paddedHeight);
      Contains(leaf, px, py) <==>
        Contains(p.occupied, px, py) || Contains(p.left, px, py) || Contains(p.right, px, py)
    ensures var p := SplitLeaf(leaf, paddedWidth, paddedHeight);
      !(Contains(p.occupied, px, py) && Contains(p.left, px, py)) &&
      !(Contains(p.occupied, px, py) && Contains(p.right, px, py)) &&
      !(Contains(p.left, px, py) && Contains(p.right, px, py))
  {
  }

  /**
   * Above the int32 range the clamp loses the remainder: a leaf 2^31 + 1 pixels wide
   * holding a 1-pixel-wide footprint gets a right child of width 0.
   */
  lemma LargeRemainderIsDropped()
    ensures SplitLeaf(Rect(0, 0, Int32Limit + 1, 1), 1, 1).right.width == 0
    ensures !Contains(SplitLeaf(Rect(0, 0, Int32Limit + 1, 1), 1, 1).right, 5, 0)
    ensures Contains(Rect(0, 0, Int32Limit + 1, 1), 5, 0)
  {
  }
}
