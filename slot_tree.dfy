/**
 * The slot tree of the texture atlas, held in an arena: node i of the tree is slots[i]
 * and a child link is the index of the child.  A split appends the two new children at
 * the end of the arena, so every child comes after its parent.
 */
module SlotTree {
  import opened Options
  import opened Geometry

  /** FAtlasedTextureSlot: its rectangle, the padding it was created with, and its children. */
  datatype Slot = Slot(x: nat, y: nat, width: nat, height: nat, padding: nat,
                       left: Option<nat>, right: Option<nat>)
  {
    function Bounds(): Rect { Rect(x, y, width, height) }
  }

  /** A node with no child is a free leaf; a node with a child holds a texture. */
  predicate IsLeaf(t: Slot) {
    t.left.None? && t.right.None?
  }

  predicate IsChild(t: Slot, c: nat) {
    t.left == Some(c) || t.right == Some(c)
  }

  /** Every child link points forward into the arena. */
  predicate ChildrenAfter(s: seq<Slot>) {
    forall i :: 0 <= i < |s| ==>
      (s[i].left.Some? ==> i < s[i].left.value < |s|) &&
      (s[i].right.Some? ==> i < s[i].right.value < |s|)
  }

  /**
   * The arena is a tree rooted at 0: every other node has exactly one parent, recorded
   * in parent; a node's two children are distinct.
   */
  predicate TreeShaped(s: seq<Slot>, parent: seq<nat>) {
    ChildrenAfter(s) && |parent| == |s| &&
    (forall j :: 0 < j < |s| ==> parent[j] < j && IsChild(s[parent[j]], j)) &&
    (forall i :: 0 <= i < |s| && s[i].left.Some? ==> parent[s[i].left.value] == i) &&
    (forall i :: 0 <= i < |s| && s[i].right.Some? ==> parent[s[i].right.value] == i) &&
    (forall i :: 0 <= i < |s| && s[i].left.Some? && s[i].right.Some? ==>
       s[i].left.value != s[i].right.value)
  }

  /** Every slot lies inside the atlas canvas. */
  predicate InsideCanvas(s: seq<Slot>, atlasWidth: nat, atlasHeight: nat) {
    forall i :: 0 <= i < |s| ==> Within(s[i].Bounds(), Rect(0, 0, atlasWidth, atlasHeight))
  }

  /** No two slots of the arena share a pixel. */
  predicate NoOverlap(s: seq<Slot>) {
    forall i, j :: 0 <= i < j < |s| ==> Disjoint(s[i].Bounds(), s[j].Bounds())
  }

  predicate WellFormed(s: seq<Slot>, parent: seq<nat>, atlasWidth: nat, atlasHeight: nat) {
    TreeShaped(s, parent) && InsideCanvas(s, atlasWidth, atlasHeight) && NoOverlap(s)
  }

  // ---------------------------------------------------------------- subtrees

  /** The nodes of the subtree rooted at i (what DestroyNodes visits). */
  ghost function Subtree(s: seq<Slot>, i: nat): (nodes: set<nat>)
    requires ChildrenAfter(s) && i < |s|
    ensures i in nodes
    ensures forall j :: j in nodes ==> i <= j < |s|
    decreases |s| - i
  {
    {i} +
    (if s[i].left.Some? then Subtree(s, s[i].left.value) else {}) +
    (if s[i].right.Some? then Subtree(s, s[i].right.value) else {})
  }

  /** Inside a subtree, the parent of every node but the top is again in the subtree. */
  lemma {:induction false} SubtreeClosedUnderParent(s: seq<Slot>, parent: seq<nat>, i: nat, j: nat)
    requires TreeShaped(s, parent) && i < |s| && j in Subtree(s, i) && j != i
    ensures parent[j] in Subtree(s, i)
    decreases |s| - i
  {
    if s[i].left.Some? && j in Subtree(s, s[i].left.value) {
      var l := s[i].left.value;
      if j == l { assert parent[l] == i; } else { SubtreeClosedUnderParent(s, parent, l, j); }
    } else {
      var r := s[i].right.value;
      if j == r { assert parent[r] == i; } else { SubtreeClosedUnderParent(s, parent, r, j); }
    }
  }

  lemma {:induction false} SubtreeTransitive(s: seq<Slot>, i: nat, j: nat)
    requires ChildrenAfter(s) && i < |s| && j in Subtree(s, i)
    ensures Subtree(s, j) <= Subtree(s, i)
    decreases |s| - i
  {
    if j != i {
      if s[i].left.Some? && j in Subtree(s, s[i].left.value) {
        SubtreeTransitive(s, s[i].left.value, j);
      } else {
        SubtreeTransitive(s, s[i].right.value, j);
      }
    }
  }

  /** Two nodes with no ancestor relation between them have disjoint subtrees. */
  lemma {:induction false} DisjointSubtreesAt(s: seq<Slot>, parent: seq<nat>, a: nat, b: nat, j: nat)
    requires TreeShaped(s, parent) && 0 < a < |s| && 0 < b < |s| && a != b
    requires parent[a] == parent[b]
    ensures !(j in Subtree(s, a) && j in Subtree(s, b))
    decreases j
  {
    if j in Subtree(s, a) && j in Subtree(s, b) {
      if j == a {
        SubtreeClosedUnderParent(s, parent, b, a);
        assert false;
      } else if j == b {
        SubtreeClosedUnderParent(s, parent, a, b);
        assert false;
      } else {
        SubtreeClosedUnderParent(s, parent, a, j);
        SubtreeClosedUnderParent(s, parent, b, j);
        DisjointSubtreesAt(s, parent, a, b, parent[j]);
        assert false;
      }
    }
  }

  /** The left and right subtrees of a node share no node, so no node is destroyed twice. */
  lemma ChildSubtreesDisjoint(s: seq<Slot>, parent: seq<nat>, i: nat)
    requires TreeShaped(s, parent) && i < |s| && s[i].left.Some? && s[i].right.Some?
    ensures Subtree(s, s[i].left.value) !! Subtree(s, s[i].right.value)
  {
    var l, r := s[i].left.value, s[i].right.value;
    forall j | j in Subtree(s, l) ensures j !in Subtree(s, r) {
      DisjointSubtreesAt(s, parent, l, r, j);
    }
  }

  /** Every node of the arena is reachable from the root, so destroying the root's subtree frees them all. */
  lemma {:induction false} RootReachesAll(s: seq<Slot>, parent: seq<nat>, j: nat)
    requires TreeShaped(s, parent) && j < |s|
    ensures j in Subtree(s, 0)
    decreases j
  {
    if j > 0 {
      var p := parent[j];
      RootReachesAll(s, parent, p);
      SubtreeTransitive(s, 0, p);
      assert j in Subtree(s, p);
    }
  }

  lemma SubtreeOfRoot(s: seq<Slot>, parent: seq<nat>)
    requires TreeShaped(s, parent) && |s| > 0
    ensures forall j: nat :: j in Subtree(s, 0) <==> j < |s|
  {
    forall j: nat | j < |s| ensures j in Subtree(s, 0) { RootReachesAll(s, parent, j); }
  }

  // ---------------------------------------------------------------- the search

  /**
   * The leaf test of FindSlotForTexture (line 236) with the padding on both sides,
   * compared without the uint32 wrap-around of the source (see FitsAsWritten).
   */
  predicate Fits(t: Slot, inWidth: nat, inHeight: nat, padding: nat) {
    inWidth + 2 * padding <= t.width && inHeight + 2 * padding <= t.height
  }

  /**
   * The value FindSlotForTexture returns when started at node i: interior nodes are
   * searched left child first, then right child; a leaf is the answer when the padded
   * request fits it.
   */
  function FindLeaf(s: seq<Slot>, i: nat, inWidth: nat, inHeight: nat, padding: nat): Option<nat>
    requires ChildrenAfter(s) && i < |s|
    decreases |s| - i
  {
    var t := s[i];
    if t.left.Some? || t.right.Some? then
      var fromLeft := if t.left.Some? then FindLeaf(s, t.left.value, inWidth, inHeight, padding) else None;
      if fromLeft.Some? then fromLeft
      else if t.right.Some? then FindLeaf(s, t.right.value, inWidth, inHeight, padding)
      else None
    else if Fits(t, inWidth, inHeight, padding) then Some(i)
    else None
  }

  /** The leaves below i, left to right. */
  function Leaves(s: seq<Slot>, i: nat): (ks: seq<nat>)
    requires ChildrenAfter(s) && i < |s|
    ensures forall m :: 0 <= m < |ks| ==> ks[m] < |s| && IsLeaf(s[ks[m]])
    decreases |s| - i
  {
    var t := s[i];
    if IsLeaf(t) then [i]
    else
      (if t.left.Some? then Leaves(s, t.left.value) else []) +
      (if t.right.Some? then Leaves(s, t.right.value) else [])
  }

  /** Every leaf of the subtree rooted at i is listed by Leaves. */
  lemma {:induction false} LeavesComplete(s: seq<Slot>, i: nat, j: nat)
    requires ChildrenAfter(s) && i < |s| && j in Subtree(s, i) && IsLeaf(s[j])
    ensures j in Leaves(s, i)
    decreases |s| - i
  {
    var t := s[i];
    if j != i {
      if t.left.Some? && j in Subtree(s, t.left.value) {
        LeavesComplete(s, t.left.value, j);
      } else {
        LeavesComplete(s, t.right.value, j);
      }
    }
  }

  /** Every listed leaf belongs to the subtree rooted at i. */
  lemma {:induction false} LeavesInSubtree(s: seq<Slot>, i: nat, m: nat)
    requires ChildrenAfter(s) && i < |s| && m < |Leaves(s, i)|
    ensures Leaves(s, i)[m] in Subtree(s, i)
    decreases |s| - i
  {
    var t := s[i];
    if !IsLeaf(t) {
      var ls := if t.left.Some? then Leaves(s, t.left.value) else [];
      if m < |ls| {
        LeavesInSubtree(s, t.left.value, m);
      } else {
        LeavesInSubtree(s, t.right.value, m - |ls|);
      }
    }
  }

  /** The position of the first listed slot that the request fits, or |ks| when none does. */
  function FirstFitting(s: seq<Slot>, ks: seq<nat>, inWidth: nat, inHeight: nat, padding: nat): (n: nat)
    requires forall m :: 0 <= m < |ks| ==> ks[m] < |s|
    ensures n <= |ks|
    ensures forall m :: 0 <= m < n ==> !Fits(s[ks[m]], inWidth, inHeight, padding)
    ensures n < |ks| ==> Fits(s[ks[n]], inWidth, inHeight, padding)
  {
    if ks == [] then 0
    else if Fits(s[ks[0]], inWidth, inHeight, padding) then 0
    else 1 + FirstFitting(s, ks[1..], inWidth, inHeight, padding)
  }

  lemma {:induction false} FirstFittingAppend(s: seq<Slot>, a: seq<nat>, b: seq<nat>, inWidth: nat, inHeight: nat, padding: nat)
    requires forall m :: 0 <= m < |a| ==> a[m] < |s|
    requires forall m :: 0 <= m < |b| ==> b[m] < |s|
    ensures forall m :: 0 <= m < |a + b| ==> (a + b)[m] < |s|
    ensures FirstFitting(s, a + b, inWidth, inHeight, padding) ==
            if FirstFitting(s, a, inWidth, inHeight, padding) < |a| then FirstFitting(s, a, inWidth, inHeight, padding)
            else |a| + FirstFitting(s, b, inWidth, inHeight, padding)
  {
    if a != [] {
      assert (a + b)[1..] == a[1..] + b;
      FirstFittingAppend(s, a[1..], b, inWidth, inHeight, padding);
    } else {
      assert a + b == b;
    }
  }

  /** The slot at the first fitting position of ks, if any. */
  function FirstFit(s: seq<Slot>, ks: seq<nat>, inWidth: nat, inHeight: nat, padding: nat): Option<nat>
    requires forall m :: 0 <= m < |ks| ==> ks[m] < |s|
  {
    var n := FirstFitting(s, ks, inWidth, inHeight, padding);
    if n < |ks| then Some(ks[n]) else None
  }

  lemma FirstFitAppend(s: seq<Slot>, a: seq<nat>, b: seq<nat>, inWidth: nat, inHeight: nat, padding: nat)
    requires forall m :: 0 <= m < |a| ==> a[m] < |s|
    requires forall m :: 0 <= m < |b| ==> b[m] < |s|
    ensures forall m :: 0 <= m < |a + b| ==> (a + b)[m] < |s|
    ensures FirstFit(s, a + b, inWidth, inHeight, padding) ==
            if FirstFit(s, a, inWidth, inHeight, padding).Some? then FirstFit(s, a, inWidth, inHeight, padding)
            else FirstFit(s, b, inWidth, inHeight, padding)
  {
    FirstFittingAppend(s, a, b, inWidth, inHeight, padding);
  }

  /**
   * FindSlotForTexture returns the first leaf, in left-to-right order below its start
   * node, that the padded request fits, and null when it fits none of them.
   */
  lemma {:induction false} FindLeafIsFirstFit(s: seq<Slot>, i: nat, inWidth: nat, inHeight: nat, padding: nat)
    requires ChildrenAfter(s) && i < |s|
    ensures FindLeaf(s, i, inWidth, inHeight, padding) == FirstFit(s, Leaves(s, i), inWidth, inHeight, padding)
    decreases |s| - i
  {
    var t := s[i];
    if t.left.Some? && t.right.Some? {
      var l, r := t.left.value, t.right.value;
      FindLeafIsFirstFit(s, l, inWidth, inHeight, padding);
      FindLeafIsFirstFit(s, r, inWidth, inHeight, padding);
      assert Leaves(s, i) == Leaves(s, l) + Leaves(s, r);
      FirstFitAppend(s, Leaves(s, l), Leaves(s, r), inWidth, inHeight, padding);
    } else if t.left.Some? {
      var l := t.left.value;
      FindLeafIsFirstFit(s, l, inWidth, inHeight, padding);
      assert Leaves(s, i) == Leaves(s, l) + [];
      assert Leaves(s, l) + [] == Leaves(s, l);
    } else if t.right.Some? {
      var r := t.right.value;
      FindLeafIsFirstFit(s, r, inWidth, inHeight, padding);
      assert Leaves(s, i) == [] + Leaves(s, r);
      assert [] + Leaves(s, r) == Leaves(s, r);
    } else {
      assert Leaves(s, i) == [i];
    }
  }

  /**
   * A node with a child is never a placement target: the answer is a leaf of the subtree
   * that the request fits, and there is no answer exactly when no leaf of the subtree fits.
   */
  lemma FindLeafCorrect(s: seq<Slot>, i: nat, inWidth: nat, inHeight: nat, padding: nat)
    requires ChildrenAfter(s) && i < |s|
    ensures var r := FindLeaf(s, i, inWidth, inHeight, padding);
      r.Some? ==> r.value in Subtree(s, i) && IsLeaf(s[r.value]) && Fits(s[r.value], inWidth, inHeight, padding)
    ensures FindLeaf(s, i, inWidth, inHeight, padding).None? <==>
      forall j :: j in Subtree(s, i) && IsLeaf(s[j]) ==> !Fits(s[j], inWidth, inHeight, padding)
  {
    FindLeafIsFirstFit(s, i, inWidth, inHeight, padding);
    var ks := Leaves(s, i);
    var n := FirstFitting(s, ks, inWidth, inHeight, padding);
    if n < |ks| {
      LeavesInSubtree(s, i, n);
    } else {
      forall j | j in Subtree(s, i) && IsLeaf(s[j]) ensures !Fits(s[j], inWidth, inHeight, padding) {
        LeavesComplete(s, i, j);
        var m :| 0 <= m < |ks| && ks[m] == j;
      }
    }
  }

  // ---------------------------------------------------------------- the split

  /**
   * The arena after the request is placed in leaf j: j shrinks to the padded footprint
   * and gets the two remainder pieces as new children at the end of the arena.
   */
  function Place(s: seq<Slot>, j: nat, inWidth: nat, inHeight: nat, padding: nat): seq<Slot>
    requires j < |s| && Fits(s[j], inWidth, inHeight, padding)
  {
    var t := s[j];
    var paddedWidth := inWidth + 2 * padding;
    var paddedHeight := inHeight + 2 * padding;
    var p := SplitLeaf(t.Bounds(), paddedWidth, paddedHeight);
    var n := |s|;
    s[j := Slot(t.x, t.y, paddedWidth, paddedHeight, t.padding, Some(n), Some(n + 1))] +
      [Slot(p.left.x, p.left.y, p.left.width, p.left.height, padding, None, None),
       Slot(p.right.x, p.right.y, p.right.width, p.right.height, padding, None, None)]
  }

  lemma PlaceFacts(s: seq<Slot>, j: nat, inWidth: nat, inHeight: nat, padding: nat)
    requires j < |s| && Fits(s[j], inWidth, inHeight, padding)
    ensures var s' := Place(s, j, inWidth, inHeight, padding);
      var p := SplitLeaf(s[j].Bounds(), inWidth + 2 * padding, inHeight + 2 * padding);
      |s'| == |s| + 2 &&
      (forall i :: 0 <= i < |s| && i != j ==> s'[i] == s[i]) &&
      s'[j].Bounds() == p.occupied && s'[|s|].Bounds() == p.left && s'[|s| + 1].Bounds() == p.right &&
      s'[j].left == Some(|s|) && s'[j].right == Some(|s| + 1) &&
      IsLeaf(s'[|s|]) && IsLeaf(s'[|s| + 1])
  {
  }

  lemma PlaceTreeShaped(s: seq<Slot>, parent: seq<nat>, j: nat, inWidth: nat, inHeight: nat, padding: nat)
    requires TreeShaped(s, parent)
    requires j < |s| && IsLeaf(s[j]) && Fits(s[j], inWidth, inHeight, padding)
    ensures TreeShaped(Place(s, j, inWidth, inHeight, padding), parent + [j, j])
  {
    var s' := Place(s, j, inWidth, inHeight, padding);
    var parent' := parent + [j, j];
    var n := |s|;
    PlaceFacts(s, j, inWidth, inHeight, padding);
    // no old node has j as its parent, because j is a leaf
    forall i | 0 < i < n ensures parent'[i] == parent[i] && parent[i] != j && IsChild(s'[parent'[i]], i) {
    }
    assert ChildrenAfter(s');
  }

  lemma PlaceInsideCanvas(s: seq<Slot>, atlasWidth: nat, atlasHeight: nat, j: nat, inWidth: nat, inHeight: nat, padding: nat)
    requires InsideCanvas(s, atlasWidth, atlasHeight)
    requires j < |s| && Fits(s[j], inWidth, inHeight, padding)
    ensures InsideCanvas(Place(s, j, inWidth, inHeight, padding), atlasWidth, atlasHeight)
  {
    var s' := Place(s, j, inWidth, inHeight, padding);
    var t := s[j];
    PlaceFacts(s, j, inWidth, inHeight, padding);
    SplitPiecesDisjointWithin(t.Bounds(), inWidth + 2 * padding, inHeight + 2 * padding);
    var canvas := Rect(0, 0, atlasWidth, atlasHeight);
    forall i | 0 <= i < |s'| ensures Within(s'[i].Bounds(), canvas) {
      if i == j || i >= |s| {
        WithinTransitive(s'[i].Bounds(), t.Bounds(), canvas);
      }
    }
  }

  lemma PlaceNoOverlap(s: seq<Slot>, j: nat, inWidth: nat, inHeight: nat, padding: nat)
    requires NoOverlap(s)
    requires j < |s| && Fits(s[j], inWidth, inHeight, padding)
    ensures NoOverlap(Place(s, j, inWidth, inHeight, padding))
  {
    var s' := Place(s, j, inWidth, inHeight, padding);
    forall a, b | 0 <= a < b < |s'| ensures Disjoint(s'[a].Bounds(), s'[b].Bounds()) {
      PlacePairDisjoint(s, j, inWidth, inHeight, padding, a, b);
    }
  }

  /** Any two slots of the arena after the split are disjoint. */
  lemma PlacePairDisjoint(s: seq<Slot>, j: nat, inWidth: nat, inHeight: nat, padding: nat, a: nat, b: nat)
    requires NoOverlap(s)
    requires j < |s| && Fits(s[j], inWidth, inHeight, padding)
    requires a < b < |s| + 2
    ensures var s' := Place(s, j, inWidth, inHeight, padding);
      |s'| == |s| + 2 && Disjoint(s'[a].Bounds(), s'[b].Bounds())
  {
    var s' := Place(s, j, inWidth, inHeight, padding);
    var t := s[j];
    var n := |s|;
    PlaceFacts(s, j, inWidth, inHeight, padding);
    SplitPiecesDisjointWithin(t.Bounds(), inWidth + 2 * padding, inHeight + 2 * padding);
    if b < n && a != j && b != j {
      assert s'[a] == s[a] && s'[b] == s[b];
    } else if a >= n || (a == j && b >= n) {
    } else if a == j {
      // b is an old node after j
      assert s'[b] == s[b];
      WithinKeepsDisjoint(s'[a].Bounds(), t.Bounds(), s[b].Bounds());
    } else {
      // a is an old node other than j, and b is j or one of the new children
      assert s'[a] == s[a];
      assert Disjoint(s[a].Bounds(), t.Bounds()) by {
        if a < j { } else { assert Disjoint(t.Bounds(), s[a].Bounds()); }
      }
      WithinKeepsDisjoint(s'[b].Bounds(), t.Bounds(), s[a].Bounds());
    }
  }

  /** Splitting a fitting leaf keeps the arena a tree inside the canvas with no overlap. */
  lemma PlacePreservesWellFormed(s: seq<Slot>, parent: seq<nat>, atlasWidth: nat, atlasHeight: nat,
                                j: nat, inWidth: nat, inHeight: nat, padding: nat)
    requires WellFormed(s, parent, atlasWidth, atlasHeight)
    requires j < |s| && IsLeaf(s[j]) && Fits(s[j], inWidth, inHeight, padding)
    ensures WellFormed(Place(s, j, inWidth, inHeight, padding), parent + [j, j], atlasWidth, atlasHeight)
  {
    PlaceTreeShaped(s, parent, j, inWidth, inHeight, padding);
    PlaceInsideCanvas(s, atlasWidth, atlasHeight, j, inWidth, inHeight, padding);
    PlaceNoOverlap(s, j, inWidth, inHeight, padding);
  }

  // ---------------------------------------------------------------- the guard as written

  const UInt32Limit: nat := 0x1_0000_0000

  /**
   * The leaf test of line 236 as the source evaluates it: InWidth + TotalPadding is a
   * uint32 sum and wraps around.
   */
  predicate FitsAsWritten(t: Slot, inWidth: nat, inHeight: nat, padding: nat) {
    (inWidth + 2 * padding) % UInt32Limit <= t.width && (inHeight + 2 * padding) % UInt32Limit <= t.height
  }

  /** Without wrap-around the source's test and Fits agree. */
  lemma FitsAgreesWithoutWrap(t: Slot, inWidth: nat, inHeight: nat, padding: nat)
    requires inWidth + 2 * padding < UInt32Limit && inHeight + 2 * padding < UInt32Limit
    ensures FitsAsWritten(t, inWidth, inHeight, padding) <==> Fits(t, inWidth, inHeight, padding)
  {
  }

  /**
   * The wrap lets an oversized request through: a uint32 width of 2^32 - 1 with padding
   * "fits" a leaf one pixel wide.
   */
  lemma WrappedGuardAdmitsOversizedRequest()
    ensures var t := Slot(0, 0, 1, 4, 1, None, None);
      FitsAsWritten(t, UInt32Limit - 1, 1, 1) && !Fits(t, UInt32Limit - 1, 1, 1) && UInt32Limit - 1 > t.width
  {
    assert (UInt32Limit - 1 + 2) % UInt32Limit == 1;
  }

  /** With the corrected test a placed footprint, padding included, lies inside its leaf. */
  lemma FitsPlacesInsideLeaf(t: Slot, inWidth: nat, inHeight: nat, padding: nat)
    requires Fits(t, inWidth, inHeight, padding)
    ensures Within(Rect(t.x, t.y, inWidth + 2 * padding, inHeight + 2 * padding), t.Bounds())
    ensures inWidth <= t.width && inHeight <= t.height
  {
  }
}
