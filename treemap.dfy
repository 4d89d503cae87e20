/**
 * The slice-and-dice layout engine: turns a size-annotated tree and a bounding
 * rectangle into a flat, pre-order list of positioned, depth-tagged rectangles.
 * Coordinates are exact reals, so the strips of a sibling group tile its
 * bounds exactly.
 */
module Treemap {
  import opened Scanner

  /** An axis-aligned rectangle with its top-left corner at (x, y). */
  datatype Rectangle = Rectangle(x: real, y: real, width: real, height: real)

  /** One drawable item of the layout. */
  datatype TreemapNode = TreemapNode(rect: Rectangle, name: string, size: nat, depth: nat)

  // ---------------------------------------------------------------------------
  // Geometry
  // ---------------------------------------------------------------------------

  /** Where r starts along the slicing axis (x when slicing vertically, else y). */
  function Lo(r: Rectangle, vertical: bool): real {
    if vertical then r.x else r.y
  }

  /** How long r is along the slicing axis (width when slicing vertically, else height). */
  function Len(r: Rectangle, vertical: bool): real {
    if vertical then r.width else r.height
  }

  predicate NonNegative(r: Rectangle) {
    r.width >= 0.0 && r.height >= 0.0
  }

  /** r lies within b. */
  predicate Inside(r: Rectangle, b: Rectangle) {
    b.x <= r.x && r.x + r.width <= b.x + b.width &&
    b.y <= r.y && r.y + r.height <= b.y + b.height
  }

  // ---------------------------------------------------------------------------
  // The layout, as a specification
  // ---------------------------------------------------------------------------

  /** Total size of the siblings before position k. */
  function SizeBefore(nodes: seq<FileSystemNode>, k: nat): nat
    requires k <= |nodes|
  {
    TotalSize(nodes[..k])
  }

  /** The part of a length w that part out of total takes, as the source computes it: w * (part / total). */
  function Share(w: real, part: real, total: real): real
    requires total > 0.0
  {
    w * (part / total)
  }

  /**
   * The slice of bounds for an item of the given size in a group of the given
   * total, after items of combined size before: along the slicing axis it
   * starts at the share of before and is as long as the share of size; across
   * the axis it spans bounds.
   */
  function Slice(bounds: Rectangle, before: real, size: real, total: real, vertical: bool): Rectangle
    requires total > 0.0
  {
    if vertical then
      Rectangle(bounds.x + Share(bounds.width, before, total), bounds.y,
                Share(bounds.width, size, total), bounds.height)
    else
      Rectangle(bounds.x, bounds.y + Share(bounds.height, before, total),
                bounds.width, Share(bounds.height, size, total))
  }

  /** Where the slice after items of combined size before starts along the slicing axis. */
  function Offset(bounds: Rectangle, before: real, total: real, vertical: bool): real
    requires total > 0.0
  {
    Lo(bounds, vertical) + Share(Len(bounds, vertical), before, total)
  }

  /** The strip of bounds that sibling k gets. */
  function Strip(nodes: seq<FileSystemNode>, k: nat, bounds: Rectangle, vertical: bool): Rectangle
    requires k < |nodes| && TotalSize(nodes) > 0
  {
    Slice(bounds, SizeBefore(nodes, k) as real, nodes[k].size as real, TotalSize(nodes) as real, vertical)
  }

  /** The item emitted for sibling k itself. */
  function Emit(nodes: seq<FileSystemNode>, k: nat, bounds: Rectangle, vertical: bool, depth: nat): TreemapNode
    requires k < |nodes| && TotalSize(nodes) > 0
  {
    TreemapNode(Strip(nodes, k, bounds, vertical), nodes[k].name, nodes[k].size, depth)
  }

  /** Layout of one sibling group inside bounds: nothing for an empty or zero-size group. */
  function Layout(nodes: seq<FileSystemNode>, bounds: Rectangle, vertical: bool, depth: nat): seq<TreemapNode>
    decreases nodes, 2
  {
    if |nodes| == 0 || TotalSize(nodes) == 0 then []
    else Siblings(nodes, |nodes|, bounds, vertical, depth)
  }

  /** What the first n siblings of a non-empty group emit, in order. */
  function Siblings(nodes: seq<FileSystemNode>, n: nat, bounds: Rectangle, vertical: bool, depth: nat)
    : seq<TreemapNode>
    requires n <= |nodes| && TotalSize(nodes) > 0
    decreases nodes, 1, n
  {
    if n == 0 then []
    else Siblings(nodes, n - 1, bounds, vertical, depth) + Subtree(nodes, n - 1, bounds, vertical, depth)
  }

  /** Sibling k, then its children's layout inside its strip, on the other axis, one level deeper. */
  function Subtree(nodes: seq<FileSystemNode>, k: nat, bounds: Rectangle, vertical: bool, depth: nat)
    : seq<TreemapNode>
    requires k < |nodes| && TotalSize(nodes) > 0
    decreases nodes, 0
  {
    [Emit(nodes, k, bounds, vertical, depth)]
      + Layout(nodes[k].children, Strip(nodes, k, bounds, vertical), !vertical, depth + 1)
  }

  // ---------------------------------------------------------------------------
  // The layout, as the source runs it
  // ---------------------------------------------------------------------------

  /** The sizes before sibling k + 1 are those before sibling k and sibling k's own, also as reals. */
  lemma SizeBeforeStep(nodes: seq<FileSystemNode>, k: nat)
    requires k < |nodes|
    ensures SizeBefore(nodes, k + 1) == SizeBefore(nodes, k) + nodes[k].size
    ensures SizeBefore(nodes, k + 1) as real == SizeBefore(nodes, k) as real + nodes[k].size as real
  {
    assert nodes[..k + 1][..k] == nodes[..k];
  }

  /** Shares add up: the shares of a and of b together are the share of a + b. */
  lemma ShareAdditive(w: real, a: real, b: real, t: real)
    requires t > 0.0
    ensures Share(w, a, t) + Share(w, b, t) == Share(w, a + b, t)
  {
    assert a / t + b / t == (a + b) / t;
  }

  /** A share of a non-negative length is non-negative and no longer than the length. */
  lemma ShareWithin(w: real, a: real, t: real)
    requires t > 0.0 && w >= 0.0 && 0.0 <= a <= t
    ensures 0.0 <= Share(w, a, t) <= w
  {
    var q := a / t;
    assert 0.0 <= q <= 1.0;
    assert 0.0 <= w * q <= w * 1.0;
    assert Share(w, a, t) == w * q;
  }

  /** Nothing takes no length, and the whole total takes all of it. */
  lemma ShareEnds(w: real, t: real)
    requires t > 0.0
    ensures Share(w, 0.0, t) == 0.0
    ensures Share(w, t, t) == w
  {
  }

  /** Where the strip of sibling k starts along the slicing axis. */
  function Cursor(nodes: seq<FileSystemNode>, k: nat, bounds: Rectangle, vertical: bool): real
    requires k <= |nodes| && TotalSize(nodes) > 0
  {
    Offset(bounds, SizeBefore(nodes, k) as real, TotalSize(nodes) as real, vertical)
  }

  /** A slice starts at its offset, spans bounds across the axis, and the next offset lies where it ends. */
  lemma SliceAtOffset(bounds: Rectangle, before: real, size: real, total: real, vertical: bool)
    requires total > 0.0
    ensures Lo(Slice(bounds, before, size, total, vertical), vertical) == Offset(bounds, before, total, vertical)
    ensures Lo(Slice(bounds, before, size, total, vertical), !vertical) == Lo(bounds, !vertical)
    ensures Len(Slice(bounds, before, size, total, vertical), !vertical) == Len(bounds, !vertical)
    ensures Offset(bounds, before + size, total, vertical)
         == Lo(Slice(bounds, before, size, total, vertical), vertical)
          + Len(Slice(bounds, before, size, total, vertical), vertical)
  {
    ShareAdditive(Len(bounds, vertical), before, size, total);
  }

  /**
   * The strip of sibling k starts at the cursor, spans bounds across the
   * slicing axis, and ends where the next cursor lies: strips are laid edge to
   * edge.
   */
  lemma StripAtCursor(nodes: seq<FileSystemNode>, k: nat, bounds: Rectangle, vertical: bool)
    requires k < |nodes| && TotalSize(nodes) > 0
    ensures Lo(Strip(nodes, k, bounds, vertical), vertical) == Cursor(nodes, k, bounds, vertical)
    ensures Lo(Strip(nodes, k, bounds, vertical), !vertical) == Lo(bounds, !vertical)
    ensures Len(Strip(nodes, k, bounds, vertical), !vertical) == Len(bounds, !vertical)
    ensures Cursor(nodes, k + 1, bounds, vertical)
         == Cursor(nodes, k, bounds, vertical) + Len(Strip(nodes, k, bounds, vertical), vertical)
  {
    var p := SizeBefore(nodes, k) as real;
    var size := nodes[k].size as real;
    var t := TotalSize(nodes) as real;
    assert Cursor(nodes, k + 1, bounds, vertical) == Offset(bounds, p + size, t, vertical) by {
      SizeBeforeStep(nodes, k);
    }
    SliceAtOffset(bounds, p, size, t, vertical);
  }

  /** The strip of sibling k in the form the cursor loop builds it: at the cursor, as long as its share. */
  lemma StripFromCursor(nodes: seq<FileSystemNode>, k: nat, bounds: Rectangle, vertical: bool)
    requires k < |nodes| && TotalSize(nodes) > 0
    ensures vertical ==>
      Strip(nodes, k, bounds, vertical)
        == Rectangle(Cursor(nodes, k, bounds, vertical), bounds.y,
                     Share(bounds.width, nodes[k].size as real, TotalSize(nodes) as real), bounds.height)
    ensures !vertical ==>
      Strip(nodes, k, bounds, vertical)
        == Rectangle(bounds.x, Cursor(nodes, k, bounds, vertical),
                     bounds.width, Share(bounds.height, nodes[k].size as real, TotalSize(nodes) as real))
  {
  }

  lemma AppendAssoc<T>(a: seq<T>, b: seq<T>, c: seq<T>)
    ensures (a + b) + c == a + (b + c)
  {
  }

  /** One more sibling adds its item and then the layout of its children. */
  lemma SiblingsStep(nodes: seq<FileSystemNode>, k: nat, bounds: Rectangle, vertical: bool, depth: nat)
    requires k < |nodes| && TotalSize(nodes) > 0
    ensures Siblings(nodes, k + 1, bounds, vertical, depth)
         == Siblings(nodes, k, bounds, vertical, depth)
          + ([Emit(nodes, k, bounds, vertical, depth)]
             + Layout(nodes[k].children, Strip(nodes, k, bounds, vertical), !vertical, depth + 1))
  {
  }

  /**
   * Lays out one sibling group, appending to results: a cursor walks the
   * slicing axis, each sibling gets the strip of its share, and its children
   * are laid out inside that strip.
   */
  method CalculateLayout(nodes: seq<FileSystemNode>, bounds: Rectangle, results: seq<TreemapNode>,
                         vertical: bool, depth: nat)
    returns (out: seq<TreemapNode>)
    ensures out == results + Layout(nodes, bounds, vertical, depth)
    decreases nodes
  {
    out := results;
    if |nodes| == 0 {
      return;
    }
    var totalSize := TotalSize(nodes);
    if totalSize == 0 {
      return;
    }
    var total := totalSize as real;
    var currentX := bounds.x;
    var currentY := bounds.y;
    for i := 0 to |nodes|
      invariant out == results + Siblings(nodes, i, bounds, vertical, depth)
      invariant vertical ==> currentX == Cursor(nodes, i, bounds, vertical) && currentY == bounds.y
      invariant !vertical ==> currentX == bounds.x && currentY == Cursor(nodes, i, bounds, vertical)
    {
      var node := nodes[i];
      var childBounds;
      StripAtCursor(nodes, i, bounds, vertical);
      StripFromCursor(nodes, i, bounds, vertical);
      if vertical {
        var width := Share(bounds.width, node.size as real, total);
        childBounds := Rectangle(currentX, currentY, width, bounds.height);
        currentX := currentX + width;
      } else {
        var height := Share(bounds.height, node.size as real, total);
        childBounds := Rectangle(currentX, currentY, bounds.width, height);
        currentY := currentY + height;
      }
      assert childBounds == Strip(nodes, i, bounds, vertical);
      ghost var before := out;
      ghost var item := Emit(nodes, i, bounds, vertical, depth);
      ghost var below := Layout(node.children, childBounds, !vertical, depth + 1);
      out := out + [TreemapNode(childBounds, node.name, node.size, depth)];
      if |node.children| != 0 {
        out := CalculateLayout(node.children, childBounds, out, !vertical, depth + 1);
      } else {
        assert below == [];
      }
      SiblingsStep(nodes, i, bounds, vertical, depth);
      AppendAssoc(before, [item], below);
      AppendAssoc(results, Siblings(nodes, i, bounds, vertical, depth), [item] + below);
    }
  }

  /** The layout of a whole tree: the root's children, sliced vertically, at depth 1. */
  method GenerateTreemap(root: FileSystemNode, bounds: Rectangle) returns (results: seq<TreemapNode>)
    ensures results == Layout(root.children, bounds, true, 1)
  {
    results := CalculateLayout(root.children, bounds, [], true, 1);
  }

  // ---------------------------------------------------------------------------
  // Properties of the layout
  // ---------------------------------------------------------------------------

  /** The items of s at exactly the given depth, in order. */
  function AtDepth(s: seq<TreemapNode>, depth: nat): seq<TreemapNode> {
    if s == [] then []
    else
      var front := AtDepth(s[..|s| - 1], depth);
      if s[|s| - 1].depth == depth then front + [s[|s| - 1]] else front
  }

  lemma {:induction false} AtDepthConcat(a: seq<TreemapNode>, b: seq<TreemapNode>, depth: nat)
    ensures AtDepth(a + b, depth) == AtDepth(a, depth) + AtDepth(b, depth)
    decreases |b|
  {
    if b == [] {
      assert a + b == a;
    } else {
      var b' := b[..|b| - 1];
      assert (a + b)[..|a + b| - 1] == a + b';
      AtDepthConcat(a, b', depth);
    }
  }

  lemma {:induction false} AtDepthOfDeeper(s: seq<TreemapNode>, depth: nat)
    requires forall e :: e in s ==> e.depth > depth
    ensures AtDepth(s, depth) == []
    decreases |s|
  {
    if s != [] {
      assert forall e :: e in s[..|s| - 1] ==> e in s;
      AtDepthOfDeeper(s[..|s| - 1], depth);
    }
  }

  /** A group emits nothing exactly when it is empty or all of its siblings have size 0. */
  lemma LayoutEmpty(nodes: seq<FileSystemNode>, bounds: Rectangle, vertical: bool, depth: nat)
    ensures Layout(nodes, bounds, vertical, depth) == [] <==> |nodes| == 0 || TotalSize(nodes) == 0
  {
    if |nodes| != 0 && TotalSize(nodes) != 0 {
      var n := |nodes|;
      assert Siblings(nodes, n, bounds, vertical, depth)
          == Siblings(nodes, n - 1, bounds, vertical, depth) + Subtree(nodes, n - 1, bounds, vertical, depth);
      assert Subtree(nodes, n - 1, bounds, vertical, depth)[0] == Emit(nodes, n - 1, bounds, vertical, depth);
    }
  }

  /** Every item of a group laid out at depth d is at depth d or deeper. */
  lemma {:induction false} LayoutDepths(nodes: seq<FileSystemNode>, bounds: Rectangle, vertical: bool, depth: nat)
    ensures forall e :: e in Layout(nodes, bounds, vertical, depth) ==> e.depth >= depth
    decreases nodes, 2
  {
    if |nodes| != 0 && TotalSize(nodes) != 0 {
      SiblingsDepths(nodes, |nodes|, bounds, vertical, depth);
    }
  }

  lemma {:induction false} SiblingsDepths(nodes: seq<FileSystemNode>, n: nat, bounds: Rectangle, vertical: bool,
                                          depth: nat)
    requires n <= |nodes| && TotalSize(nodes) > 0
    ensures forall e :: e in Siblings(nodes, n, bounds, vertical, depth) ==> e.depth >= depth
    decreases nodes, 1, n
  {
    if n != 0 {
      SiblingsDepths(nodes, n - 1, bounds, vertical, depth);
      SubtreeDepths(nodes, n - 1, bounds, vertical, depth);
    }
  }

  lemma {:induction false} SubtreeDepths(nodes: seq<FileSystemNode>, k: nat, bounds: Rectangle, vertical: bool,
                                         depth: nat)
    requires k < |nodes| && TotalSize(nodes) > 0
    ensures forall e :: e in Subtree(nodes, k, bounds, vertical, depth) ==> e.depth >= depth
    ensures Subtree(nodes, k, bounds, vertical, depth)[0].depth == depth
    ensures forall e :: e in Subtree(nodes, k, bounds, vertical, depth)[1..] ==> e.depth > depth
    decreases nodes, 0
  {
    var below := Layout(nodes[k].children, Strip(nodes, k, bounds, vertical), !vertical, depth + 1);
    LayoutDepths(nodes[k].children, Strip(nodes, k, bounds, vertical), !vertical, depth + 1);
    assert Subtree(nodes, k, bounds, vertical, depth)[1..] == below;
  }

  /** The items emitted for the first n siblings themselves, in order. */
  function TopItems(nodes: seq<FileSystemNode>, n: nat, bounds: Rectangle, vertical: bool, depth: nat)
    : seq<TreemapNode>
    requires n <= |nodes| && TotalSize(nodes) > 0
  {
    if n == 0 then [] else TopItems(nodes, n - 1, bounds, vertical, depth) + [Emit(nodes, n - 1, bounds, vertical, depth)]
  }

  lemma {:induction false} TopItemsIndex(nodes: seq<FileSystemNode>, n: nat, bounds: Rectangle, vertical: bool,
                                         depth: nat)
    requires n <= |nodes| && TotalSize(nodes) > 0
    ensures |TopItems(nodes, n, bounds, vertical, depth)| == n
    ensures forall k :: 0 <= k < n ==> TopItems(nodes, n, bounds, vertical, depth)[k] == Emit(nodes, k, bounds, vertical, depth)
  {
    if n != 0 {
      TopItemsIndex(nodes, n - 1, bounds, vertical, depth);
    }
  }

  /**
   * The items at the group's own depth are exactly its siblings, one each and
   * in order, including siblings of size zero.
   */
  lemma LayoutTopLevel(nodes: seq<FileSystemNode>, bounds: Rectangle, vertical: bool, depth: nat)
    requires TotalSize(nodes) > 0
    ensures |AtDepth(Layout(nodes, bounds, vertical, depth), depth)| == |nodes|
    ensures forall k :: 0 <= k < |nodes| ==>
      AtDepth(Layout(nodes, bounds, vertical, depth), depth)[k] == Emit(nodes, k, bounds, vertical, depth)
  {
    SiblingsTopLevel(nodes, |nodes|, bounds, vertical, depth);
    TopItemsIndex(nodes, |nodes|, bounds, vertical, depth);
  }

  lemma {:induction false} SiblingsTopLevel(nodes: seq<FileSystemNode>, n: nat, bounds: Rectangle, vertical: bool,
                                            depth: nat)
    requires n <= |nodes| && TotalSize(nodes) > 0
    ensures AtDepth(Siblings(nodes, n, bounds, vertical, depth), depth) == TopItems(nodes, n, bounds, vertical, depth)
  {
    if n != 0 {
      var front := Siblings(nodes, n - 1, bounds, vertical, depth);
      var sub := Subtree(nodes, n - 1, bounds, vertical, depth);
      var e := Emit(nodes, n - 1, bounds, vertical, depth);
      calc {
        AtDepth(Siblings(nodes, n, bounds, vertical, depth), depth);
        AtDepth(front + sub, depth);
        { AtDepthConcat(front, sub, depth); }
        AtDepth(front, depth) + AtDepth(sub, depth);
        { SiblingsTopLevel(nodes, n - 1, bounds, vertical, depth);
          SubtreeTopLevel(nodes, n - 1, bounds, vertical, depth); }
        TopItems(nodes, n - 1, bounds, vertical, depth) + [e];
        TopItems(nodes, n, bounds, vertical, depth);
      }
    } else {
      assert AtDepth([], depth) == [];
    }
  }

  /** Of a sibling's subtree, only the sibling's own item is at the group's depth. */
  lemma SubtreeTopLevel(nodes: seq<FileSystemNode>, k: nat, bounds: Rectangle, vertical: bool, depth: nat)
    requires k < |nodes| && TotalSize(nodes) > 0
    ensures AtDepth(Subtree(nodes, k, bounds, vertical, depth), depth) == [Emit(nodes, k, bounds, vertical, depth)]
  {
    var e := Emit(nodes, k, bounds, vertical, depth);
    var below := Layout(nodes[k].children, Strip(nodes, k, bounds, vertical), !vertical, depth + 1);
    LayoutDepths(nodes[k].children, Strip(nodes, k, bounds, vertical), !vertical, depth + 1);
    AtDepthOfDeeper(below, depth);
    AtDepthConcat([e], below, depth);
    assert AtDepth([e], depth) == [e] by {
      assert [e][..0] == [];
    }
    assert [e] + [] == [e];
  }

  lemma {:induction false} PrefixBelowTotal(nodes: seq<FileSystemNode>, k: nat)
    requires k < |nodes|
    ensures SizeBefore(nodes, k) + nodes[k].size <= TotalSize(nodes)
    decreases |nodes| - k
  {
    SizeBeforeStep(nodes, k);
    if k + 1 == |nodes| {
      assert nodes[..k + 1] == nodes;
    } else {
      PrefixBelowTotal(nodes, k + 1);
    }
  }

  /** Where the slices start: at the start of bounds, and at its end after the whole total. */
  lemma OffsetEnds(bounds: Rectangle, total: real, vertical: bool)
    requires total > 0.0
    ensures Offset(bounds, 0.0, total, vertical) == Lo(bounds, vertical)
    ensures Offset(bounds, total, total, vertical) == Lo(bounds, vertical) + Len(bounds, vertical)
  {
    ShareEnds(Len(bounds, vertical), total);
  }

  /**
   * The strips of a group tile bounds along the slicing axis: the first starts
   * where bounds starts, each ends where the next starts, the last ends where
   * bounds ends, and each spans bounds across the axis.
   */
  lemma StripsTile(nodes: seq<FileSystemNode>, bounds: Rectangle, vertical: bool)
    requires TotalSize(nodes) > 0
    ensures |nodes| > 0
    ensures Lo(Strip(nodes, 0, bounds, vertical), vertical) == Lo(bounds, vertical)
    ensures forall k :: 0 <= k < |nodes| - 1 ==>
      Lo(Strip(nodes, k, bounds, vertical), vertical) + Len(Strip(nodes, k, bounds, vertical), vertical)
        == Lo(Strip(nodes, k + 1, bounds, vertical), vertical)
    ensures
      var last := Strip(nodes, |nodes| - 1, bounds, vertical);
      Lo(last, vertical) + Len(last, vertical) == Lo(bounds, vertical) + Len(bounds, vertical)
    ensures forall k :: 0 <= k < |nodes| ==>
      Lo(Strip(nodes, k, bounds, vertical), !vertical) == Lo(bounds, !vertical) &&
      Len(Strip(nodes, k, bounds, vertical), !vertical) == Len(bounds, !vertical)
  {
    OffsetEnds(bounds, TotalSize(nodes) as real, vertical);
    assert nodes[..0] == [];
    assert nodes[..|nodes|] == nodes;
    StripAtCursor(nodes, 0, bounds, vertical);
    StripAtCursor(nodes, |nodes| - 1, bounds, vertical);
    forall k | 0 <= k < |nodes|
      ensures Lo(Strip(nodes, k, bounds, vertical), !vertical) == Lo(bounds, !vertical)
      ensures Len(Strip(nodes, k, bounds, vertical), !vertical) == Len(bounds, !vertical)
      ensures k < |nodes| - 1 ==>
        Lo(Strip(nodes, k, bounds, vertical), vertical) + Len(Strip(nodes, k, bounds, vertical), vertical)
          == Lo(Strip(nodes, k + 1, bounds, vertical), vertical)
    {
      StripAtCursor(nodes, k, bounds, vertical);
      if k < |nodes| - 1 {
        StripAtCursor(nodes, k + 1, bounds, vertical);
      }
    }
  }

  /** The slice of an item whose share fits in the total lies within bounds. */
  lemma SliceInside(bounds: Rectangle, before: real, size: real, total: real, vertical: bool)
    requires total > 0.0 && 0.0 <= before && 0.0 <= size && before + size <= total && NonNegative(bounds)
    ensures Inside(Slice(bounds, before, size, total, vertical), bounds)
    ensures NonNegative(Slice(bounds, before, size, total, vertical))
  {
    var w := Len(bounds, vertical);
    ShareWithin(w, before, total);
    ShareWithin(w, size, total);
    ShareWithin(w, before + size, total);
    ShareAdditive(w, before, size, total);
  }

  /** Inside a non-negative bounds, every rectangle of the layout is non-negative and within bounds. */
  lemma {:induction false} LayoutInside(nodes: seq<FileSystemNode>, bounds: Rectangle, vertical: bool, depth: nat)
    requires NonNegative(bounds)
    ensures forall e :: e in Layout(nodes, bounds, vertical, depth) ==>
      Inside(e.rect, bounds) && NonNegative(e.rect)
    decreases nodes, 2
  {
    if |nodes| != 0 && TotalSize(nodes) != 0 {
      SiblingsInside(nodes, |nodes|, bounds, vertical, depth);
    }
  }

  lemma {:induction false} SiblingsInside(nodes: seq<FileSystemNode>, n: nat, bounds: Rectangle, vertical: bool,
                                          depth: nat)
    requires n <= |nodes| && TotalSize(nodes) > 0 && NonNegative(bounds)
    ensures forall e :: e in Siblings(nodes, n, bounds, vertical, depth) ==>
      Inside(e.rect, bounds) && NonNegative(e.rect)
    decreases nodes, 1, n
  {
    if n != 0 {
      SiblingsInside(nodes, n - 1, bounds, vertical, depth);
      SubtreeInside(nodes, n - 1, bounds, vertical, depth);
    }
  }

  lemma {:induction false} SubtreeInside(nodes: seq<FileSystemNode>, k: nat, bounds: Rectangle, vertical: bool,
                                         depth: nat)
    requires k < |nodes| && TotalSize(nodes) > 0 && NonNegative(bounds)
    ensures forall e :: e in Subtree(nodes, k, bounds, vertical, depth) ==>
      Inside(e.rect, bounds) && NonNegative(e.rect)
    decreases nodes, 0
  {
    var strip := Strip(nodes, k, bounds, vertical);
    PrefixBelowTotal(nodes, k);
    SliceInside(bounds, SizeBefore(nodes, k) as real, nodes[k].size as real, TotalSize(nodes) as real, vertical);
    LayoutInside(nodes[k].children, strip, !vertical, depth + 1);
  }

  lemma {:induction false} SiblingsPrefix(nodes: seq<FileSystemNode>, m: nat, n: nat, bounds: Rectangle,
                                          vertical: bool, depth: nat)
    requires m <= n <= |nodes| && TotalSize(nodes) > 0
    ensures Siblings(nodes, m, bounds, vertical, depth) <= Siblings(nodes, n, bounds, vertical, depth)
    decreases n - m
  {
    if m < n {
      SiblingsPrefix(nodes, m, n - 1, bounds, vertical, depth);
      var front := Siblings(nodes, n - 1, bounds, vertical, depth);
      var mine := Siblings(nodes, m, bounds, vertical, depth);
      assert (front + Subtree(nodes, n - 1, bounds, vertical, depth))[..|mine|] == front[..|mine|];
    }
  }

  /**
   * The layout is in pre-order: the item for sibling k follows everything
   * emitted for the siblings before it, and is followed at once by the layout
   * of its own children inside its strip, on the other axis, one level deeper.
   */
  lemma LayoutPreOrder(nodes: seq<FileSystemNode>, k: nat, bounds: Rectangle, vertical: bool, depth: nat)
    requires k < |nodes| && TotalSize(nodes) > 0
    ensures
      var o := |Siblings(nodes, k, bounds, vertical, depth)|;
      var all := Layout(nodes, bounds, vertical, depth);
      o < |all| && all[o] == Emit(nodes, k, bounds, vertical, depth) &&
      Layout(nodes[k].children, Strip(nodes, k, bounds, vertical), !vertical, depth + 1) <= all[o + 1..]
  {
    var before := Siblings(nodes, k, bounds, vertical, depth);
    var below := Layout(nodes[k].children, Strip(nodes, k, bounds, vertical), !vertical, depth + 1);
    var all := Layout(nodes, bounds, vertical, depth);
    var o := |before|;
    SiblingsPrefix(nodes, k + 1, |nodes|, bounds, vertical, depth);
    assert before + ([Emit(nodes, k, bounds, vertical, depth)] + below) <= all;
    assert all[o] == Emit(nodes, k, bounds, vertical, depth);
    assert all[o + 1..][..|below|] == below;
  }

  /**
   * The example the layout is checked against: root children of sizes 30, 20
   * and 10 in a 100 by 100 window lie side by side, taking a half, a third and
   * a sixth of the width, all at depth 1.
   */
  lemma ThreeSiblingsSideBySide(a: string, b: string, c: string)
    ensures
      var nodes := [FileSystemNode(a, 30, []), FileSystemNode(b, 20, []), FileSystemNode(c, 10, [])];
      Layout(nodes, Rectangle(0.0, 0.0, 100.0, 100.0), true, 1)
        == [ TreemapNode(Rectangle(0.0, 0.0, 50.0, 100.0), a, 30, 1),
             TreemapNode(Rectangle(50.0, 0.0, 100.0 / 3.0, 100.0), b, 20, 1),
             TreemapNode(Rectangle(50.0 + 100.0 / 3.0, 0.0, 100.0 / 6.0, 100.0), c, 10, 1) ]
  {
    var nodes := [FileSystemNode(a, 30, []), FileSystemNode(b, 20, []), FileSystemNode(c, 10, [])];
    var bounds := Rectangle(0.0, 0.0, 100.0, 100.0);
    assert nodes[..1] == [nodes[0]] && nodes[..2] == [nodes[0], nodes[1]] && nodes[..0] == [];
    assert [nodes[0], nodes[1]][..1] == [nodes[0]] && [nodes[0]][..0] == [];
    assert SizeBefore(nodes, 0) == 0;
    assert SizeBefore(nodes, 1) == 30;
    assert SizeBefore(nodes, 2) == 50;
    assert nodes[..2] == [nodes[0], nodes[1]];
    assert TotalSize(nodes) == 60;
    assert Strip(nodes, 0, bounds, true) == Rectangle(0.0, 0.0, 50.0, 100.0);
    assert Strip(nodes, 1, bounds, true) == Rectangle(50.0, 0.0, 100.0 / 3.0, 100.0);
    assert Strip(nodes, 2, bounds, true) == Rectangle(50.0 + 100.0 / 3.0, 0.0, 100.0 / 6.0, 100.0);
    forall k | 0 <= k < 3
      ensures Subtree(nodes, k, bounds, true, 1) == [Emit(nodes, k, bounds, true, 1)]
    {
      assert nodes[k].children == [];
      assert Layout(nodes[k].children, Strip(nodes, k, bounds, true), false, 2) == [];
    }
    assert Siblings(nodes, 0, bounds, true, 1) == [];
    assert Siblings(nodes, 1, bounds, true, 1) == [Emit(nodes, 0, bounds, true, 1)];
    assert Siblings(nodes, 2, bounds, true, 1) == [Emit(nodes, 0, bounds, true, 1), Emit(nodes, 1, bounds, true, 1)];
    assert Siblings(nodes, 3, bounds, true, 1)
        == [Emit(nodes, 0, bounds, true, 1), Emit(nodes, 1, bounds, true, 1), Emit(nodes, 2, bounds, true, 1)];
  }
}
