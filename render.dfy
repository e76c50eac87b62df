/**
 * The render pass of gui_component.py (GuiComponent.render and the draw hook,
 * with GUIGrid.draw from gui_grid.py). A node draws its own tile, copies it
 * into the target at its absolute position with clipping at the right and
 * bottom edges, then renders its children in list order. Paint and
 * PaintChildren state what the pass computes as a function of the target's
 * pixels; RenderNode is the recursive method that writes the array.
 */
module Render {
  import opened Component

  datatype RenderError =
    | InvalidTarget       // render called without a target surface
    | NotImplemented      // the base class's draw hook
    | NegativeDimensions  // an all-zero tile requested with a negative height or width

  datatype DrawResult = Drawn(tile: Tile) | Failed(error: RenderError)

  /** A target picture: rows of equal width. */
  type Image = seq<seq<Pixel>>

  function Width(img: Image): nat
  {
    if |img| == 0 then 0 else |img[0]|
  }

  predicate IsImage(img: Image)
  {
    forall i :: 0 <= i < |img| ==> |img[i]| == Width(img)
  }

  predicate SameShape(a: Image, b: Image)
  {
    |a| == |b| && forall i :: 0 <= i < |a| ==> |a[i]| == |b[i]|
  }

  function Min(a: int, b: int): int
  {
    if a < b then a else b
  }

  /** An h-by-w tile of zero pixels. */
  function Zeros(h: nat, w: nat): (t: Tile)
    ensures |t| == h && IsTile(t) && (h > 0 ==> TileWidth(t) == w)
    ensures forall i, j :: 0 <= i < h && 0 <= j < |t[i]| ==> t[i][j] == 0
  {
    seq(h, _ => seq(w, _ => 0))
  }

  /**
   * The draw hook: the base class raises "not implemented"; a grid draws an
   * all-zero tile of its own height and width (which fails for a negative
   * dimension); a concrete leaf yields its tile.
   */
  function Draw(n: Node): (r: DrawResult)
    requires KindOk(n.kind)
    ensures r.Drawn? ==> IsTile(r.tile)
    ensures n.kind.Abstract? ==> r == Failed(NotImplemented)
    ensures n.kind.Background? ==>
      if n.width < 0 || n.height < 0 then r == Failed(NegativeDimensions)
      else r.Drawn? && |r.tile| == n.height && (n.height > 0 ==> TileWidth(r.tile) == n.width) &&
           forall i, j :: 0 <= i < |r.tile| && 0 <= j < |r.tile[i]| ==> r.tile[i][j] == 0
  {
    match n.kind
    case Abstract => Failed(NotImplemented)
    case Background =>
      if n.width < 0 || n.height < 0 then Failed(NegativeDimensions) else Drawn(Zeros(n.height, n.width))
    case Leaf(t) => Drawn(t)
  }

  /**
   * The cell (i, j) of an h-by-w target lies in the part of a th-by-tw tile
   * anchored at (ax, ay) that is copied: the anchor must lie inside the target,
   * and the copy stops at the target's right and bottom edges.
   */
  predicate Covered(h: int, w: int, th: int, tw: int, ax: int, ay: int, i: int, j: int)
  {
    0 <= ax < w && 0 <= ay < h && ay <= i < Min(ay + th, h) && ax <= j < Min(ax + tw, w)
  }

  /** The target after a node's own copy of tile t at anchor (ax, ay). */
  function Blit(img: Image, t: Tile, ax: int, ay: int): (r: Image)
    requires IsImage(img) && IsTile(t)
    ensures SameShape(r, img) && IsImage(r)
  {
    var h, w := |img|, Width(img);
    seq(h, i requires 0 <= i < h =>
      seq(w, j requires 0 <= j < w =>
        if Covered(h, w, |t|, TileWidth(t), ax, ay, i, j) then t[i - ay][j - ax] else img[i][j]))
  }

  /** A covered cell receives the tile's pixel at the matching offset. */
  lemma BlitCovered(img: Image, t: Tile, ax: int, ay: int, i: nat, j: nat)
    requires IsImage(img) && IsTile(t) && i < |img| && j < Width(img)
    requires Covered(|img|, Width(img), |t|, TileWidth(t), ax, ay, i, j)
    ensures Blit(img, t, ax, ay)[i][j] == t[i - ay][j - ax]
  {
  }

  /** Two images of the same shape that agree at every cell are equal. */
  lemma ImageExt(a: Image, b: Image)
    requires SameShape(a, b)
    requires forall i, j :: 0 <= i < |a| && 0 <= j < |a[i]| ==> a[i][j] == b[i][j]
    ensures a == b
  {
    forall i | 0 <= i < |a| ensures a[i] == b[i] {
      assert |a[i]| == |b[i]|;
    }
  }

  /**
   * A node whose anchor is negative or beyond the target's right or bottom
   * edge writes nothing: there is no partial clipping at the left or top edge.
   */
  lemma {:induction false} BlitOutsideWritesNothing(img: Image, t: Tile, ax: int, ay: int)
    requires IsImage(img) && IsTile(t)
    requires ax < 0 || ay < 0 || ax >= Width(img) || ay >= |img|
    ensures Blit(img, t, ax, ay) == img
  {
    var r := Blit(img, t, ax, ay);
    forall i, j | 0 <= i < |r| && 0 <= j < |r[i]| ensures r[i][j] == img[i][j] {
      assert !Covered(|img|, Width(img), |t|, TileWidth(t), ax, ay, i, j);
    }
    ImageExt(r, img);
  }

  /** What a render pass leaves behind: the pixels, and the error it stopped with, if any. */
  datatype Outcome = Outcome(image: Image, error: Option<RenderError>)

  /**
   * render on one node: draw, copy the tile at the node's absolute position,
   * then render the children in list order. An error stops the pass and
   * keeps whatever was already written.
   */
  function Paint(nodes: seq<Node>, id: nat, img: Image): (r: Outcome)
    requires WellFormed(nodes) && id < |nodes| && IsImage(img)
    ensures SameShape(r.image, img) && IsImage(r.image)
    decreases |nodes| - id, 1
  {
    assert KindOk(nodes[id].kind);
    match Draw(nodes[id])
    case Failed(e) => Outcome(img, Some(e))
    case Drawn(t) =>
      var a := AbsPosition(nodes, id);
      PaintChildren(nodes, id, 0, Blit(img, t, a.x, a.y))
  }

  /** The loop over children[k..] of p. */
  function PaintChildren(nodes: seq<Node>, p: nat, k: nat, img: Image): (r: Outcome)
    requires WellFormed(nodes) && p < |nodes| && k <= |nodes[p].children| && IsImage(img)
    ensures SameShape(r.image, img) && IsImage(r.image)
    decreases |nodes| - p, 0, |nodes[p].children| - k
  {
    var ch := nodes[p].children;
    if k == |ch| then Outcome(img, None)
    else
      assert ChildrenLinked(nodes, p);
      var o := Paint(nodes, ch[k], img);
      if o.error.Some? then o else PaintChildren(nodes, p, k + 1, o.image)
  }

  /** Node d's own copy writes cell (i, j) of an h-by-w target. */
  predicate NodeCovers(nodes: seq<Node>, d: nat, h: int, w: int, i: int, j: int)
    requires WellFormed(nodes) && d < |nodes|
  {
    assert KindOk(nodes[d].kind);
    var r := Draw(nodes[d]);
    var a := AbsPosition(nodes, d);
    r.Drawn? && Covered(h, w, |r.tile|, TileWidth(r.tile), a.x, a.y, i, j)
  }

  /** A cell that no node's clipped rectangle contains keeps its value through a whole render pass. */
  lemma {:induction false} PaintLeavesUncovered(nodes: seq<Node>, id: nat, img: Image, i: nat, j: nat)
    requires WellFormed(nodes) && id < |nodes| && IsImage(img) && i < |img| && j < Width(img)
    requires forall d :: 0 <= d < |nodes| ==> !NodeCovers(nodes, d, |img|, Width(img), i, j)
    ensures Paint(nodes, id, img).image[i][j] == img[i][j]
    decreases |nodes| - id, 1
  {
    assert KindOk(nodes[id].kind);
    match Draw(nodes[id])
    case Failed(e) =>
    case Drawn(t) =>
      var a := AbsPosition(nodes, id);
      assert !NodeCovers(nodes, id, |img|, Width(img), i, j);
      var b := Blit(img, t, a.x, a.y);
      assert b[i][j] == img[i][j];
      PaintChildrenLeavesUncovered(nodes, id, 0, b, i, j);
  }

  lemma {:induction false} PaintChildrenLeavesUncovered(nodes: seq<Node>, p: nat, k: nat, img: Image, i: nat, j: nat)
    requires WellFormed(nodes) && p < |nodes| && k <= |nodes[p].children| && IsImage(img)
    requires i < |img| && j < Width(img)
    requires forall d :: 0 <= d < |nodes| ==> !NodeCovers(nodes, d, |img|, Width(img), i, j)
    ensures PaintChildren(nodes, p, k, img).image[i][j] == img[i][j]
    decreases |nodes| - p, 0, |nodes[p].children| - k
  {
    var ch := nodes[p].children;
    if k < |ch| {
      assert ChildrenLinked(nodes, p);
      PaintLeavesUncovered(nodes, ch[k], img, i, j);
      var o := Paint(nodes, ch[k], img);
      if o.error.None? {
        assert Width(o.image) == Width(img) by { assert |o.image[0]| == |img[0]|; }
        PaintChildrenLeavesUncovered(nodes, p, k + 1, o.image, i, j);
      }
    }
  }

  /**
   * Children paint after their parent and in list order: when a pass over p
   * succeeds and p's last child is a leaf with no children of its own, every
   * cell that leaf's copy covers ends up holding the leaf's pixel, whatever
   * earlier siblings or the parent wrote there.
   */
  lemma LastChildPaintsOnTop(nodes: seq<Node>, p: nat, img: Image, i: nat, j: nat)
    requires WellFormed(nodes) && p < |nodes| && IsImage(img) && i < |img| && j < Width(img)
    requires |nodes[p].children| > 0
    requires var c := nodes[p].children[|nodes[p].children| - 1];
      c < |nodes| && nodes[c].children == [] && nodes[c].kind.Leaf?
    requires Paint(nodes, p, img).error.None?
    ensures var c := nodes[p].children[|nodes[p].children| - 1];
      var t := nodes[c].kind.tile;
      var a := AbsPosition(nodes, c);
      Covered(|img|, Width(img), |t|, TileWidth(t), a.x, a.y, i, j) ==>
        Paint(nodes, p, img).image[i][j] == t[i - a.y][j - a.x]
  {
    assert KindOk(nodes[p].kind);
    var d := Draw(nodes[p]);
    var a := AbsPosition(nodes, p);
    PaintChildrenLast(nodes, p, 0, Blit(img, d.tile, a.x, a.y), i, j);
  }

  lemma {:induction false} PaintChildrenLast(nodes: seq<Node>, p: nat, k: nat, img: Image, i: nat, j: nat)
    requires WellFormed(nodes) && p < |nodes| && IsImage(img) && i < |img| && j < Width(img)
    requires k < |nodes[p].children|
    requires var c := nodes[p].children[|nodes[p].children| - 1];
      c < |nodes| && nodes[c].children == [] && nodes[c].kind.Leaf?
    requires PaintChildren(nodes, p, k, img).error.None?
    ensures var c := nodes[p].children[|nodes[p].children| - 1];
      var t := nodes[c].kind.tile;
      var a := AbsPosition(nodes, c);
      Covered(|img|, Width(img), |t|, TileWidth(t), a.x, a.y, i, j) ==>
        PaintChildren(nodes, p, k, img).image[i][j] == t[i - a.y][j - a.x]
    decreases |nodes[p].children| - k
  {
    assert ChildrenLinked(nodes, p);
    var ch := nodes[p].children;
    var o := Paint(nodes, ch[k], img);
    if k < |ch| - 1 {
      assert Width(o.image) == Width(img) by { assert |o.image[0]| == |img[0]|; }
      PaintChildrenLast(nodes, p, k + 1, o.image, i, j);
    } else {
      var c := ch[k];
      assert KindOk(nodes[c].kind);
      var t := nodes[c].kind.tile;
      var a := AbsPosition(nodes, c);
      assert o == PaintChildren(nodes, c, 0, Blit(img, t, a.x, a.y));
      assert PaintChildren(nodes, p, k, img) == PaintChildren(nodes, p, k + 1, o.image);
    }
  }

  /** Some node of the subtree rooted at id has an own copy that writes cell (i, j). */
  predicate SubtreeCovers(nodes: seq<Node>, id: nat, h: int, w: int, i: int, j: int)
    requires WellFormed(nodes) && id < |nodes|
    decreases |nodes| - id, 1
  {
    NodeCovers(nodes, id, h, w, i, j) || ChildrenCover(nodes, id, 0, h, w, i, j)
  }

  /** Some subtree of the children[k..] of p writes cell (i, j). */
  predicate ChildrenCover(nodes: seq<Node>, p: nat, k: nat, h: int, w: int, i: int, j: int)
    requires WellFormed(nodes) && p < |nodes| && k <= |nodes[p].children|
    decreases |nodes| - p, 0, |nodes[p].children| - k
  {
    k < |nodes[p].children| &&
    (assert ChildrenLinked(nodes, p);
     SubtreeCovers(nodes, nodes[p].children[k], h, w, i, j) || ChildrenCover(nodes, p, k + 1, h, w, i, j))
  }

  /** The pixel that node d's own copy writes at cell (i, j). */
  function OwnPixel(nodes: seq<Node>, d: nat, h: int, w: int, i: int, j: int): Pixel
    requires WellFormed(nodes) && d < |nodes| && NodeCovers(nodes, d, h, w, i, j)
  {
    assert KindOk(nodes[d].kind);
    var t := Draw(nodes[d]).tile;
    var a := AbsPosition(nodes, d);
    t[i - a.y][j - a.x]
  }

  /** A cell that no node of a subtree writes keeps its value through the subtree's pass. */
  lemma {:induction false} PaintSubtreeUncovered(nodes: seq<Node>, id: nat, img: Image, i: nat, j: nat)
    requires WellFormed(nodes) && id < |nodes| && IsImage(img) && i < |img| && j < Width(img)
    requires !SubtreeCovers(nodes, id, |img|, Width(img), i, j)
    ensures Paint(nodes, id, img).image[i][j] == img[i][j]
    decreases |nodes| - id, 1
  {
    assert KindOk(nodes[id].kind);
    match Draw(nodes[id])
    case Failed(e) =>
    case Drawn(t) =>
      var a := AbsPosition(nodes, id);
      var b := Blit(img, t, a.x, a.y);
      assert b[i][j] == img[i][j];
      assert Width(b) == Width(img) by { assert |b[0]| == |img[0]|; }
      PaintChildrenUncovered(nodes, id, 0, b, i, j);
  }

  lemma {:induction false} PaintChildrenUncovered(nodes: seq<Node>, p: nat, k: nat, img: Image, i: nat, j: nat)
    requires WellFormed(nodes) && p < |nodes| && k <= |nodes[p].children| && IsImage(img)
    requires i < |img| && j < Width(img)
    requires !ChildrenCover(nodes, p, k, |img|, Width(img), i, j)
    ensures PaintChildren(nodes, p, k, img).image[i][j] == img[i][j]
    decreases |nodes| - p, 0, |nodes[p].children| - k
  {
    var ch := nodes[p].children;
    if k < |ch| {
      assert ChildrenLinked(nodes, p);
      PaintSubtreeUncovered(nodes, ch[k], img, i, j);
      var o := Paint(nodes, ch[k], img);
      if o.error.None? {
        assert Width(o.image) == Width(img) by { assert |o.image[0]| == |img[0]|; }
        PaintChildrenUncovered(nodes, p, k + 1, o.image, i, j);
      }
    }
  }

  /** Where none of a node's descendants writes, its pass leaves what its own copy left. */
  lemma PaintOwnCopyKept(nodes: seq<Node>, c: nat, img: Image, i: nat, j: nat)
    requires WellFormed(nodes) && c < |nodes| && IsImage(img) && i < |img| && j < Width(img)
    requires KindOk(nodes[c].kind) && Draw(nodes[c]).Drawn?
    requires !ChildrenCover(nodes, c, 0, |img|, Width(img), i, j)
    ensures var a := AbsPosition(nodes, c);
      Paint(nodes, c, img).image[i][j] == Blit(img, Draw(nodes[c]).tile, a.x, a.y)[i][j]
  {
    var a := AbsPosition(nodes, c);
    var b := Blit(img, Draw(nodes[c]).tile, a.x, a.y);
    assert Width(b) == Width(img) by { assert |b[0]| == |img[0]|; }
    PaintChildrenUncovered(nodes, c, 0, b, i, j);
  }

  /** Where a node's own copy writes and none of its descendants does, its pass leaves its own pixel. */
  lemma PaintOwnPixel(nodes: seq<Node>, c: nat, img: Image, i: nat, j: nat)
    requires WellFormed(nodes) && c < |nodes| && IsImage(img) && i < |img| && j < Width(img)
    requires NodeCovers(nodes, c, |img|, Width(img), i, j)
    requires !ChildrenCover(nodes, c, 0, |img|, Width(img), i, j)
    ensures Paint(nodes, c, img).image[i][j] == OwnPixel(nodes, c, |img|, Width(img), i, j)
  {
    assert KindOk(nodes[c].kind);
    var t := Draw(nodes[c]).tile;
    var a := AbsPosition(nodes, c);
    var b := Blit(img, t, a.x, a.y);
    assert b[i][j] == OwnPixel(nodes, c, |img|, Width(img), i, j) by {
      BlitCovered(img, t, a.x, a.y, i, j);
    }
    assert Paint(nodes, c, img).image[i][j] == b[i][j] by {
      PaintOwnCopyKept(nodes, c, img, i, j);
    }
  }

  /**
   * The loop over children[k..] of p, on an h-by-w target: when it succeeds, the
   * l-th child's own pixel survives where nothing rendered after it writes.
   */
  lemma {:induction false} PaintChildrenLaterWins(nodes: seq<Node>, p: nat, k: nat, l: nat, img: Image, h: nat, w: nat, i: nat, j: nat)
    requires WellFormed(nodes) && p < |nodes| && k <= l < |nodes[p].children| && IsImage(img)
    requires |img| == h && Width(img) == w && i < h && j < w
    requires var c := nodes[p].children[l];
      c < |nodes| && NodeCovers(nodes, c, h, w, i, j) && !ChildrenCover(nodes, c, 0, h, w, i, j)
    requires !ChildrenCover(nodes, p, l + 1, h, w, i, j)
    requires PaintChildren(nodes, p, k, img).error.None?
    ensures PaintChildren(nodes, p, k, img).image[i][j] == OwnPixel(nodes, nodes[p].children[l], h, w, i, j)
    decreases l - k
  {
    assert ChildrenLinked(nodes, p);
    var ch := nodes[p].children;
    var o := Paint(nodes, ch[k], img);
    assert PaintChildren(nodes, p, k, img) == PaintChildren(nodes, p, k + 1, o.image);
    assert Width(o.image) == Width(img) by { assert |o.image[0]| == |img[0]|; }
    if k < l {
      PaintChildrenLaterWins(nodes, p, k + 1, l, o.image, h, w, i, j);
    } else {
      PaintOwnPixel(nodes, ch[l], img, i, j);
      PaintChildrenUncovered(nodes, p, l + 1, o.image, i, j);
    }
  }

  /** A pass that succeeds is the pass over the children of some target b of the same shape. */
  lemma PaintSucceeded(nodes: seq<Node>, p: nat, img: Image) returns (b: Image)
    requires WellFormed(nodes) && p < |nodes| && IsImage(img)
    requires Paint(nodes, p, img).error.None?
    ensures IsImage(b) && |b| == |img| && Width(b) == Width(img)
    ensures Paint(nodes, p, img) == PaintChildren(nodes, p, 0, b)
  {
    assert KindOk(nodes[p].kind);
    var a := AbsPosition(nodes, p);
    b := Blit(img, Draw(nodes[p]).tile, a.x, a.y);
    if |img| > 0 {
      assert |b[0]| == |img[0]|;
    }
  }

  /**
   * Children render after their parent and in list order, each with its whole
   * subtree: when a pass over p succeeds, a cell that the l-th child's own copy
   * writes, and that no node rendered after it writes (its descendants and the
   * subtrees of later siblings), holds that child's pixel, whatever p or the
   * earlier siblings and their subtrees wrote there.
   */
  lemma LaterSiblingPaintsOnTop(nodes: seq<Node>, p: nat, l: nat, img: Image, i: nat, j: nat)
    requires WellFormed(nodes) && p < |nodes| && l < |nodes[p].children| && IsImage(img)
    requires i < |img| && j < Width(img)
    requires var c := nodes[p].children[l];
      c < |nodes| && NodeCovers(nodes, c, |img|, Width(img), i, j) &&
      !ChildrenCover(nodes, c, 0, |img|, Width(img), i, j)
    requires !ChildrenCover(nodes, p, l + 1, |img|, Width(img), i, j)
    requires Paint(nodes, p, img).error.None?
    ensures Paint(nodes, p, img).image[i][j] == OwnPixel(nodes, nodes[p].children[l], |img|, Width(img), i, j)
  {
    var b := PaintSucceeded(nodes, p, img);
    PaintChildrenLaterWins(nodes, p, 0, l, b, |img|, Width(img), i, j);
  }

  /** A subtree whose root is of the abstract base class fails with "not implemented" and writes nothing. */
  lemma AbstractNodeFails(nodes: seq<Node>, id: nat, img: Image)
    requires WellFormed(nodes) && id < |nodes| && IsImage(img) && nodes[id].kind.Abstract?
    ensures Paint(nodes, id, img) == Outcome(img, Some(NotImplemented))
  {
  }

  // ---------------------------------------------------------------------------
  // The render method on a target array

  ghost function Pixels(a: array2<Pixel>): (r: Image)
    reads a
    ensures IsImage(r) && |r| == a.Length0
    ensures forall i :: 0 <= i < |r| ==> |r[i]| == a.Length1
  {
    seq(a.Length0, i requires 0 <= i < a.Length0 reads a =>
      seq(a.Length1, j requires 0 <= j < a.Length1 reads a => a[i, j]))
  }

  /**
   * The slice assignment of a node's tile into the target: exactly the
   * clipped rectangle is overwritten with the tile's pixels.
   */
  method CopyTile(target: array2<Pixel>, t: Tile, ax: int, ay: int)
    requires IsTile(t)
    modifies target
    ensures forall i, j :: 0 <= i < target.Length0 && 0 <= j < target.Length1 ==>
      target[i, j] == if Covered(target.Length0, target.Length1, |t|, TileWidth(t), ax, ay, i, j)
                      then t[i - ay][j - ax] else old(target[i, j])
    ensures Pixels(target) == Blit(old(Pixels(target)), t, ax, ay)
  {
    ghost var before := Pixels(target);
    var h, w := target.Length0, target.Length1;
    if 0 <= ax < w && 0 <= ay < h {
      forall i, j | 0 <= i < h && 0 <= j < w && Covered(h, w, |t|, TileWidth(t), ax, ay, i, j) {
        target[i, j] := t[i - ay][j - ax];
      }
    }
    ghost var after := Pixels(target);
    ghost var spec := Blit(before, t, ax, ay);
    assert h > 0 ==> Width(before) == w;
    forall i, j | 0 <= i < |after| && 0 <= j < |after[i]| ensures after[i][j] == spec[i][j] {
    }
    ImageExt(after, spec);
  }

  /** render on one node, with a target present. */
  method RenderNode(scene: Scene, id: nat, target: array2<Pixel>) returns (err: Option<RenderError>)
    requires scene.Valid() && id < |scene.nodes|
    modifies target
    ensures Outcome(Pixels(target), err) == Paint(scene.nodes, id, old(Pixels(target)))
    decreases |scene.nodes| - id
  {
    var n := scene.nodes[id];
    assert KindOk(n.kind);
    var d := Draw(n);
    if d.Failed? {
      return Some(d.error);
    }
    var a := AbsPosition(scene.nodes, id);
    CopyTile(target, d.tile, a.x, a.y);
    ghost var start := Pixels(target);
    assert ChildrenLinked(scene.nodes, id);
    var k := 0;
    while k < |n.children|
      invariant 0 <= k <= |n.children|
      invariant PaintChildren(scene.nodes, id, 0, start) == PaintChildren(scene.nodes, id, k, Pixels(target))
    {
      err := RenderNode(scene, n.children[k], target);
      if err.Some? {
        return;
      }
      k := k + 1;
    }
    return None;
  }

  /** GuiComponent.render: a missing target is an error and nothing is written. */
  method Render(scene: Scene, id: nat, target: array2?<Pixel>) returns (err: Option<RenderError>)
    requires scene.Valid() && id < |scene.nodes|
    modifies target
    ensures target == null ==> err == Some(InvalidTarget)
    ensures target != null ==> Outcome(Pixels(target), err) == Paint(scene.nodes, id, old(Pixels(target)))
  {
    if target == null {
      return Some(InvalidTarget);
    }
    err := RenderNode(scene, id, target);
  }
}
