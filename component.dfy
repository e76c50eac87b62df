/**
 * The component tree of gui_component.py (class GuiComponent), held in an
 * arena: a node is identified by its index in `Scene.nodes`, its parent is an
 * optional index (the weak back-reference) and its children an ordered list of
 * indices. Acyclicity is represented by the arena order: a parent always has a
 * smaller index than each of its children, which is what makes the upward walk
 * of AbsPosition and the downward folds of TotalExtent terminate.
 */
module Component {

  datatype Option<T> = None | Some(value: T)

  /** An (x, y) pair: a position relative to the parent, or an absolute one. */
  datatype Point = Point(x: int, y: int)

  function Add(a: Point, b: Point): Point
  {
    Point(a.x + b.x, a.y + b.y)
  }

  /** A pixel is an abstract colour value; 0 is the all-zero pixel. */
  type Pixel = int

  /** A raster tile as a list of rows; a tile is rectangular (IsTile). */
  type Tile = seq<seq<Pixel>>

  predicate IsTile(t: Tile)
  {
    forall i :: 0 <= i < |t| ==> |t[i]| == |t[0]|
  }

  function TileWidth(t: Tile): nat
  {
    if |t| == 0 then 0 else |t[0]|
  }

  /**
   * What a node's draw hook does: the base class raises "not implemented",
   * a grid produces an all-zero tile of its own size, and a concrete leaf
   * (a subclass outside this model) produces a tile of its choosing.
   */
  datatype Kind = Abstract | Background | Leaf(tile: Tile)

  datatype Node = Node(parent: Option<nat>, children: seq<nat>, pos: Point,
                       width: int, height: int, kind: Kind)

  datatype Axis = X | Y

  function Offset(n: Node, axis: Axis): int
  {
    if axis == X then n.pos.x else n.pos.y
  }

  function Size(n: Node, axis: Axis): int
  {
    if axis == X then n.width else n.height
  }

  predicate Distinct(s: seq<nat>)
  {
    forall k, l :: 0 <= k < l < |s| ==> s[k] != s[l]
  }

  /** A node's back-reference agrees with its parent's children list. */
  predicate ParentLinked(nodes: seq<Node>, i: nat)
    requires i < |nodes|
  {
    match nodes[i].parent
    case None => true
    case Some(p) => p < i && i in nodes[p].children
  }

  /** Every child listed by p exists, comes after p and points back to p; no child is listed twice. */
  predicate ChildrenLinked(nodes: seq<Node>, p: nat)
    requires p < |nodes|
  {
    var ch := nodes[p].children;
    (forall k :: 0 <= k < |ch| ==> p < ch[k] < |nodes| && nodes[ch[k]].parent == Some(p)) &&
    Distinct(ch)
  }

  predicate KindOk(k: Kind)
  {
    k.Leaf? ==> IsTile(k.tile)
  }

  /** The tree invariant every operation keeps. */
  predicate WellFormed(nodes: seq<Node>)
  {
    (forall i :: 0 <= i < |nodes| ==> ParentLinked(nodes, i)) &&
    (forall p :: 0 <= p < |nodes| ==> ChildrenLinked(nodes, p)) &&
    (forall i :: 0 <= i < |nodes| ==> KindOk(nodes[i].kind))
  }

  // ---------------------------------------------------------------------------
  // Queries (gui_component.py abs_position, total_width, total_height)

  /** The absolute position: the sum of the positions on the path to the root. */
  function AbsPosition(nodes: seq<Node>, id: nat): Point
    requires WellFormed(nodes) && id < |nodes|
    decreases id
  {
    assert ParentLinked(nodes, id);
    match nodes[id].parent
    case None => nodes[id].pos
    case Some(p) => Add(AbsPosition(nodes, p), nodes[id].pos)
  }

  /**
   * AbsPosition reads only the parent and position fields of the node and of
   * its ancestors, all of which have smaller indices.
   */
  lemma {:induction false} AbsPositionFrame(a: seq<Node>, b: seq<Node>, id: nat)
    requires WellFormed(a) && WellFormed(b) && id < |a| && id < |b|
    requires forall i :: 0 <= i <= id ==> a[i].parent == b[i].parent && a[i].pos == b[i].pos
    ensures AbsPosition(a, id) == AbsPosition(b, id)
    decreases id
  {
    assert ParentLinked(a, id);
    match a[id].parent
    case None =>
    case Some(p) => AbsPositionFrame(a, b, p);
  }

  /** The extent along an axis: the larger of the node's own size and each child's offset plus extent. */
  function TotalExtent(nodes: seq<Node>, id: nat, axis: Axis): (r: int)
    requires WellFormed(nodes) && id < |nodes|
    ensures r >= Size(nodes[id], axis)
    decreases |nodes| - id, 1
  {
    ChildrenExtent(nodes, id, axis, 0, Size(nodes[id], axis))
  }

  /** The max-accumulator loop over children[k..], started from acc. */
  function ChildrenExtent(nodes: seq<Node>, p: nat, axis: Axis, k: nat, acc: int): (r: int)
    requires WellFormed(nodes) && p < |nodes| && k <= |nodes[p].children|
    ensures r >= acc
    decreases |nodes| - p, 0, |nodes[p].children| - k
  {
    var ch := nodes[p].children;
    if k == |ch| then acc
    else
      assert ChildrenLinked(nodes, p);
      var c := ch[k];
      var e := Offset(nodes[c], axis) + TotalExtent(nodes, c, axis);
      ChildrenExtent(nodes, p, axis, k + 1, if e > acc then e else acc)
  }

  /** The extent a child demands of its parent. */
  function ChildDemand(nodes: seq<Node>, p: nat, k: nat, axis: Axis): int
    requires WellFormed(nodes) && p < |nodes| && k < |nodes[p].children|
  {
    assert ChildrenLinked(nodes, p);
    var c := nodes[p].children[k];
    Offset(nodes[c], axis) + TotalExtent(nodes, c, axis)
  }

  lemma {:induction false} ChildrenExtentIsMax(nodes: seq<Node>, p: nat, axis: Axis, k: nat, acc: int)
    requires WellFormed(nodes) && p < |nodes| && k <= |nodes[p].children|
    ensures var r := ChildrenExtent(nodes, p, axis, k, acc);
      r >= acc &&
      (forall j :: k <= j < |nodes[p].children| ==> r >= ChildDemand(nodes, p, j, axis)) &&
      (r == acc || exists j :: k <= j < |nodes[p].children| && r == ChildDemand(nodes, p, j, axis))
    decreases |nodes[p].children| - k
  {
    if k < |nodes[p].children| {
      var e := ChildDemand(nodes, p, k, axis);
      ChildrenExtentIsMax(nodes, p, axis, k + 1, if e > acc then e else acc);
    }
  }

  /**
   * total_width / total_height: the result is at least the node's own size and
   * at least every child's offset plus extent, and it is one of these values,
   * so it is their maximum.
   */
  lemma TotalExtentIsMax(nodes: seq<Node>, id: nat, axis: Axis)
    requires WellFormed(nodes) && id < |nodes|
    ensures var r := TotalExtent(nodes, id, axis);
      r >= Size(nodes[id], axis) &&
      (forall j :: 0 <= j < |nodes[id].children| ==> r >= ChildDemand(nodes, id, j, axis)) &&
      (r == Size(nodes[id], axis) ||
       exists j :: 0 <= j < |nodes[id].children| && r == ChildDemand(nodes, id, j, axis))
  {
    ChildrenExtentIsMax(nodes, id, axis, 0, Size(nodes[id], axis));
  }

  // ---------------------------------------------------------------------------
  // Tree updates as functions of the node list (add_child, remove_child)

  /** First index of x in s (what Python's list.remove deletes). */
  function IndexOf(s: seq<nat>, x: nat): (r: nat)
    requires x in s
    ensures r < |s| && s[r] == x
    ensures forall k :: 0 <= k < r ==> s[k] != x
  {
    if s[0] == x then 0 else 1 + IndexOf(s[1..], x)
  }

  /** The callers' side of the tree invariant: attach only below an earlier node, and never steal a child. */
  predicate CanAttach(nodes: seq<Node>, p: nat, c: nat)
    requires c < |nodes|
  {
    p < c && (nodes[c].parent.None? || nodes[c].parent == Some(p))
  }

  /** b differs from a at most in p's children list and in c's parent. */
  predicate LinksOnlyChanged(a: seq<Node>, b: seq<Node>, p: nat, c: nat)
  {
    |a| == |b| &&
    forall i :: 0 <= i < |a| ==>
      (i != c ==> b[i].parent == a[i].parent) &&
      (i != p ==> b[i].children == a[i].children) &&
      b[i].pos == a[i].pos && b[i].width == a[i].width &&
      b[i].height == a[i].height && b[i].kind == a[i].kind
  }

  /** add_child: append c to p's children unless already there, and point c at p. */
  function Attach(nodes: seq<Node>, p: nat, c: nat): (r: seq<Node>)
    requires WellFormed(nodes) && c < |nodes| && CanAttach(nodes, p, c)
    ensures WellFormed(r) && LinksOnlyChanged(nodes, r, p, c)
    ensures r[c].parent == Some(p)
    ensures c in nodes[p].children ==> r == nodes
    ensures c !in nodes[p].children ==> r[p].children == nodes[p].children + [c]
  {
    assert ChildrenLinked(nodes, p);
    assert ParentLinked(nodes, c);
    if c in nodes[p].children then
      nodes
    else
      var r := nodes[p := nodes[p].(children := nodes[p].children + [c])][c := nodes[c].(parent := Some(p))];
      AttachWellFormed(nodes, p, c, r);
      r
  }

  lemma AttachWellFormed(nodes: seq<Node>, p: nat, c: nat, r: seq<Node>)
    requires WellFormed(nodes) && c < |nodes| && CanAttach(nodes, p, c) && c !in nodes[p].children
    requires r == nodes[p := nodes[p].(children := nodes[p].children + [c])][c := nodes[c].(parent := Some(p))]
    ensures WellFormed(r)
  {
    assert nodes[c].parent.None? by { assert ParentLinked(nodes, c); }
    forall i | 0 <= i < |r| ensures ParentLinked(r, i) {
      assert ParentLinked(nodes, i);
    }
    forall q | 0 <= q < |r| ensures ChildrenLinked(r, q) {
      assert ChildrenLinked(nodes, q);
      if q != p {
        var ch := nodes[q].children;
        forall k | 0 <= k < |ch| ensures ch[k] != c {
          assert nodes[ch[k]].parent == Some(q);
        }
      }
    }
    forall i | 0 <= i < |r| ensures KindOk(r[i].kind) {
      assert KindOk(nodes[i].kind);
    }
  }

  /** In a list without duplicates, a listed element occurs exactly once. */
  lemma ListedOnce(s: seq<nat>, x: nat)
    requires Distinct(s) && x in s
    ensures multiset(s)[x] == 1
  {
    var i := IndexOf(s, x);
    assert s == s[..i] + [x] + s[i + 1..];
    assert x !in s[..i] && x !in s[i + 1..] by {
      forall k | 0 <= k < |s| && k != i ensures s[k] != x {
        if k < i { assert s[k] != s[i]; } else { assert s[i] != s[k]; }
      }
    }
    assert multiset(s) == multiset(s[..i]) + multiset{x} + multiset(s[i + 1..]);
  }

  /**
   * add_child is idempotent, and afterwards c is listed by p exactly once and
   * p is its parent.
   */
  lemma AttachIdempotent(nodes: seq<Node>, p: nat, c: nat)
    requires WellFormed(nodes) && c < |nodes| && CanAttach(nodes, p, c)
    ensures CanAttach(Attach(nodes, p, c), p, c)
    ensures Attach(Attach(nodes, p, c), p, c) == Attach(nodes, p, c)
    ensures multiset(Attach(nodes, p, c)[p].children)[c] == 1
  {
    var r := Attach(nodes, p, c);
    assert ChildrenLinked(r, p) && ParentLinked(r, c);
    ListedOnce(r[p].children, c);
  }

  /** Python's list.remove: the list without the first occurrence of x. */
  function RemoveFirst(s: seq<nat>, x: nat): (r: seq<nat>)
    requires x in s
    ensures |r| == |s| - 1
    ensures multiset(r) == multiset(s) - multiset{x}
  {
    var k := IndexOf(s, x);
    assert s == s[..k] + [x] + s[k + 1..];
    s[..k] + s[k + 1..]
  }

  /** In a list without duplicates, removing x leaves exactly the other elements, still without duplicates. */
  lemma RemoveFirstDistinct(s: seq<nat>, x: nat)
    requires x in s && Distinct(s)
    ensures Distinct(RemoveFirst(s, x))
    ensures forall y :: y in RemoveFirst(s, x) <==> y in s && y != x
  {
    var k := IndexOf(s, x);
    var r := RemoveFirst(s, x);
    forall j | 0 <= j < |r| ensures r[j] == (if j < k then s[j] else s[j + 1]) && r[j] != x {
      if j < k { assert s[j] != s[k]; } else { assert s[k] != s[j + 1]; }
    }
    forall y | y in s && y != x ensures y in r {
      var j :| 0 <= j < |s| && s[j] == y;
      if j < k { assert r[j] == y; } else { assert j != k && r[j - 1] == y; }
    }
    forall a, b | 0 <= a < b < |r| ensures r[a] != r[b] {
      var ia := if a < k then a else a + 1;
      var ib := if b < k then b else b + 1;
      assert r[a] == s[ia] && r[b] == s[ib] && ia < ib;
    }
  }

  /** remove_child: drop c from p's children and clear c's parent; no change when c is not p's child. */
  function Detach(nodes: seq<Node>, p: nat, c: nat): (r: seq<Node>)
    requires WellFormed(nodes) && p < |nodes| && c < |nodes|
    ensures WellFormed(r) && LinksOnlyChanged(nodes, r, p, c)
    ensures c !in r[p].children
    ensures c !in nodes[p].children ==> r == nodes
    ensures c in nodes[p].children ==> r[c].parent.None? && r[p].children == RemoveFirst(nodes[p].children, c)
  {
    var ch := nodes[p].children;
    if c !in ch then
      nodes
    else
      var r := nodes[p := nodes[p].(children := RemoveFirst(ch, c))][c := nodes[c].(parent := None)];
      DetachWellFormed(nodes, p, c, r);
      r
  }

  lemma DetachWellFormed(nodes: seq<Node>, p: nat, c: nat, r: seq<Node>)
    requires WellFormed(nodes) && p < |nodes| && c < |nodes| && c in nodes[p].children
    requires r == nodes[p := nodes[p].(children := RemoveFirst(nodes[p].children, c))][c := nodes[c].(parent := None)]
    ensures WellFormed(r) && c !in r[p].children
  {
    var ch := nodes[p].children;
    assert ChildrenLinked(nodes, p);
    RemoveFirstDistinct(ch, c);
    var rest := RemoveFirst(ch, c);
    assert r[p].children == rest;
    forall i | 0 <= i < |r| ensures ParentLinked(r, i) {
      assert ParentLinked(nodes, i);
    }
    forall q | 0 <= q < |r| ensures ChildrenLinked(r, q) {
      assert ChildrenLinked(nodes, q);
      if q != p {
        var cq := nodes[q].children;
        forall j | 0 <= j < |cq| ensures cq[j] != c {
          assert nodes[cq[j]].parent == Some(q);
        }
      }
    }
    forall i | 0 <= i < |r| ensures KindOk(r[i].kind) {
      assert KindOk(nodes[i].kind);
    }
  }

  /** Setting a node's position (as GUIGrid does) keeps the tree invariant. */
  function SetPos(nodes: seq<Node>, c: nat, pos: Point): (r: seq<Node>)
    requires WellFormed(nodes) && c < |nodes|
    ensures |r| == |nodes| && WellFormed(r)
    ensures r[c] == nodes[c].(pos := pos)
    ensures forall i :: 0 <= i < |r| && i != c ==> r[i] == nodes[i]
  {
    var r := nodes[c := nodes[c].(pos := pos)];
    assert WellFormed(r) by {
      forall i | 0 <= i < |r| ensures ParentLinked(r, i) && ChildrenLinked(r, i) && KindOk(r[i].kind) {
        assert ParentLinked(nodes, i) && ChildrenLinked(nodes, i) && KindOk(nodes[i].kind);
      }
    }
    r
  }

  /** The width and height setters: a node's own size changes, nothing else. */
  function SetSize(nodes: seq<Node>, c: nat, width: int, height: int): (r: seq<Node>)
    requires WellFormed(nodes) && c < |nodes|
    ensures |r| == |nodes| && WellFormed(r)
    ensures r[c] == nodes[c].(width := width, height := height)
    ensures forall i :: 0 <= i < |r| && i != c ==> r[i] == nodes[i]
  {
    var r := nodes[c := nodes[c].(width := width, height := height)];
    assert WellFormed(r) by {
      forall i | 0 <= i < |r| ensures ParentLinked(r, i) && ChildrenLinked(r, i) && KindOk(r[i].kind) {
        assert ParentLinked(nodes, i) && ChildrenLinked(nodes, i) && KindOk(nodes[i].kind);
      }
    }
    r
  }

  /** A new root node appended to the arena keeps the tree invariant. */
  function Grow(nodes: seq<Node>, n: Node): (r: seq<Node>)
    requires WellFormed(nodes) && n.parent.None? && n.children == [] && KindOk(n.kind)
    ensures r == nodes + [n] && WellFormed(r)
  {
    var r := nodes + [n];
    assert WellFormed(r) by {
      forall i | 0 <= i < |r| ensures ParentLinked(r, i) && ChildrenLinked(r, i) && KindOk(r[i].kind) {
        if i < |nodes| {
          assert ParentLinked(nodes, i) && ChildrenLinked(nodes, i) && KindOk(nodes[i].kind);
        }
      }
    }
    r
  }

  /**
   * GuiComponent.__init__ on the arena: the new node gets the next index, no
   * children, and is attached to the given parent, if any.
   */
  function NewNode(nodes: seq<Node>, width: int, height: int, parent: Option<nat>, pos: Point, kind: Kind): (r: seq<Node>)
    requires WellFormed(nodes) && KindOk(kind) && (parent.Some? ==> parent.value < |nodes|)
    ensures WellFormed(r) && |r| == |nodes| + 1
    ensures r[|nodes|] == Node(parent, [], pos, width, height, kind)
    ensures parent.None? ==> r[..|nodes|] == nodes
    ensures parent.Some? ==> r[parent.value].children == nodes[parent.value].children + [|nodes|]
    ensures forall i :: 0 <= i < |nodes| && (parent.None? || i != parent.value) ==> r[i] == nodes[i]
  {
    var g := Grow(nodes, Node(None, [], pos, width, height, kind));
    if parent.Some? then
      assert |nodes| !in nodes[parent.value].children by { assert ChildrenLinked(nodes, parent.value); }
      Attach(g, parent.value, |nodes|)
    else g
  }

  /**
   * After add_child(p, c), c's absolute position is p's absolute position plus
   * c's own position.
   */
  lemma AbsPositionAfterAttach(nodes: seq<Node>, p: nat, c: nat)
    requires WellFormed(nodes) && c < |nodes| && CanAttach(nodes, p, c)
    ensures AbsPosition(Attach(nodes, p, c), c) == Add(AbsPosition(nodes, p), nodes[c].pos)
  {
    var r := Attach(nodes, p, c);
    AbsPositionFrame(nodes, r, p);
  }

  /** After remove_child(p, c), c is a root: its absolute position is its own position. */
  lemma AbsPositionAfterDetach(nodes: seq<Node>, p: nat, c: nat)
    requires WellFormed(nodes) && p < |nodes| && c < |nodes| && c in nodes[p].children
    ensures AbsPosition(Detach(nodes, p, c), c) == nodes[c].pos
  {
  }

  // ---------------------------------------------------------------------------
  // The mutable tree

  class Scene {
    var nodes: seq<Node>

    ghost predicate Valid()
      reads this
    {
      WellFormed(nodes)
    }

    constructor ()
      ensures Valid() && nodes == []
    {
      nodes := [];
    }

    /**
     * GuiComponent.__init__: a new node with no children and no tile yet;
     * when a parent is given, the parent's add_child attaches it.
     */
    method NewComponent(width: int, height: int, parent: Option<nat>, pos: Point, kind: Kind)
      returns (id: nat)
      requires Valid() && KindOk(kind)
      requires parent.Some? ==> parent.value < |nodes|
      modifies this
      ensures Valid() && id == old(|nodes|)
      ensures nodes == NewNode(old(nodes), width, height, parent, pos, kind)
    {
      id := |nodes|;
      nodes := Grow(nodes, Node(None, [], pos, width, height, kind));
      if parent.Some? {
        AddChild(parent.value, id);
      }
    }

    /** add_child */
    method AddChild(p: nat, c: nat)
      requires Valid() && c < |nodes| && CanAttach(nodes, p, c)
      modifies this
      ensures Valid() && nodes == Attach(old(nodes), p, c)
    {
      assert ChildrenLinked(nodes, p) && ParentLinked(nodes, c);
      if c !in nodes[p].children {
        ghost var before := nodes;
        nodes := nodes[p := nodes[p].(children := nodes[p].children + [c])][c := nodes[c].(parent := Some(p))];
        AttachWellFormed(before, p, c, nodes);
      }
    }

    /** remove_child */
    method RemoveChild(p: nat, c: nat)
      requires Valid() && p < |nodes| && c < |nodes|
      modifies this
      ensures Valid() && nodes == Detach(old(nodes), p, c)
    {
      var ch := nodes[p].children;
      if c in ch {
        ghost var before := nodes;
        nodes := nodes[p := nodes[p].(children := RemoveFirst(ch, c))][c := nodes[c].(parent := None)];
        DetachWellFormed(before, p, c, nodes);
      }
    }

    /** Assigning `child.position`. */
    method SetPosition(c: nat, pos: Point)
      requires Valid() && c < |nodes|
      modifies this
      ensures Valid() && nodes == SetPos(old(nodes), c, pos)
    {
      nodes := SetPos(nodes, c, pos);
    }

    /** Assigning `width` and `height`. */
    method SetDimensions(c: nat, width: int, height: int)
      requires Valid() && c < |nodes|
      modifies this
      ensures Valid() && nodes == SetSize(old(nodes), c, width, height)
    {
      nodes := SetSize(nodes, c, width, height);
    }
  }
}
