/**
 * The grid layout of gui_grid.py (class GUIGrid): a component whose children
 * sit in row/column cells on a fixed pitch. Besides the generic children list
 * of its node, the grid keeps `records`, the list of (child, row, col)
 * entries of gui_grid.py's `grid_children`, in insertion order.
 *
 * The functions PlaceAt, PlaceAuto, Unplace and Resize state each operation
 * on a GridState value; the methods of GridLayout perform them in place and
 * are proved equal to them.
 *
 * Two inconsistencies of gui_grid.py are not reproduced:
 *  - GUIGrid.__init__ passes an `auto_size` argument that GuiComponent's
 *    constructor does not accept (gui_grid.py:46 against
 *    gui_component.py:9-16); the model builds the node as intended.
 *  - resize_grid stores the new size in `_width_spec`/`_height_spec`, which
 *    nothing reads, while `width`/`height` read `_width`/`_height`
 *    (gui_grid.py:148-149 against gui_component.py:39-54); the model updates
 *    the node's width and height to the size formula, as intended.
 */
module Grid {
  import opened Component

  datatype Cell = Cell(row: int, col: int)

  /** One entry of `grid_children`. */
  datatype Record = Record(child: nat, row: int, col: int)

  /** The fields of a grid that never change: its node and its pitch. */
  datatype Config = Config(id: nat, cellWidth: int, cellHeight: int, padding: int)

  /** Everything a grid operation reads or writes. */
  datatype GridState = GridState(nodes: seq<Node>, records: seq<Record>, rows: int, cols: int)

  /** An operation's success flag and the state it leaves. */
  datatype Placed = Placed(ok: bool, state: GridState)

  // ---------------------------------------------------------------------------
  // Geometry

  /** Pixel length of n cells of the given size with padding between neighbours. */
  function Extent(n: int, cell: int, padding: int): int
  {
    n * cell + (n - 1) * padding
  }

  /** The position a child receives for cell (row, col). */
  function CellOrigin(cfg: Config, row: int, col: int): Point
  {
    Point(col * (cfg.cellWidth + cfg.padding), row * (cfg.cellHeight + cfg.padding))
  }

  predicate InBounds(rows: int, cols: int, row: int, col: int)
  {
    !(row >= rows || col >= cols || row < 0 || col < 0)
  }

  lemma MulMono(a: int, b: int, k: int)
    requires a <= b && k >= 0
    ensures a * k <= b * k
  {
    assert b * k - a * k == (b - a) * k;
  }

  /**
   * Every cell of an n-by-m grid lies inside the grid's size, and the last
   * row and column end exactly at its bottom and right edges (for a pitch
   * that is not negative).
   */
  lemma CellsFitInGrid(cfg: Config, rows: int, cols: int, row: int, col: int)
    requires InBounds(rows, cols, row, col)
    requires cfg.cellWidth + cfg.padding >= 0 && cfg.cellHeight + cfg.padding >= 0
    ensures CellOrigin(cfg, row, col).x + cfg.cellWidth <= Extent(cols, cfg.cellWidth, cfg.padding)
    ensures CellOrigin(cfg, row, col).y + cfg.cellHeight <= Extent(rows, cfg.cellHeight, cfg.padding)
    ensures col == cols - 1 ==> CellOrigin(cfg, row, col).x + cfg.cellWidth == Extent(cols, cfg.cellWidth, cfg.padding)
    ensures row == rows - 1 ==> CellOrigin(cfg, row, col).y + cfg.cellHeight == Extent(rows, cfg.cellHeight, cfg.padding)
  {
    MulMono(col, cols - 1, cfg.cellWidth + cfg.padding);
    MulMono(row, rows - 1, cfg.cellHeight + cfg.padding);
    assert Extent(cols, cfg.cellWidth, cfg.padding) == (cols - 1) * (cfg.cellWidth + cfg.padding) + cfg.cellWidth;
    assert Extent(rows, cfg.cellHeight, cfg.padding) == (rows - 1) * (cfg.cellHeight + cfg.padding) + cfg.cellHeight;
  }

  // ---------------------------------------------------------------------------
  // The records list

  /** The records that do not name child c, in their order. */
  function Without(records: seq<Record>, c: nat): (r: seq<Record>)
    ensures forall x :: x in r <==> x in records && x.child != c
  {
    if records == [] then []
    else (if records[0].child == c then [] else [records[0]]) + Without(records[1..], c)
  }

  predicate DistinctChildren(records: seq<Record>)
  {
    forall k, l :: 0 <= k < l < |records| ==> records[k].child != records[l].child
  }

  lemma {:induction false} WithoutDistinct(records: seq<Record>, c: nat)
    requires DistinctChildren(records)
    ensures DistinctChildren(Without(records, c))
  {
    if records != [] {
      var tail := records[1..];
      assert DistinctChildren(tail) by {
        forall k, l | 0 <= k < l < |tail| ensures tail[k].child != tail[l].child {
          assert records[k + 1].child != records[l + 1].child;
        }
      }
      WithoutDistinct(tail, c);
      var w := Without(tail, c);
      forall x | x in w ensures x.child != records[0].child {
        var l :| 0 <= l < |tail| && tail[l] == x;
        assert records[0].child != records[l + 1].child;
      }
    }
  }

  /** A record list without an entry for c is left alone by Without. */
  lemma {:induction false} WithoutAbsent(records: seq<Record>, c: nat)
    requires forall k :: 0 <= k < |records| ==> records[k].child != c
    ensures Without(records, c) == records
  {
    if records != [] {
      WithoutAbsent(records[1..], c);
    }
  }

  /** get_grid_position: the cell of the first record for c, if there is one. */
  function CellOf(records: seq<Record>, c: nat): (r: Option<Cell>)
    ensures r.None? <==> forall k :: 0 <= k < |records| ==> records[k].child != c
    ensures r.Some? ==> Record(c, r.value.row, r.value.col) in records
  {
    if records == [] then None
    else if records[0].child == c then Some(Cell(records[0].row, records[0].col))
    else
      var r := CellOf(records[1..], c);
      assert r.None? ==> forall k :: 0 <= k < |records| ==> records[k].child != c by {
        if r.None? {
          forall k | 0 <= k < |records| ensures records[k].child != c {
            if k > 0 { assert records[k] == records[1..][k - 1]; }
          }
        }
      }
      r
  }

  /** In a list with one record per child, the cell of a listed record is what get_grid_position returns. */
  lemma {:induction false} CellOfListed(records: seq<Record>, x: Record)
    requires DistinctChildren(records) && x in records
    ensures CellOf(records, x.child) == Some(Cell(x.row, x.col))
  {
    if records[0] != x {
      var tail := records[1..];
      assert x in tail;
      assert records[0].child != x.child by {
        var l :| 0 <= l < |tail| && tail[l] == x;
        assert records[0].child != records[l + 1].child;
      }
      assert DistinctChildren(tail) by {
        forall k, l | 0 <= k < l < |tail| ensures tail[k].child != tail[l].child {
          assert records[k + 1].child != records[l + 1].child;
        }
      }
      CellOfListed(tail, x);
    }
  }

  /** Some record names cell (row, col). */
  predicate Occupied(records: seq<Record>, row: int, col: int)
  {
    records != [] && ((records[0].row == row && records[0].col == col) || Occupied(records[1..], row, col))
  }

  lemma {:induction false} OccupiedIff(records: seq<Record>, row: int, col: int)
    ensures Occupied(records, row, col) <==> exists k :: 0 <= k < |records| && records[k].row == row && records[k].col == col
  {
    if records != [] {
      OccupiedIff(records[1..], row, col);
      if Occupied(records[1..], row, col) {
        var k :| 0 <= k < |records| - 1 && records[1..][k].row == row && records[1..][k].col == col;
        assert records[k + 1] == records[1..][k];
      }
      if exists k :: 0 <= k < |records| && records[k].row == row && records[k].col == col {
        var k :| 0 <= k < |records| && records[k].row == row && records[k].col == col;
        if k > 0 { assert records[1..][k - 1] == records[k]; }
      }
    }
  }

  // ---------------------------------------------------------------------------
  // Row-major search for a free cell (add_child_auto's nested loops)

  /** The first free cell at or after (row, col) in row-major order. */
  function FirstFreeFrom(records: seq<Record>, rows: int, cols: int, row: nat, col: nat): Option<Cell>
    decreases rows - row, cols - col
  {
    if row >= rows || cols <= 0 then None
    else if col >= cols then FirstFreeFrom(records, rows, cols, row + 1, 0)
    else if !Occupied(records, row, col) then Some(Cell(row, col))
    else FirstFreeFrom(records, rows, cols, row, col + 1)
  }

  function FirstFree(records: seq<Record>, rows: int, cols: int): Option<Cell>
  {
    FirstFreeFrom(records, rows, cols, 0, 0)
  }

  /** Cell a comes before cell b in row-major order. */
  predicate Before(a: Cell, b: Cell)
  {
    a.row < b.row || (a.row == b.row && a.col < b.col)
  }

  lemma {:induction false} FirstFreeFromIsFirst(records: seq<Record>, rows: int, cols: int, row: nat, col: nat)
    ensures var r := FirstFreeFrom(records, rows, cols, row, col);
      (r.Some? ==>
         InBounds(rows, cols, r.value.row, r.value.col) && !Occupied(records, r.value.row, r.value.col) &&
         !Before(r.value, Cell(row, col)) &&
         forall i, j :: InBounds(rows, cols, i, j) && !Before(Cell(i, j), Cell(row, col)) && Before(Cell(i, j), r.value) ==>
           Occupied(records, i, j)) &&
      (r.None? ==> forall i, j :: InBounds(rows, cols, i, j) && !Before(Cell(i, j), Cell(row, col)) ==>
           Occupied(records, i, j))
    decreases rows - row, cols - col
  {
    if row >= rows || cols <= 0 {
    } else if col >= cols {
      FirstFreeFromIsFirst(records, rows, cols, row + 1, 0);
    } else if !Occupied(records, row, col) {
    } else {
      FirstFreeFromIsFirst(records, rows, cols, row, col + 1);
    }
  }

  /**
   * add_child_auto's search: the cell found is in range, has no record, and
   * every cell before it in row-major order has one; no cell is found exactly
   * when every cell of the grid has a record.
   */
  lemma FirstFreeIsFirst(records: seq<Record>, rows: int, cols: int)
    ensures var r := FirstFree(records, rows, cols);
      (r.Some? ==>
         InBounds(rows, cols, r.value.row, r.value.col) && !Occupied(records, r.value.row, r.value.col) &&
         forall i, j :: InBounds(rows, cols, i, j) && Before(Cell(i, j), r.value) ==> Occupied(records, i, j)) &&
      (r.None? <==> forall i, j :: InBounds(rows, cols, i, j) ==> Occupied(records, i, j))
  {
    FirstFreeFromIsFirst(records, rows, cols, 0, 0);
  }

  // ---------------------------------------------------------------------------
  // The grid invariant and the operations on values

  /** A record names a child of this grid, listed after it in the arena, at a cell inside the grid. */
  predicate RecordOk(cfg: Config, s: GridState, x: Record)
  {
    cfg.id < x.child < |s.nodes| && s.nodes[x.child].parent == Some(cfg.id) &&
    InBounds(s.rows, s.cols, x.row, x.col)
  }

  predicate GridInv(cfg: Config, s: GridState)
  {
    WellFormed(s.nodes) && cfg.id < |s.nodes| &&
    s.nodes[cfg.id].kind == Background &&
    s.nodes[cfg.id].width == Extent(s.cols, cfg.cellWidth, cfg.padding) &&
    s.nodes[cfg.id].height == Extent(s.rows, cfg.cellHeight, cfg.padding) &&
    (forall k :: 0 <= k < |s.records| ==> RecordOk(cfg, s, s.records[k])) &&
    DistinctChildren(s.records)
  }

  /** What add_child_to_grid needs of its argument. */
  predicate Placeable(cfg: Config, s: GridState, c: nat)
  {
    GridInv(cfg, s) && c < |s.nodes| && CanAttach(s.nodes, cfg.id, c)
  }

  /** add_child_to_grid on a state. */
  function PlaceAt(cfg: Config, s: GridState, c: nat, row: int, col: int): (r: Placed)
    requires Placeable(cfg, s, c)
    ensures GridInv(cfg, r.state) && |r.state.nodes| == |s.nodes|
    ensures r.state.rows == s.rows && r.state.cols == s.cols
  {
    if !InBounds(s.rows, s.cols, row, col) then Placed(false, s)
    else
      var nodes := Attach(SetPos(s.nodes, c, CellOrigin(cfg, row, col)), cfg.id, c);
      var r := s.(nodes := nodes, records := Without(s.records, c) + [Record(c, row, col)]);
      PlaceAtInv(cfg, s, c, row, col, r);
      Placed(true, r)
  }

  lemma PlaceAtInv(cfg: Config, s: GridState, c: nat, row: int, col: int, r: GridState)
    requires Placeable(cfg, s, c) && InBounds(s.rows, s.cols, row, col)
    requires r == s.(nodes := Attach(SetPos(s.nodes, c, CellOrigin(cfg, row, col)), cfg.id, c),
                     records := Without(s.records, c) + [Record(c, row, col)])
    ensures GridInv(cfg, r)
  {
    var w := Without(s.records, c);
    WithoutDistinct(s.records, c);
    forall k | 0 <= k < |r.records| ensures RecordOk(cfg, r, r.records[k]) {
      if k < |w| {
        assert w[k] in w;
        var j :| 0 <= j < |s.records| && s.records[j] == w[k];
        assert RecordOk(cfg, s, s.records[j]);
      }
    }
    forall k, l | 0 <= k < l < |r.records| ensures r.records[k].child != r.records[l].child {
      if l == |w| { assert r.records[k] in w; }
    }
  }

  /** add_child_auto on a state: place at the first free cell, or fail and change nothing. */
  function PlaceAuto(cfg: Config, s: GridState, c: nat): (r: Placed)
    requires Placeable(cfg, s, c)
    ensures GridInv(cfg, r.state) && |r.state.nodes| == |s.nodes|
    ensures r.state.rows == s.rows && r.state.cols == s.cols
  {
    match FirstFree(s.records, s.rows, s.cols)
    case None => Placed(false, s)
    case Some(cell) => PlaceAt(cfg, s, c, cell.row, cell.col)
  }

  /** remove_child_from_grid on a state. */
  function Unplace(cfg: Config, s: GridState, c: nat): (r: GridState)
    requires GridInv(cfg, s) && c < |s.nodes|
    ensures GridInv(cfg, r) && |r.nodes| == |s.nodes| && r.rows == s.rows && r.cols == s.cols
  {
    var r := s.(nodes := Detach(s.nodes, cfg.id, c), records := Without(s.records, c));
    WithoutDistinct(s.records, c);
    forall k | 0 <= k < |r.records| ensures RecordOk(cfg, r, r.records[k]) {
      assert r.records[k] in r.records;
      var j :| 0 <= j < |s.records| && s.records[j] == r.records[k];
      assert RecordOk(cfg, s, s.records[j]);
    }
    r
  }

  /**
   * What resize_grid still has to re-place: records for children of the grid
   * with non-negative cells, one per child, none of them re-placed yet.
   */
  predicate Pending(cfg: Config, s: GridState, old_: seq<Record>)
  {
    GridInv(cfg, s) && DistinctChildren(old_) &&
    forall k :: 0 <= k < |old_| ==>
      cfg.id < old_[k].child < |s.nodes| && s.nodes[old_[k].child].parent == Some(cfg.id) &&
      old_[k].row >= 0 && old_[k].col >= 0 &&
      Unlisted(s.records, old_[k].child)
  }

  predicate Unlisted(records: seq<Record>, c: nat)
  {
    forall j :: 0 <= j < |records| ==> records[j].child != c
  }

  /** One iteration of resize_grid's loop, on the record x. */
  function ReflowStep(cfg: Config, s: GridState, x: Record): (r: GridState)
    requires Placeable(cfg, s, x.child) && Unlisted(s.records, x.child)
    ensures GridInv(cfg, r) && |r.nodes| == |s.nodes| && r.rows == s.rows && r.cols == s.cols
  {
    if x.row < s.rows && x.col < s.cols then PlaceAt(cfg, s, x.child, x.row, x.col).state
    else
      var p := PlaceAuto(cfg, s, x.child);
      if p.ok then p.state else s.(nodes := Detach(s.nodes, cfg.id, x.child))
  }

  /** The frame of one step: only x's parent and position, the grid's children and the records may change. */
  lemma ReflowStepFrame(cfg: Config, s: GridState, x: Record)
    requires Placeable(cfg, s, x.child) && Unlisted(s.records, x.child)
    ensures var r := ReflowStep(cfg, s, x);
      (forall i :: 0 <= i < |s.nodes| && i != x.child ==> r.nodes[i].parent == s.nodes[i].parent) &&
      (forall y :: y in r.records ==> y in s.records || y.child == x.child) &&
      (forall y :: y in s.records && y.child != x.child ==> y in r.records) &&
      (forall i :: i in r.nodes[cfg.id].children ==> i in s.nodes[cfg.id].children || i == x.child) &&
      (forall i :: i in s.nodes[cfg.id].children && i != x.child ==> i in r.nodes[cfg.id].children)
  {
    assert ChildrenLinked(s.nodes, cfg.id);
    var r := ReflowStep(cfg, s, x);
    var ch := s.nodes[cfg.id].children;
    if !(x.row < s.rows && x.col < s.cols) && !PlaceAuto(cfg, s, x.child).ok && x.child in ch {
      RemoveFirstDistinct(ch, x.child);
    }
  }

  /** The loop of resize_grid over the records that remain. */
  function Reflow(cfg: Config, s: GridState, old_: seq<Record>): (r: GridState)
    requires Pending(cfg, s, old_)
    ensures GridInv(cfg, r) && |r.nodes| == |s.nodes| && r.rows == s.rows && r.cols == s.cols
    decreases |old_|
  {
    if old_ == [] then s
    else
      var x := old_[0];
      var s' := ReflowStep(cfg, s, x);
      ReflowPending(cfg, s, old_);
      Reflow(cfg, s', old_[1..])
  }

  lemma ReflowPending(cfg: Config, s: GridState, old_: seq<Record>)
    requires Pending(cfg, s, old_) && old_ != []
    ensures Placeable(cfg, s, old_[0].child) && Unlisted(s.records, old_[0].child)
    ensures Pending(cfg, ReflowStep(cfg, s, old_[0]), old_[1..])
  {
    var x := old_[0];
    var r := ReflowStep(cfg, s, x);
    ReflowStepFrame(cfg, s, x);
    var rest := old_[1..];
    forall k | 0 <= k < |rest|
      ensures cfg.id < rest[k].child < |r.nodes| && r.nodes[rest[k].child].parent == Some(cfg.id)
      ensures Unlisted(r.records, rest[k].child)
    {
      assert rest[k] == old_[k + 1] && old_[0].child != old_[k + 1].child;
      forall j | 0 <= j < |r.records| ensures r.records[j].child != rest[k].child {
        assert r.records[j] in r.records;
      }
    }
    assert DistinctChildren(rest) by {
      forall k, l | 0 <= k < l < |rest| ensures rest[k].child != rest[l].child {
        assert old_[k + 1].child != old_[l + 1].child;
      }
    }
  }

  /** The grid's own node after resize_grid: the size formula for the new rows and columns. */
  function Resized(cfg: Config, s: GridState, rows: int, cols: int): (r: GridState)
    requires GridInv(cfg, s)
    ensures Pending(cfg, r, s.records) && r.records == [] && r.rows == rows && r.cols == cols
  {
    var nodes := SetSize(s.nodes, cfg.id, Extent(cols, cfg.cellWidth, cfg.padding), Extent(rows, cfg.cellHeight, cfg.padding));
    var r := GridState(nodes, [], rows, cols);
    forall k | 0 <= k < |s.records| ensures s.records[k].row >= 0 && s.records[k].col >= 0 {
      assert RecordOk(cfg, s, s.records[k]);
    }
    r
  }

  /** resize_grid on a state. */
  function Resize(cfg: Config, s: GridState, rows: int, cols: int): (r: GridState)
    requires GridInv(cfg, s)
    ensures GridInv(cfg, r) && |r.nodes| == |s.nodes| && r.rows == rows && r.cols == cols
  {
    Reflow(cfg, Resized(cfg, s, rows, cols), s.records)
  }

  // ---------------------------------------------------------------------------
  // What the operations promise

  /**
   * add_child_to_grid fails exactly for a cell out of range, and then changes
   * nothing. On success the child sits at the cell's pixel origin, has the grid
   * as parent and is listed once among its children; its record is the last
   * one and get_grid_position returns its cell; every other record is kept in
   * its order, including one on the same cell; and its absolute position is
   * the grid's plus the cell origin.
   */
  lemma PlaceAtEffect(cfg: Config, s: GridState, c: nat, row: int, col: int)
    requires Placeable(cfg, s, c)
    ensures var r := PlaceAt(cfg, s, c, row, col);
      (r.ok <==> InBounds(s.rows, s.cols, row, col)) &&
      (!r.ok ==> r.state == s) &&
      (r.ok ==>
        var t := r.state;
        t.nodes[c].pos == CellOrigin(cfg, row, col) && t.nodes[c].parent == Some(cfg.id) &&
        multiset(t.nodes[cfg.id].children)[c] == 1 &&
        CellOf(t.records, c) == Some(Cell(row, col)) &&
        t.records == Without(s.records, c) + [Record(c, row, col)] &&
        (forall y :: y in s.records && y.child != c ==> y in t.records) &&
        AbsPosition(t.nodes, c) == Add(AbsPosition(s.nodes, cfg.id), CellOrigin(cfg, row, col)))
  {
    if InBounds(s.rows, s.cols, row, col) {
      var pos := CellOrigin(cfg, row, col);
      var moved := SetPos(s.nodes, c, pos);
      AttachIdempotent(moved, cfg.id, c);
      AbsPositionAfterAttach(moved, cfg.id, c);
      AbsPositionFrame(s.nodes, moved, cfg.id);
      var t := PlaceAt(cfg, s, c, row, col).state;
      assert Record(c, row, col) in t.records;
      CellOfListed(t.records, Record(c, row, col));
    }
  }

  /**
   * add_child_auto succeeds exactly when some cell of the grid has no record;
   * it then places the child at the first such cell in row-major order, and
   * otherwise changes nothing.
   */
  lemma PlaceAutoEffect(cfg: Config, s: GridState, c: nat)
    requires Placeable(cfg, s, c)
    ensures var r := PlaceAuto(cfg, s, c);
      (r.ok <==> exists i, j :: InBounds(s.rows, s.cols, i, j) && !Occupied(s.records, i, j)) &&
      (!r.ok ==> r.state == s) &&
      (r.ok ==>
        var cell := CellOf(r.state.records, c);
        cell.Some? && InBounds(s.rows, s.cols, cell.value.row, cell.value.col) &&
        !Occupied(s.records, cell.value.row, cell.value.col) &&
        forall i, j :: InBounds(s.rows, s.cols, i, j) && Before(Cell(i, j), cell.value) ==> Occupied(s.records, i, j))
  {
    FirstFreeIsFirst(s.records, s.rows, s.cols);
    var f := FirstFree(s.records, s.rows, s.cols);
    if f.Some? {
      PlaceAtEffect(cfg, s, c, f.value.row, f.value.col);
    }
  }

  /**
   * After remove_child_from_grid, get_grid_position finds nothing, the child
   * is not among the grid's children (and has no parent if it was one), and
   * the other records are kept.
   */
  lemma UnplaceEffect(cfg: Config, s: GridState, c: nat)
    requires GridInv(cfg, s) && c < |s.nodes|
    ensures var t := Unplace(cfg, s, c);
      CellOf(t.records, c).None? &&
      c !in t.nodes[cfg.id].children &&
      (c in s.nodes[cfg.id].children ==> t.nodes[c].parent.None?) &&
      (forall y :: y in s.records && y.child != c ==> y in t.records)
  {
    var t := Unplace(cfg, s, c);
    forall k | 0 <= k < |t.records| ensures t.records[k].child != c {
      assert t.records[k] in t.records;
    }
  }

  /** A child whose parent is cleared stays detached through the rest of resize_grid's loop. */
  lemma {:induction false} ReflowKeepsEvicted(cfg: Config, s: GridState, old_: seq<Record>, c: nat)
    requires Pending(cfg, s, old_) && c < |s.nodes| && s.nodes[c].parent.None?
    requires Unlisted(old_, c)
    ensures Reflow(cfg, s, old_).nodes[c].parent.None?
    decreases |old_|
  {
    if old_ != [] {
      ReflowPending(cfg, s, old_);
      ReflowStepFrame(cfg, s, old_[0]);
      ReflowKeepsEvicted(cfg, ReflowStep(cfg, s, old_[0]), old_[1..], c);
    }
  }

  lemma RestUnlisted(old_: seq<Record>, c: nat)
    requires old_ != [] && DistinctChildren(old_) && c == old_[0].child
    ensures Unlisted(old_[1..], c)
  {
    forall j | 0 <= j < |old_[1..]| ensures old_[1..][j].child != c {
      assert old_[1..][j] == old_[j + 1];
    }
  }

  /** Records already made survive the rest of resize_grid's loop. */
  lemma {:induction false} ReflowKeepsRecords(cfg: Config, s: GridState, old_: seq<Record>)
    requires Pending(cfg, s, old_)
    ensures forall y :: y in s.records ==> y in Reflow(cfg, s, old_).records
    decreases |old_|
  {
    if old_ != [] {
      ReflowPending(cfg, s, old_);
      ReflowStepFrame(cfg, s, old_[0]);
      var s' := ReflowStep(cfg, s, old_[0]);
      ReflowKeepsRecords(cfg, s', old_[1..]);
      forall y | y in s.records ensures y in s'.records {
        var k :| 0 <= k < |s.records| && s.records[k] == y;
      }
    }
  }

  /** An old record whose cell fits the new grid is re-made unchanged. */
  lemma {:induction false} ReflowKeepsFitting(cfg: Config, s: GridState, old_: seq<Record>)
    requires Pending(cfg, s, old_)
    ensures forall x :: x in old_ && x.row < s.rows && x.col < s.cols ==> x in Reflow(cfg, s, old_).records
    decreases |old_|
  {
    if old_ != [] {
      var x0 := old_[0];
      ReflowPending(cfg, s, old_);
      var s' := ReflowStep(cfg, s, x0);
      ReflowKeepsFitting(cfg, s', old_[1..]);
      if x0.row < s.rows && x0.col < s.cols {
        PlaceAtEffect(cfg, s, x0.child, x0.row, x0.col);
        assert x0 in s'.records;
        ReflowKeepsRecords(cfg, s', old_[1..]);
      }
    }
  }

  /** Every old child ends up with a record or without a parent. */
  lemma {:induction false} ReflowFate(cfg: Config, s: GridState, old_: seq<Record>, x: Record)
    requires Pending(cfg, s, old_) && x in old_
    ensures var r := Reflow(cfg, s, old_);
      !Unlisted(r.records, x.child) || r.nodes[x.child].parent.None?
    decreases |old_|
  {
    var x0 := old_[0];
    var rest := old_[1..];
    ReflowPending(cfg, s, old_);
    var s' := ReflowStep(cfg, s, x0);
    if x != x0 {
      ReflowFate(cfg, s', rest, x);
    } else if !Unlisted(s'.records, x0.child) {
      ReflowKeepsRecords(cfg, s', rest);
      var j :| 0 <= j < |s'.records| && s'.records[j].child == x0.child;
      var r := Reflow(cfg, s', rest);
      assert s'.records[j] in r.records;
      var k :| 0 <= k < |r.records| && r.records[k] == s'.records[j];
    } else {
      // Neither placement can have happened: each leaves a record for x0.
      if x0.row < s.rows && x0.col < s.cols {
        PlaceAtEffect(cfg, s, x0.child, x0.row, x0.col);
        assert false;
      }
      if PlaceAuto(cfg, s, x0.child).ok {
        PlaceAutoEffect(cfg, s, x0.child);
        assert false;
      }
      assert ParentLinked(s.nodes, x0.child);
      RestUnlisted(old_, x0.child);
      ReflowKeepsEvicted(cfg, s', rest, x0.child);
    }
  }

  /** resize_grid makes records only for old children. */
  lemma {:induction false} ReflowProvenance(cfg: Config, s: GridState, old_: seq<Record>)
    requires Pending(cfg, s, old_)
    ensures forall y :: y in Reflow(cfg, s, old_).records ==> y in s.records || !Unlisted(old_, y.child)
    decreases |old_|
  {
    if old_ != [] {
      var rest := old_[1..];
      ReflowPending(cfg, s, old_);
      ReflowStepFrame(cfg, s, old_[0]);
      var s' := ReflowStep(cfg, s, old_[0]);
      ReflowProvenance(cfg, s', rest);
      forall y | y in Reflow(cfg, s', rest).records ensures y in s.records || !Unlisted(old_, y.child) {
        if y !in s'.records {
          var k :| 0 <= k < |rest| && rest[k].child == y.child;
          assert old_[k + 1].child == y.child;
        } else if y !in s.records {
          assert old_[0].child == y.child;
        }
      }
    }
  }

  /**
   * resize_grid: the grid takes the new rows and columns and its size follows
   * the formula; every record afterwards is for an old child and lies inside
   * the new grid; each old record whose cell still fits keeps that cell; and
   * every other old child either has a record again (auto-placed) or has been
   * detached from the grid. Which of the two, and where: the k-th old record
   * that does not fit goes to the first cell left free by the records that the
   * old records before it produced, and is detached when there is none.
   */
  lemma ResizeEffect(cfg: Config, s: GridState, rows: int, cols: int)
    requires GridInv(cfg, s)
    ensures var r := Resize(cfg, s, rows, cols);
      r.rows == rows && r.cols == cols &&
      r.nodes[cfg.id].width == Extent(cols, cfg.cellWidth, cfg.padding) &&
      r.nodes[cfg.id].height == Extent(rows, cfg.cellHeight, cfg.padding) &&
      (forall y :: y in r.records ==> InBounds(rows, cols, y.row, y.col) && !Unlisted(s.records, y.child)) &&
      (forall x :: x in s.records && x.row < rows && x.col < cols ==> CellOf(r.records, x.child) == Some(Cell(x.row, x.col))) &&
      (forall x :: x in s.records ==>
         CellOf(r.records, x.child).Some? ||
         (r.nodes[x.child].parent.None? && x.child !in r.nodes[cfg.id].children)) &&
      (forall k :: 0 <= k < |s.records| && !(s.records[k].row < rows && s.records[k].col < cols) ==>
         var free := FirstFree(ReflowRecords([], rows, cols, s.records[..k]), rows, cols);
         var c := s.records[k].child;
         (free.Some? ==> CellOf(r.records, c) == free) &&
         (free.None? ==> CellOf(r.records, c).None? && r.nodes[c].parent.None? && c !in r.nodes[cfg.id].children))
  {
    var start := Resized(cfg, s, rows, cols);
    ReflowKeepsFitting(cfg, start, s.records);
    ReflowProvenance(cfg, start, s.records);
    var r := Resize(cfg, s, rows, cols);
    forall y | y in r.records ensures InBounds(rows, cols, y.row, y.col) {
      var k :| 0 <= k < |r.records| && r.records[k] == y;
      assert RecordOk(cfg, r, r.records[k]);
    }
    forall x | x in s.records && x.row < rows && x.col < cols
      ensures CellOf(r.records, x.child) == Some(Cell(x.row, x.col))
    {
      CellOfListed(r.records, x);
    }
    forall x | x in s.records
      ensures CellOf(r.records, x.child).Some? || (r.nodes[x.child].parent.None? && x.child !in r.nodes[cfg.id].children)
    {
      ReflowFate(cfg, start, s.records, x);
      if r.nodes[x.child].parent.None? {
        assert ChildrenLinked(r.nodes, cfg.id);
      }
    }    forall k | 0 <= k < |s.records| && !(s.records[k].row < rows && s.records[k].col < cols)
      ensures var free := FirstFree(ReflowRecords([], rows, cols, s.records[..k]), rows, cols);
        var c := s.records[k].child;
        (free.Some? ==> CellOf(r.records, c) == free) &&
        (free.None? ==> CellOf(r.records, c).None? && r.nodes[c].parent.None? && c !in r.nodes[cfg.id].children)
    {
      ReflowAutoPlaced(cfg, start, s.records, k);
    }
  }

  // ---------------------------------------------------------------------------
  // resize_grid seen through the records alone

  /**
   * The records after one pass of resize_grid's loop. This repeats the record
   * half of ReflowStep on purpose, so that the records of a resize can be
   * computed and reasoned about without a scene; ReflowRecordsAgree ties the two.
   */
  function ReflowRecordsStep(records: seq<Record>, rows: int, cols: int, x: Record): seq<Record>
  {
    if x.row < rows && x.col < cols then Without(records, x.child) + [x]
    else match FirstFree(records, rows, cols)
      case None => records
      case Some(cell) => Without(records, x.child) + [Record(x.child, cell.row, cell.col)]
  }

  /** The records resize_grid leaves, computed without the scene. */
  function ReflowRecords(records: seq<Record>, rows: int, cols: int, old_: seq<Record>): seq<Record>
    decreases |old_|
  {
    if old_ == [] then records
    else ReflowRecords(ReflowRecordsStep(records, rows, cols, old_[0]), rows, cols, old_[1..])
  }

  /** The records of a reflow depend on the records alone, never on the scene. */
  lemma {:induction false} ReflowRecordsAgree(cfg: Config, s: GridState, old_: seq<Record>)
    requires Pending(cfg, s, old_)
    ensures Reflow(cfg, s, old_).records == ReflowRecords(s.records, s.rows, s.cols, old_)
    decreases |old_|
  {
    if old_ != [] {
      var x := old_[0];
      ReflowPending(cfg, s, old_);
      var s' := ReflowStep(cfg, s, x);
      ReflowStepRecords(cfg, s, x);
      ReflowRecordsAgree(cfg, s', old_[1..]);
    }
  }

  /** One pass of resize_grid's loop leaves the records ReflowRecordsStep computes. */
  lemma ReflowStepRecords(cfg: Config, s: GridState, x: Record)
    requires Placeable(cfg, s, x.child) && Unlisted(s.records, x.child) && x.row >= 0 && x.col >= 0
    ensures ReflowStep(cfg, s, x).records == ReflowRecordsStep(s.records, s.rows, s.cols, x)
  {
    if x.row < s.rows && x.col < s.cols {
      assert x == Record(x.child, x.row, x.col);
    } else {
      FirstFreeIsFirst(s.records, s.rows, s.cols);
    }
  }

  /**
   * The fate of an old record whose cell does not fit the new grid: its child is
   * auto-placed at the first cell left free by the records made before it, and
   * ends there; when no cell is free, it ends with no record and detached.
   */
  lemma {:induction false} ReflowAutoPlaced(cfg: Config, s: GridState, old_: seq<Record>, k: nat)
    requires Pending(cfg, s, old_) && k < |old_| && !(old_[k].row < s.rows && old_[k].col < s.cols)
    ensures var free := FirstFree(ReflowRecords(s.records, s.rows, s.cols, old_[..k]), s.rows, s.cols);
      var r := Reflow(cfg, s, old_);
      var c := old_[k].child;
      (free.Some? ==> CellOf(r.records, c) == free) &&
      (free.None? ==> CellOf(r.records, c).None? && r.nodes[c].parent.None? && c !in r.nodes[cfg.id].children)
    decreases k
  {
    var x0 := old_[0];
    var rest := old_[1..];
    ReflowPending(cfg, s, old_);
    var s' := ReflowStep(cfg, s, x0);
    assert Reflow(cfg, s, old_) == Reflow(cfg, s', rest);
    if k > 0 {
      ReflowStepRecords(cfg, s, x0);
      assert old_[..k][0] == x0 && old_[..k][1..] == rest[..k - 1];
      assert rest[k - 1] == old_[k];
      ReflowAutoPlaced(cfg, s', rest, k - 1);
    } else {
      assert old_[..0] == [];
      FirstFreeIsFirst(s.records, s.rows, s.cols);
      if FirstFree(s.records, s.rows, s.cols).Some? {
        ReflowFirstPlaced(cfg, s, old_);
      } else {
        ReflowFirstEvicted(cfg, s, old_);
      }
    }
  }

  /** The first old record, when it does not fit and a cell is free, ends at the first free cell. */
  lemma ReflowFirstPlaced(cfg: Config, s: GridState, old_: seq<Record>)
    requires Pending(cfg, s, old_) && old_ != [] && !(old_[0].row < s.rows && old_[0].col < s.cols)
    requires FirstFree(s.records, s.rows, s.cols).Some?
    ensures CellOf(Reflow(cfg, s, old_).records, old_[0].child) == FirstFree(s.records, s.rows, s.cols)
  {
    var c := old_[0].child;
    var cell := FirstFree(s.records, s.rows, s.cols).value;
    FirstFreeIsFirst(s.records, s.rows, s.cols);
    ReflowPending(cfg, s, old_);
    var s' := ReflowStep(cfg, s, old_[0]);
    assert Reflow(cfg, s, old_) == Reflow(cfg, s', old_[1..]);
    PlaceAtEffect(cfg, s, c, cell.row, cell.col);
    assert Record(c, cell.row, cell.col) in s'.records;
    ReflowKeepsRecords(cfg, s', old_[1..]);
    CellOfListed(Reflow(cfg, s', old_[1..]).records, Record(c, cell.row, cell.col));
  }

  /** The first old record, when it does not fit and no cell is free, ends with no record and detached. */
  lemma ReflowFirstEvicted(cfg: Config, s: GridState, old_: seq<Record>)
    requires Pending(cfg, s, old_) && old_ != [] && !(old_[0].row < s.rows && old_[0].col < s.cols)
    requires FirstFree(s.records, s.rows, s.cols).None?
    ensures var r := Reflow(cfg, s, old_);
      var c := old_[0].child;
      CellOf(r.records, c).None? && r.nodes[c].parent.None? && c !in r.nodes[cfg.id].children
  {
    var c := old_[0].child;
    var rest := old_[1..];
    ReflowPending(cfg, s, old_);
    var s' := ReflowStep(cfg, s, old_[0]);
    assert Reflow(cfg, s, old_) == Reflow(cfg, s', rest);
    var r := Reflow(cfg, s', rest);
    assert ParentLinked(s.nodes, c);
    RestUnlisted(old_, c);
    ReflowKeepsEvicted(cfg, s', rest, c);
    ReflowProvenance(cfg, s', rest);
    forall j | 0 <= j < |r.records| ensures r.records[j].child != c {
      assert r.records[j] in r.records;
    }
    assert ChildrenLinked(r.nodes, cfg.id);
  }

  /** Once no cell is free, every old record that does not fit is dropped. */
  lemma {:induction false} ReflowRecordsFull(records: seq<Record>, rows: int, cols: int, old_: seq<Record>)
    requires FirstFree(records, rows, cols) == None
    requires forall k :: 0 <= k < |old_| ==> !(old_[k].row < rows && old_[k].col < cols)
    ensures ReflowRecords(records, rows, cols, old_) == records
    decreases |old_|
  {
    if old_ != [] {
      ReflowRecordsFull(records, rows, cols, old_[1..]);
    }
  }

  /**
   * Shrinking can leave two children on one cell. In a 1x2 grid holding child 1
   * at (0, 1) and child 2 at (0, 0), shrinking to 1x1 moves child 1 to the free
   * cell (0, 0) and then keeps child 2 at (0, 0) as well, since keeping a place
   * never checks occupancy: a one-cell grid ends with two children.
   */
  lemma ShrinkDoubleBooks()
    ensures ReflowRecords([], 1, 1, [Record(1, 0, 1), Record(2, 0, 0)]) == [Record(1, 0, 0), Record(2, 0, 0)]
  {
    var old_ := [Record(1, 0, 1), Record(2, 0, 0)];
    var first := [Record(1, 0, 0)];
    assert FirstFree([], 1, 1) == Some(Cell(0, 0));
    assert ReflowRecordsStep([], 1, 1, old_[0]) == first;
    WithoutAbsent(first, 2);
    assert ReflowRecordsStep(first, 1, 1, old_[1]) == first + [Record(2, 0, 0)];
    assert old_[1..] == [Record(2, 0, 0)] && old_[1..][1..] == [];
    assert ReflowRecords(first, 1, 1, old_[1..]) == first + [Record(2, 0, 0)];
  }

  // ---------------------------------------------------------------------------
  // The mutable grid

  class GridLayout {
    const scene: Scene
    const id: nat
    const cellWidth: int
    const cellHeight: int
    const padding: int
    var rows: int
    var cols: int
    var records: seq<Record>

    function Cfg(): Config
    {
      Config(id, cellWidth, cellHeight, padding)
    }

    function State(): GridState
      reads this, scene
    {
      GridState(scene.nodes, records, rows, cols)
    }

    ghost predicate Valid()
      reads this, scene
    {
      GridInv(Cfg(), State())
    }

    /**
     * GUIGrid.__init__: a new grid node whose size is the size formula,
     * attached to the given parent, with no records.
     */
    constructor (scene: Scene, parent: Option<nat>, pos: Point, rows: int, cols: int,
                 cellWidth: int, cellHeight: int, padding: int)
      requires scene.Valid() && (parent.Some? ==> parent.value < |scene.nodes|)
      modifies scene
      ensures Valid() && this.scene == scene && id == old(|scene.nodes|)
      ensures this.rows == rows && this.cols == cols && records == []
      ensures this.cellWidth == cellWidth && this.cellHeight == cellHeight && this.padding == padding
      ensures scene.nodes == NewNode(old(scene.nodes), Extent(cols, cellWidth, padding),
                                     Extent(rows, cellHeight, padding), parent, pos, Background)
    {
      var gid := scene.NewComponent(Extent(cols, cellWidth, padding), Extent(rows, cellHeight, padding),
                                    parent, pos, Background);
      this.scene := scene;
      this.id := gid;
      this.cellWidth := cellWidth;
      this.cellHeight := cellHeight;
      this.padding := padding;
      this.rows := rows;
      this.cols := cols;
      this.records := [];
    }

    /** add_child_to_grid */
    method AddChildToGrid(c: nat, row: int, col: int) returns (ok: bool)
      requires Valid() && Placeable(Cfg(), State(), c)
      modifies this, scene
      ensures Placed(ok, State()) == PlaceAt(Cfg(), old(State()), c, row, col) && Valid()
    {
      if row >= rows || col >= cols || row < 0 || col < 0 {
        return false;
      }
      ghost var goal := PlaceAt(Cfg(), State(), c, row, col).state;
      scene.SetPosition(c, CellOrigin(Cfg(), row, col));
      scene.AddChild(id, c);
      records := Without(records, c) + [Record(c, row, col)];
      assert scene.nodes == goal.nodes && records == goal.records;
      ok := true;
    }

    /** add_child_auto: the nested row and column loops over the cells. */
    method AddChildAuto(c: nat) returns (ok: bool)
      requires Valid() && Placeable(Cfg(), State(), c)
      modifies this, scene
      ensures Placed(ok, State()) == PlaceAuto(Cfg(), old(State()), c) && Valid()
    {
      var row := 0;
      while row < rows
        invariant 0 <= row
        invariant FirstFree(records, rows, cols) == FirstFreeFrom(records, rows, cols, row, 0)
      {
        var col := 0;
        while col < cols
          invariant 0 <= col && (cols >= 0 ==> col <= cols)
          invariant FirstFree(records, rows, cols) == FirstFreeFrom(records, rows, cols, row, col)
        {
          var occupied := Occupied(records, row, col);
          if !occupied {
            ok := AddChildToGrid(c, row, col);
            return;
          }
          col := col + 1;
        }
        row := row + 1;
      }
      return false;
    }

    /** remove_child_from_grid */
    method RemoveChildFromGrid(c: nat)
      requires Valid() && c < |scene.nodes|
      modifies this, scene
      ensures State() == Unplace(Cfg(), old(State()), c) && Valid()
    {
      ghost var goal := Unplace(Cfg(), State(), c);
      records := Without(records, c);
      scene.RemoveChild(id, c);
      assert scene.nodes == goal.nodes && records == goal.records;
    }

    /** get_grid_position: the first record for c, searched front to back. */
    method GetGridPosition(c: nat) returns (r: Option<Cell>)
      ensures r == CellOf(records, c)
    {
      var k := 0;
      while k < |records|
        invariant 0 <= k <= |records|
        invariant CellOf(records, c) == CellOf(records[k..], c)
      {
        if records[k].child == c {
          return Some(Cell(records[k].row, records[k].col));
        }
        assert records[k..][1..] == records[k + 1..];
        k := k + 1;
      }
      return None;
    }

    /** One pass of resize_grid's loop: put an old record back, or evict its child. */
    method Reinsert(item: Record)
      requires Valid() && Placeable(Cfg(), State(), item.child) && Unlisted(records, item.child)
      modifies this, scene
      ensures State() == ReflowStep(Cfg(), old(State()), item) && Valid()
    {
      if item.row < rows && item.col < cols {
        var _ := AddChildToGrid(item.child, item.row, item.col);
      } else {
        var placed := AddChildAuto(item.child);
        if !placed {
          scene.RemoveChild(id, item.child);
        }
      }
    }

    /** resize_grid: the new size, then every old record re-placed in order. */
    method ResizeGrid(newRows: int, newCols: int)
      requires Valid()
      modifies this, scene
      ensures State() == Resize(Cfg(), old(State()), newRows, newCols) && Valid()
    {
      ghost var goal := Resize(Cfg(), State(), newRows, newCols);
      ghost var start := Resized(Cfg(), State(), newRows, newCols);
      var oldRecords := records;
      // The size formula goes to the node's width and height (see the note at the top of this module).
      scene.SetDimensions(id, Extent(newCols, cellWidth, padding), Extent(newRows, cellHeight, padding));
      rows := newRows;
      cols := newCols;
      records := [];
      assert State() == start;
      var k := 0;
      while k < |oldRecords|
        invariant 0 <= k <= |oldRecords|
        invariant Pending(Cfg(), State(), oldRecords[k..])
        invariant Reflow(Cfg(), State(), oldRecords[k..]) == goal
      {
        ReflowPending(Cfg(), State(), oldRecords[k..]);
        assert oldRecords[k..][1..] == oldRecords[k + 1..];
        Reinsert(oldRecords[k]);
        k := k + 1;
      }
    }
  }
}
