# CV2 visualisation GUI core, modelled in Dafny

This project models the component tree and the grid layout of the
CV2-Visualization-Plugin GUI layer:

- `GuiComponent` (gui_component.py): a tree of rectangular components with
  positions relative to their parent, an absolute position, a total extent
  that includes children sticking out, `add_child` / `remove_child`, and a
  render pass that draws each component and copies its tile into a target
  image, parents first and children in list order.
- `GUIGrid` (gui_grid.py): a component that places children on a
  rows × columns grid of fixed-size cells separated by padding. It can place
  at a given cell or at the first free cell, remove, look up a child's cell,
  and resize with re-placement.

Files:

- `component.dfy` (module `Component`): the tree. It is held in an arena:
  class `Scene` owns a `seq<Node>`, and a node's identity is its index. The
  tree invariant `WellFormed` says:
  - every child points back to its parent;
  - every child is listed by its parent;
  - no list holds a child twice;
  - a parent's index is smaller than its children's.

  The last point is what makes the upward walk of `AbsPosition` and the
  downward folds of `TotalExtent` terminate. `Attach`, `Detach`, `SetPos`,
  `SetSize` and `NewNode` state each update as a function of the node list.
  The `Scene` methods perform the updates in place and are proved equal to
  these functions.
- `render.dfy` (module `Render`): the draw hook, and the render pass as a
  function `Paint` of the target's pixels, with the error the pass stops
  with. The target is a 2-D array, and `RenderNode` / `Render` write into it
  and are proved equal to `Paint`.
- `grid.dfy` (module `Grid`): the grid as a state `GridState` and the value
  functions `PlaceAt`, `PlaceAuto`, `Unplace` and `Resize`, each keeping the
  grid invariant `GridInv`. The class `GridLayout` has the in-place methods.
  Each method is proved equal to its value function.

Pixels are an abstract `int`. Images and tiles are rectangular sequences of
rows.

## Model

| member | source | states |
|---|---|---|
| Component.AbsPosition | gui_component.py:56-62 | abs_position: the node's position plus its parent's absolute position, or its own position at a root; what it promises is stated by AbsPositionFrame, AbsPositionAfterAttach and AbsPositionAfterDetach |
| Component.AbsPositionFrame | gui_component.py:56-62 | two well-formed node lists that agree on the parent link and position of every node with an index up to the node's own give it the same absolute position; its ancestors all have smaller indices |
| Component.AbsPositionAfterAttach | gui_component.py:56-62 | after add_child(p, c), c's absolute position is p's absolute position plus c's relative position |
| Component.AbsPositionAfterDetach | gui_component.py:56-62 | after remove_child, the removed child is a root and its absolute position is its own position |
| Component.TotalExtent | gui_component.py:64-82 | total_width / total_height: at least the node's own size; TotalExtentIsMax states the rest |
| Component.ChildrenExtent | gui_component.py:67-72 | the max-accumulator loop over children[k..] never returns less than its start value; ChildrenExtentIsMax states the rest |
| Component.TotalExtentIsMax | gui_component.py:64-82 | total_width/total_height is at least the own size and at least every child's offset plus total extent, and equals one of them, so it is their maximum |
| Component.ChildrenExtentIsMax | gui_component.py:67-72 | the max-accumulator loop over children[k..] returns the maximum of its start value and every remaining child's demand |
| Component.IndexOf | gui_component.py:93 | the index found holds x, and no earlier index does (the occurrence list.remove deletes) |
| Component.RemoveFirst | gui_component.py:93 | list.remove: the list is one shorter and holds the same elements with one occurrence of x fewer |
| Component.RemoveFirstDistinct | gui_component.py:93 | in a duplicate-free list, removing x leaves a duplicate-free list of exactly the other elements |
| Component.Attach | gui_component.py:84-88 | add_child: c is appended to p's children only when it is not already listed, c's parent becomes p, nothing else changes, and the tree invariant holds afterwards |
| Component.AttachIdempotent | gui_component.py:84-88 | add_child twice is add_child once, and c is listed exactly once |
| Component.Detach | gui_component.py:90-94 | remove_child: when c is listed, its first occurrence goes and its parent is cleared; otherwise nothing changes; the invariant holds and c is no longer listed |
| Component.NewNode | gui_component.py:9-36 | __init__: the new node gets the next index, the given size and position, and no children; a given parent lists it at the end; every other node is unchanged |
| Component.SetPos | gui_component.py:30 | assigning a position changes that node's position only and keeps the invariant |
| Component.SetSize | gui_component.py:43-54 | the width and height setters change that node's size only and keep the invariant |
| Component.Scene.constructor | gui_component.py:9-36 | the arena starts empty, before any component is constructed, and satisfies the invariant |
| Component.Scene.NewComponent | gui_component.py:9-36 | the node list after construction is NewNode of the old list, and the invariant is kept |
| Component.Scene.AddChild | gui_component.py:84-88 | the in-place update equals Attach and keeps the invariant |
| Component.Scene.RemoveChild | gui_component.py:90-94 | the in-place update equals Detach and keeps the invariant |
| Component.Scene.SetPosition | gui_component.py:30 | the in-place update equals SetPos |
| Component.Scene.SetDimensions | gui_component.py:43-54 | the in-place update equals SetSize |
| Render.Zeros | gui_grid.py:174 | an h-by-w tile whose every pixel is zero |
| Render.Draw | gui_component.py:129-140 | the base draw fails with "not implemented"; a grid draws an all-zero tile of its height and width, or fails on a negative dimension; a leaf yields its tile |
| Render.Covered | gui_component.py:116-119 | a target cell lies in the clipped copy of a tile: the anchor is inside the target, and the cell is at or after the anchor and before the tile's end or the target's edge; Blit, BlitCovered and BlitOutsideWritesNothing state what follows |
| Render.Blit | gui_component.py:111-120 | the copy into the target keeps the target's shape |
| Render.BlitCovered | gui_component.py:119-120 | a covered cell receives the tile's pixel at the matching offset from the anchor |
| Render.BlitOutsideWritesNothing | gui_component.py:119-120 | a tile anchored left of, above, right of or below the target writes nothing |
| Render.Paint | gui_component.py:97-126 | the render pass keeps the target's shape |
| Render.PaintChildren | gui_component.py:124-126 | the loop over the children keeps the target's shape |
| Render.PaintLeavesUncovered | gui_component.py:97-126 | a pixel that no node's clipped rectangle covers keeps its value through a whole render pass |
| Render.LastChildPaintsOnTop | gui_component.py:119-126 | the special case of the last child when it is a leaf with no children: where its copy covers, after a successful pass over the parent, its pixels are the final ones |
| Render.PaintSubtreeUncovered | gui_component.py:108-126 | a cell that no node of a subtree writes keeps its value through the pass over that subtree |
| Render.PaintChildrenUncovered | gui_component.py:124-126 | a cell that no subtree of children[k..] writes keeps its value through the loop over them |
| Render.PaintOwnPixel | gui_component.py:108-126 | where a node's own copy writes and none of its descendants does, the pass over the node leaves the node's own pixel |
| Render.PaintChildrenLaterWins | gui_component.py:124-126 | when the loop over children[k..] succeeds, the l-th child's own pixel (l at or after k) survives where neither its descendants nor any later sibling's subtree writes |
| Render.LaterSiblingPaintsOnTop | gui_component.py:108-126 | children render after their parent and in list order, each with its whole subtree: after a successful pass over p, a cell that p's l-th child's own copy writes and that no node rendered after it writes (its descendants, the subtrees of later siblings) holds that child's pixel, whatever p or earlier siblings wrote |
| Render.AbstractNodeFails | gui_component.py:129-140 | rendering a node of the base class fails with "not implemented" and writes nothing |
| Render.CopyTile | gui_component.py:111-120 | the slice assignment overwrites exactly the clipped rectangle with the tile's pixels, and equals Blit |
| Render.RenderNode | gui_component.py:108-126 | the recursive render writes exactly what Paint computes and returns Paint's error |
| Render.Render | gui_component.py:97-126 | a missing target is an error; otherwise the result equals Paint |
| Grid.Extent | gui_grid.py:43-44 | the size formula: n cells with padding between neighbours; CellsFitInGrid states how the cells fit in it |
| Grid.CellOrigin | gui_grid.py:65-66 | the pixel position of a cell: its column and row times the pitch; PlaceAtEffect and CellsFitInGrid state its use |
| Grid.InBounds | gui_grid.py:60 | the range check of add_child_to_grid; PlaceAtEffect states that success is exactly this |
| Grid.CellsFitInGrid | gui_grid.py:43-44 | for non-negative pitch, every in-range cell lies inside the grid's size, and the last row and column end exactly at the edge |
| Grid.Without | gui_grid.py:79 | the filter keeps exactly the records of other children |
| Grid.WithoutDistinct | gui_grid.py:79 | the filter keeps the records free of duplicate children |
| Grid.CellOf | gui_grid.py:128-131 | get_grid_position: none exactly when no record names the child; otherwise a cell recorded for it |
| Grid.CellOfListed | gui_grid.py:128-131 | with one record per child, the cell found is the child's recorded cell |
| Grid.Occupied | gui_grid.py:98 | some record names the cell; OccupiedIff states it as an existential |
| Grid.OccupiedIff | gui_grid.py:98 | a cell is occupied exactly when some record names it |
| Grid.FirstFreeFrom | gui_grid.py:95-100 | the nested loops from a given cell; FirstFreeFromIsFirst states the search |
| Grid.FirstFreeFromIsFirst | gui_grid.py:95-100 | the cell found from (row, col) is in range, unoccupied and not before (row, col), and every cell between (row, col) and it is occupied; none is found exactly when every cell from (row, col) on is occupied |
| Grid.FirstFree | gui_grid.py:95-100 | the search from cell (0, 0); FirstFreeIsFirst states the search |
| Grid.FirstFreeIsFirst | gui_grid.py:95-103 | the cell found is in range and unoccupied, and every earlier cell in row-major order is occupied; none is found exactly when every cell is occupied |
| Grid.PlaceAt | gui_grid.py:60-82 | add_child_to_grid keeps the grid invariant and the grid's shape |
| Grid.PlaceAtEffect | gui_grid.py:60-82 | success exactly when the cell is in range; on failure nothing changes; on success the child sits at the cell's origin under the grid, is listed once, its only record names that cell and is the last one, other records are kept in order, and its absolute position is the grid's plus the cell's origin |
| Grid.PlaceAuto | gui_grid.py:95-103 | add_child_auto keeps the grid invariant and the grid's shape |
| Grid.PlaceAutoEffect | gui_grid.py:95-103 | success exactly when some cell is free; on failure nothing changes; on success the child is placed at the first free cell |
| Grid.Unplace | gui_grid.py:113-116 | remove_child_from_grid keeps the grid invariant |
| Grid.UnplaceEffect | gui_grid.py:113-116 | afterwards no record names the child and the child is detached from the grid |
| Grid.ReflowStep | gui_grid.py:155-167 | one pass of the resize loop keeps the grid invariant |
| Grid.Reflow | gui_grid.py:155-167 | the resize loop keeps the grid invariant |
| Grid.Resized | gui_grid.py:141-152 | the new shape and the size formula are set, and the tracking list is cleared |
| Grid.ReflowKeepsFitting | gui_grid.py:160-162 | every old record that fits the new shape is present afterwards |
| Grid.ReflowFate | gui_grid.py:155-167 | every old child ends up with a record or is detached from the grid |
| Grid.ReflowProvenance | gui_grid.py:155-167 | every record afterwards names an old child |
| Grid.ResizeEffect | gui_grid.py:133-167 | resize_grid sets the new shape and size, every record is in range and names an old child, fitting children keep their cell, and the k-th old record that does not fit ends at the first cell left free by the records the earlier old records produced, or, when there is none, has no record and is detached from the grid |
| Grid.ReflowAutoPlaced | gui_grid.py:155-167 | an old record that does not fit is auto-placed at the first cell left free by the records made before it and keeps that cell to the end; when no cell is free its child ends with no record, no parent, and not among the grid's children |
| Grid.ReflowRecordsStep | gui_grid.py:155-167 | one pass of the resize loop on the records alone; ReflowStepRecords ties it to ReflowStep |
| Grid.ReflowStepRecords | gui_grid.py:155-167 | one pass of the resize loop leaves exactly the records ReflowRecordsStep computes |
| Grid.ReflowRecords | gui_grid.py:155-167 | the resize loop on the records alone; ReflowRecordsAgree ties it to Reflow |
| Grid.ReflowRecordsAgree | gui_grid.py:155-167 | the records after a resize are a function of the old records and the new shape alone |
| Grid.ReflowRecordsFull | gui_grid.py:163-167 | once no cell is free, every old record that does not fit is dropped |
| Grid.ShrinkDoubleBooks | gui_grid.py:155-167 | shrinking a 1x2 grid to 1x1 leaves two children recorded at cell (0, 0) |
| Grid.GridLayout.constructor | gui_grid.py:9-46 | a new grid node of the formula's size with no records, satisfying the grid invariant |
| Grid.GridLayout.AddChildToGrid | gui_grid.py:48-82 | the in-place update equals PlaceAt |
| Grid.GridLayout.AddChildAuto | gui_grid.py:84-103 | the nested search loops and the placement equal PlaceAuto |
| Grid.GridLayout.RemoveChildFromGrid | gui_grid.py:105-116 | the in-place update equals Unplace |
| Grid.GridLayout.GetGridPosition | gui_grid.py:118-131 | the search loop returns CellOf of the records |
| Grid.GridLayout.Reinsert | gui_grid.py:155-167 | one pass of the resize loop equals ReflowStep |
| Grid.GridLayout.ResizeGrid | gui_grid.py:133-167 | the in-place resize equals Resize |

## Left out

- Component.Attach, and with it Component.AttachIdempotent, Component.AbsPositionAfterAttach, Component.Scene.AddChild, Grid.PlaceAt, Grid.PlaceAuto, Grid.PlaceAtEffect, Grid.PlaceAutoEffect, Grid.GridLayout.AddChildToGrid and Grid.GridLayout.AddChildAuto: require the parent to come before the child in the arena, that is, to have been created earlier. This is stronger than the absence of cycles: attaching a component under one created after it makes no cycle, and the source allows it, but the model does not cover it. Every call site in the repository meets the stronger requirement: the demo creates each component and then places it in the existing grid (grid_demo.py:58-59), the constructor attaches a new component to an existing parent (gui_component.py:35-36), and resize_grid re-places children that already sit below the grid. The source does not check for cycles at all; a cycle would make abs_position recurse forever.
- Component.Scene.AddChild: requires the child to be detached or already a child of the same parent. The source would set the new parent without removing the child from its old parent's list, so two parents would list it. Grid.GridLayout.AddChildToGrid, AddChildAuto and Grid.PlaceAt carry the same requirement. The model does not cover one child listed by two parents.
- Grid.GridInv: every record must name a child whose parent is the grid, and every Grid.GridLayout method (AddChildToGrid, AddChildAuto, RemoveChildFromGrid, GetGridPosition, Reinsert, ResizeGrid) requires it. The source can reach a state with a stale record: the inherited remove_child (gui_component.py:90-94), called on the grid itself, clears the child's parent and drops it from the children but leaves its grid_children entry. get_grid_position then still returns the cell (gui_grid.py:128-131), add_child_auto still counts the cell as occupied (gui_grid.py:98), and resize_grid attaches the child again (gui_grid.py:162 and 165, through 69-74). The model does not cover that state: Component.Scene.RemoveChild on the grid's own node leaves the grid's invariant false, and the grid methods cannot be called afterwards.
- Grid.GridLayout.constructor: `GUIGrid.__init__` (gui_grid.py:46) passes `auto_size` to the base constructor, which does not accept it (gui_component.py:9-16), so the source raises a TypeError. The model constructs the grid as evidently intended.
- Grid.GridLayout.ResizeGrid: resize_grid writes the new size to `_width_spec` / `_height_spec` (gui_grid.py:148-149). Nothing reads those fields, so the grid's width and height never change in the source. The model writes the size formula to the width and height, as evidently intended.
- Resize keeps more children than cells. A full 3x3 grid shrunk to 2x2 keeps five children, not four, with cell (1, 0) recorded twice. Keeping a fitting cell never checks occupancy, and a child moved earlier may already sit there. The model follows the code. Grid.ShrinkDoubleBooks proves the same effect on a 1x2 grid shrunk to 1x1.
- The `name` field, the diagnostic messages and the `canvas` field are not modelled. The drawn tile is passed along as a value instead of being stored on the component.
- Pixels are abstract integers. Colour channels, numpy dtypes and shape-mismatch errors are not modelled. For example, a 4-channel grid tile copied onto a 3-channel target fails at run time in the source.
- The commented-out grid lines in `GUIGrid.draw` are not modelled, because they are not code.
- gui_base.py, grid_demo.py and `__init__.py` are not part of this model. They hold the window, the demo and the package exports.
- Python's object identity is modelled by arena indices, so two distinct components are never equal. The source compares children with `==`, which is identity for these classes.
