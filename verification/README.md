# Layout and geometry of two item views

This project models two small pieces of layout logic that sit inside Qt
widget code, and proves properties of them in Dafny.

- **The vertical tree layout pass** (`Marb/Trees/VerticalTree.py`). `scan`
  walks a tree model recursively. A leaf takes the column of a counter that is
  threaded left to right through the tree. A parent sits one level above its
  children and is centred over them: on the middle child for an odd count, or
  midway between the first and last child for an even count. `scan` hands back
  a counter and the height of the subtree. `_positionsInTree` then takes the
  widest column and the deepest level, `_positionsInView` scales grid
  positions to view coordinates, and `setScrollBarValues` derives the scroll
  ranges.
- **The graph view geometry** (`Thistle/Graphs/graphview.cpp`). `itemPath`
  gives every placed node a 40×40 square around its truncated position.
  `indexAt` moves a viewport point by the scroll offsets and returns the first
  cell, in row-major order, whose square contains it. `paintEvent` translates
  the painter, draws all edges and then the items. `setScrollBarValues`
  computes the scroll ranges from the bounding rectangle.

Files:

- `basics.dfy`: `Option`, a `max` helper and `Trunc`, the conversion of a real
  to an integer.
- `vertical_tree.dfy` (module `VerticalTree`): the tree, `Scan`, and its
  properties: levels, coverage, the layout rules, the counter, and the overlap
  finding.
- `vertical_tree_view.dfy` (module `VerticalTreeView`): `_positionsInTree`,
  `_positionsInView` and the tree view's scroll ranges.
- `graph_view.dfy` (module `GraphView`): outlines, hit test, paint order and
  the graph view's scroll ranges.

Modelling choices:

- A tree node is identified by its path of row numbers from the scanned root.
  The root is `[]`. This path is the key of the position tables, which the
  code keys by model index.
- `setX`/`setY` write an entry of a map from paths to grid positions.
- Tree coordinates are exact `real`s. Centring can produce half columns.
- `scan` is parameterised by a `CounterRule`:
  - `AfterLastChild` is the code as written.
  - `AfterSubtree` is the corrected rule (see Findings).
- In the graph view, the layout algorithm is a map from index to position. An
  index absent from the map is a null node.
- Qt's `qreal` to `int` conversions are modelled by `Trunc`, which drops the
  fraction (rounds toward zero). This applies to `QRect::translated` in
  `itemPath` and to the graph view's scroll bar setters.
- `QPainterPath::contains` on a rectangle is taken as half-open: the left and
  top edges are inside, the right and bottom edges are not.
- Painting is a list of `DrawCommand`s: one translation, one command per edge,
  one per drawn item.

## Model

| member | source | states |
|---|---|---|
| VerticalTree.Scan | Marb/Trees/VerticalTree.py:48-76 | the scanned node is placed on its own level; only nodes of its subtree are placed; no column is left of the starting counter; the returned counter is right of the start and of the node; a leaf is placed at (counter, depth) and returns (counter + 1, height 1) |
| VerticalTree.ScanChildren | Marb/Trees/VerticalTree.py:57-61 | the loop over children places each child on the level below, keeps every column at or right of the counter, places the children at least one column apart from left to right, and returns a counter right of the last child |
| VerticalTree.ScanLevels | Marb/Trees/VerticalTree.py:57-76 | every node's level equals the scan depth plus its distance from the scanned node; the returned height is the number of levels spanned: no node is at or below depth + height, and some node is on the lowest level |
| VerticalTree.ScanChildrenLevels | Marb/Trees/VerticalTree.py:57-61 | the children's scan puts each node at its distance below the parent; the reported height is the largest child height |
| VerticalTree.ScanCovers | Marb/Trees/VerticalTree.py:58-60 | the scan places exactly the nodes of the tree: a path has an entry iff it leads to a node of the subtree |
| VerticalTree.ScanChildrenCovers | Marb/Trees/VerticalTree.py:58-60 | the loop over children places exactly the nodes of the remaining children's subtrees |
| VerticalTree.ParentColumnCentred | Marb/Trees/VerticalTree.py:63-73 | the parent column is the middle child's column for an odd count, the midpoint of the outer children for an even count (the only child for one), and lies between the first and last child; this is the column `ParentColumn` computes |
| VerticalTree.ScanTidy | Marb/Trees/VerticalTree.py:58-75 | at every node of the tree: the node is on its level, its children are at least one column apart from left to right, and it is centred over them by the odd/even rule |
| VerticalTree.ScanChildrenTidy | Marb/Trees/VerticalTree.py:58-61 | every child subtree scanned in the loop obeys the layout rules |
| VerticalTree.ScanCounter | Marb/Trees/VerticalTree.py:64-76 | as written, an inner node returns its last child's column + 1, and never more than the counter plus the number of leaves; with the threaded rule the counter advances by exactly the number of leaves and ends right of every node |
| VerticalTree.AfterSubtreeSeparates | Marb/Trees/VerticalTree.py:58-76 | with the threaded counter, two distinct nodes on the same level are at least one column apart |
| VerticalTree.AfterSubtreeChildrenSeparate | Marb/Trees/VerticalTree.py:58-61 | with the threaded counter, the children's subtrees scanned in the loop share no column on any level |
| VerticalTree.LeafRun | Marb/Trees/VerticalTree.py:52-60 | a run of leaf children takes consecutive columns from the counter, and the counter ends after them |
| VerticalTree.OnlyChild | Marb/Trees/VerticalTree.py:58-61 | a node with one child receives that child's positions and counter unchanged |
| VerticalTree.AsWrittenOverlaps | Marb/Trees/VerticalTree.py:63-76 | as written, on the example tree the third grandchild of the first child and the grandchild of the second child are both placed at (counter + 2, depth + 3), so the layout is not separated |
| VerticalTreeView.PositionsInTree | Marb/Trees/VerticalTree.py:79-85 | the position table is the root scan's; the widest column is at least every node's column and is either 0 or some node's column; the deepest level is the scan height - 1, bounds every level and is reached |
| VerticalTreeView.PositionsInView | Marb/Trees/VerticalTree.py:89-98 | every placed node gets its scaled, centred view point; entries of other nodes already in the table are kept; the scroll state follows from the content size |
| VerticalTreeView.ScrollRanges | Marb/Trees/VerticalTree.py:40-45 | both ranges start at 0; each maximum is at least 0 and at least the amount needed to bring the content, half an item and 20 into the widget, and equals that amount unless it is 0; the item offset is (10, 10) |
| VerticalTreeView.ViewPointRoundTrip | Marb/Trees/VerticalTree.py:95-98 | with a non-zero pitch, the grid position is recovered from the view point `ViewPoint` computes (column and level scaled by the pitch, plus half an item) |
| VerticalTreeView.ViewPointInjective | Marb/Trees/VerticalTree.py:95-98 | with a non-zero pitch, two grid positions get the same view point iff they are equal |
| VerticalTreeView.ContentFits | Marb/Trees/VerticalTree.py:90-98 | with a non-negative pitch, every placed item lies within [0, real width] × [0, real height] |
| VerticalTreeView.ContentTight | Marb/Trees/VerticalTree.py:90-98 | the content size is the widest column's scaled extent plus one item, and the deepest level's: an item in the widest column ends exactly at the real width, an item on the deepest level ends exactly at the real height, and with no column right of 0 the real width is one item |
| VerticalTreeView.ViewItemsApart | Marb/Trees/VerticalTree.py:95-98 | with the threaded counter and non-negative gaps, two items on one level are at least an item width apart in the view |
| VerticalTreeView.AsWrittenViewOverlap | Marb/Trees/VerticalTree.py:96-98 | as written, the two clashing nodes of the example tree get the same view position whatever the geometry |
| Basics.Trunc | Thistle/Graphs/graphview.cpp:92 | the conversion to int drops the fraction: for a non-negative value the result is at most the value and within 1 below it; for a negative value it is at least the value and within 1 above it |
| GraphView.ItemPath | Thistle/Graphs/graphview.cpp:81-94 | the path is empty exactly for a null node; otherwise it is a 40 by 40 rectangle |
| GraphView.ItemPathContains | Thistle/Graphs/graphview.cpp:86-92 | a point is in a node's path iff the node is placed and the point is within [-20, 20) of the truncated position on both axes |
| GraphView.IndexAt | Thistle/Graphs/graphview.cpp:56-78 | no model gives no index; a returned index is a cell of the model whose path contains the shifted point and no cell before it in row-major order has one; no index is returned only when no cell's path contains it |
| GraphView.FirstHitUnique | Thistle/Graphs/graphview.cpp:65-77 | there is at most one first hit, so the hit test's answer is determined by the view and the point |
| GraphView.NullNeverHit | Thistle/Graphs/graphview.cpp:86-90 | a node without a position is never hit |
| GraphView.FirstHitInOneColumn | Thistle/Graphs/graphview.cpp:65-75 | with one column, a hit is the first one when no earlier row is hit |
| GraphView.ExamplePaths | Thistle/Graphs/graphview.cpp:91-92 | in the three-node example, the node of row r has the square with corner (100 r - 20, -20) |
| GraphView.ExampleHitsB | Thistle/Graphs/graphview.cpp:56-77 | in the example, B's square is centred on (100, 0) and the point (100, 0) hits B first |
| GraphView.ExampleMisses | Thistle/Graphs/graphview.cpp:56-77 | in the example, the point (500, 500) hits no cell |
| GraphView.PaintEdges | Thistle/Graphs/graphview.cpp:158-170 | one edge command per edge of the model, in the model's order |
| GraphView.PaintItems | Thistle/Graphs/graphview.cpp:188-198 | one item command per row, for column 0, in row order |
| GraphView.PaintEvent | Thistle/Graphs/graphview.cpp:173-185 | nothing is drawn iff there is no model; otherwise the first command translates by minus the scroll offsets, then come the model's edges in the model's order, then the column-0 item of every row in row order, and nothing else |
| GraphView.PaintOrder | Thistle/Graphs/graphview.cpp:176-184 | only the first command translates; no edge is drawn after an item; exactly the model's edges are drawn; exactly the column-0 cell of each row is drawn |
| GraphView.ExamplePaint | Thistle/Graphs/graphview.cpp:173-198 | in the example, the paint event draws edge A-B, edge B-C, then A, B and C |
| GraphView.PaintUndoesShift | Thistle/Graphs/graphview.cpp:176-179 | the painter's translation maps the hit test's shifted point back to the viewport point |
| GraphView.ScrollRangesNearExact | Thistle/Graphs/graphview.cpp:200-209 | each minimum and maximum is its exact formula (corner minus item size; size plus item size minus widget size plus 50) with the fraction dropped, as `GraphScrollRanges` computes them |
| GraphView.ScrollRangesMove | Thistle/Graphs/graphview.cpp:204-208 | when both minima are non-negative, moving the bounding rectangle right and down by whole units leaves both maxima unchanged and moves each minimum by the same amount |
| GraphView.ScrollRangesWidget | Thistle/Graphs/graphview.cpp:206-207 | a wider or taller widget never raises the maximum |
| GraphView.ScrollRangesUnclamped | Thistle/Graphs/graphview.cpp:204-207 | nothing in the view keeps the maximum at or above the minimum: for a 100×100 graph with 40×40 items in a 400×400 widget, the values passed to the horizontal scroll bar's setters are -40 and -210 |

## Left out

- The invalid-index branch of `scan` (Marb/Trees/VerticalTree.py:50-51) is not modelled. It returns `0` instead of a pair, which would fail when the caller unpacks it. The `Tree` datatype has no invalid nodes.
- `_positionsInTree` scans only the first top-level row of the model (`index(0,0)`). The model takes that row's subtree as `t`. Other top-level rows are never placed by the code either.
- The `Tree` base class of `VerticalTree` is not part of this model. `setX`, `setY`, `_itemTreePos`, `_itemPos`, `_rect`, `_realSize` and the distances come from it. They are modelled as exact reals.
- VerticalTreeView.ScrollRanges: the integer conversions of the tree view are not modelled. `QScrollBar.setRange` takes integers, so the ends handed over lose their fraction. `_realSize` is most likely a `QSize`, since `save` adds a `QSize` to it (Marb/Trees/VerticalTree.py:137), so the content size is stored as integers too. If `_rect` is an integer `QRect`, Python 2's `/` also floors the half item sizes. The item view positions are affected too: under the same assumption the `offset` of half an item (Marb/Trees/VerticalTree.py:95) is floored. The model keeps all of these exact. The conversions add up, so the scroll range ends can differ from the code's by less than two units, the content size by less than one unit, and the view positions by at most half a unit.
- VerticalTreeView.PositionsInView: the content width and height are exact reals, not the truncated integers a `QSize` stores; `ContentFits` and `ContentTight` hold for the exact values.
- `_positionsInView` also writes `_realSize` and calls `setScrollBarValues`. These are returned as fields of `TreeView`; the widget's own size is a parameter.
- `paintConnectionsFor`, `save` and `setDirectConnection` (Marb/Trees/VerticalTree.py:36-37, 101-147) are drawing and file output; they are not modelled.
- The GraphView constructor, `setModel`, `updateValues`, `algorithm` and `setAlgorithm` (Thistle/Graphs/graphview.cpp:33-48, 212-241) only wire signals and call the algorithm. The algorithm's `node()` is replaced by the layout map. Note that `setAlgorithm` never disconnects the previous algorithm; signals are not modelled.
- The mouse handlers between `#if 0` and `#endif` (Thistle/Graphs/graphview.cpp:103-156) are compiled out.
- Painting itself is not modelled: pens, brushes, antialiasing, `Edge::paintEdge` and `ItemDelegate::paint`. Only the order of draw commands is kept. The rectangle handed to the delegate comes from `itemRect`, whose body is not visible; the model does not compute it.
- `itemRect` is declared in `kernel/abstractitemview.h`, with no body shown. Its width and height enter the graph view's scroll formula as the parameters `itemWidth` and `itemHeight`.
- Integer width is not modelled: Dafny's `int` is unbounded. So the model does not cover overflow of the 32-bit `int` sum `point + QPoint(horizontalOffset(), verticalOffset())` (Thistle/Graphs/graphview.cpp:59), nor the undefined conversion of a `qreal` outside the `int` range (Thistle/Graphs/graphview.cpp:92, 205-208); `Trunc` is total.
- Qt's `QScrollBar::setMinimum`/`setMaximum` may adjust the other bound internally. That code is not visible, so `GraphScrollRanges` returns the values passed to the setters.
- Behaviour of the wider system is not modelled, because none of these files contain it: generation counters, rejection of stale layouts, edge validation, cascade deletion and a view state machine.

## Findings

| source | as written | input that shows it | evidently intended | confidence | as-written member | corrected member |
|---|---|---|---|---|---|---|
| Marb/Trees/VerticalTree.py:64-76 | an inner node returns `right + 1`, its last child's column plus one, as the next free column | a root with two children: the first has one child with three leaf children, the second has one child with one leaf. Scanned from (0, 0), the first child returns counter 2, but its third grandchild already sits in column 2, so the second child's leaf is placed at (2, 3) too | the counter handed back is the one the last child's scan returned, so later subtrees start right of every column already used and no two nodes of a level share a column | not executed | VerticalTree.AsWrittenOverlaps | VerticalTree.AfterSubtreeSeparates |

The same rule means that "every node's column is below the counter its scan
returns" holds for the scanned root but not for every node. The counterexample
above is a case where it fails (`AsWrittenOverlaps`). With the corrected rule
it holds for every node (`ScanCounter`).
