/** The geometry of the graph view: the square each positioned node
    occupies, the hit test that maps a point of the viewport back to a node,
    the order in which a paint event draws, and the scroll bar ranges. */
module GraphView {
  import opened Basics

  /** A point with integer coordinates, as the viewport and the hit test use. */
  datatype Point = Point(x: int, y: int)

  /** A position computed by the layout algorithm. */
  datatype PointF = PointF(x: real, y: real)

  /** A cell of the graph model: a node is addressed by its row and column. */
  datatype Index = Index(row: nat, column: nat)

  /** A connector between two nodes of the model. */
  datatype Edge = Edge(leftIndex: Index, rightIndex: Index)

  datatype GraphModel = GraphModel(rowCount: nat, columnCount: nat, edges: seq<Edge>)

  /** What the view consults: its model, if one is set; the position the
      layout algorithm gives each index (an index missing from the map is a
      null node, one the algorithm has not placed); and the scroll offsets. */
  datatype View = View(
    model: Option<GraphModel>,
    layout: map<Index, PointF>,
    horizontalOffset: int,
    verticalOffset: int)

  /** The outline of a node: nothing, or an axis-aligned rectangle with
      integer corner and size. */
  datatype Shape = EmptyPath | Rect(left: int, top: int, width: nat, height: nat)

  /** Points inside a rectangle: the left and top edges belong to it, the
      right and bottom ones do not. An empty path contains nothing. */
  predicate Contains(s: Shape, p: Point)
  {
    match s
    case EmptyPath => false
    case Rect(left, top, width, height) =>
      left <= p.x < left + width && top <= p.y < top + height
  }

  /** The outline of a node: empty for a null node, otherwise the 40 by 40
      square around its position, whose corner is the truncated position
      moved by -20 in both directions. */
  function ItemPath(layout: map<Index, PointF>, index: Index): (s: Shape)
    ensures s.EmptyPath? <==> index !in layout
    ensures s.Rect? ==> s.width == 40 && s.height == 40
  {
    if index !in layout then EmptyPath
    else
      var pos := layout[index];
      Rect(Trunc(pos.x) - 20, Trunc(pos.y) - 20, 40, 40)
  }

  /** A point lies in a node's outline exactly when the node is placed and
      the point is less than 20 away from the truncated position on each
      axis (including -20, excluding +20). */
  lemma ItemPathContains(layout: map<Index, PointF>, index: Index, p: Point)
    ensures Contains(ItemPath(layout, index), p) <==>
      && index in layout
      && Trunc(layout[index].x) - 20 <= p.x < Trunc(layout[index].x) + 20
      && Trunc(layout[index].y) - 20 <= p.y < Trunc(layout[index].y) + 20
  {
  }

  /** The point the hit test looks at: the viewport point moved by the
      scroll offsets into model space. */
  function Shifted(v: View, point: Point): (p: Point)
    ensures p.x - point.x == v.horizontalOffset && p.y - point.y == v.verticalOffset
  {
    Point(point.x + v.horizontalOffset, point.y + v.verticalOffset)
  }

  /** `index` is a cell of the model whose outline contains `p`. */
  predicate Hit(v: View, p: Point, index: Index)
  {
    && v.model.Some?
    && index.row < v.model.value.rowCount
    && index.column < v.model.value.columnCount
    && Contains(ItemPath(v.layout, index), p)
  }

  /** Row-major order: by row, then by column within a row. */
  predicate Before(a: Index, b: Index)
  {
    a.row < b.row || (a.row == b.row && a.column < b.column)
  }

  /** `index` is hit at `p` and no cell before it in row-major order is. */
  ghost predicate FirstHit(v: View, p: Point, index: Index)
  {
    Hit(v, p, index) && forall i | Hit(v, p, i) :: !Before(i, index)
  }

  /** The hit test: with no model there is no answer; otherwise the cells are
      tried row by row, column by column, and the first whose outline
      contains the shifted point is the answer. */
  method IndexAt(v: View, point: Point) returns (r: Option<Index>)
    ensures v.model.None? ==> r.None?
    ensures r.Some? ==> FirstHit(v, Shifted(v, point), r.value)
    ensures r.None? ==> forall i :: !Hit(v, Shifted(v, point), i)
  {
    var p := Shifted(v, point);
    if v.model.None? {
      return None;
    }
    var m := v.model.value;
    var row := 0;
    while row < m.rowCount
      invariant row <= m.rowCount
      invariant forall i | Hit(v, p, i) :: row <= i.row
    {
      var col := 0;
      while col < m.columnCount
        invariant col <= m.columnCount
        invariant forall i | Hit(v, p, i) :: row < i.row || (row == i.row && col <= i.column)
      {
        var index := Index(row, col);
        if Contains(ItemPath(v.layout, index), p) {
          return Some(index);
        }
        col := col + 1;
      }
      row := row + 1;
    }
    return None;
  }

  /** There is at most one first hit, so the answer of the hit test is
      determined by the view and the point: repeated calls agree. */
  lemma FirstHitUnique(v: View, p: Point, a: Index, b: Index)
    requires FirstHit(v, p, a) && FirstHit(v, p, b)
    ensures a == b
  {
    assert !Before(a, b) && !Before(b, a);
  }

  /** A null node is never hit, wherever the point is. */
  lemma NullNeverHit(v: View, p: Point, index: Index)
    requires index !in v.layout
    ensures !Hit(v, p, index)
  {
  }

  /** Three nodes in a row, A = (0, 0), B = (100, 0) and C = (200, 0) in
      rows 0, 1 and 2 of a one-column model, joined A-B and B-C, with no
      scrolling. */
  ghost predicate IsExample(v: View)
  {
    var a, b, c := Index(0, 0), Index(1, 0), Index(2, 0);
    && v.model == Some(GraphModel(3, 1, [Edge(a, b), Edge(b, c)]))
    && v.horizontalOffset == 0 && v.verticalOffset == 0
    && a in v.layout && v.layout[a] == PointF(0.0, 0.0)
    && b in v.layout && v.layout[b] == PointF(100.0, 0.0)
    && c in v.layout && v.layout[c] == PointF(200.0, 0.0)
  }

  /** The outlines in the example: the node in row `r` is the square with
      corner (100 r - 20, -20). */
  lemma ExamplePaths(v: View, i: Index)
    requires IsExample(v)
    requires i.column == 0 && i.row < 3
    ensures ItemPath(v.layout, i) == Rect(100 * i.row - 20, -20, 40, 40)
  {
    if i.row == 0 {
      TruncWhole(0);
    } else if i.row == 1 {
      TruncWhole(0);
      TruncWhole(100);
    } else {
      TruncWhole(0);
      TruncWhole(200);
    }
  }

  /** In the example the point (100, 0) hits B, whose outline is the side-40
      square centred on (100, 0), and no node before it. */
  lemma ExampleHitsB(v: View)
    requires IsExample(v)
    ensures ItemPath(v.layout, Index(1, 0)) == Rect(80, -20, 40, 40)
    ensures FirstHit(v, Shifted(v, Point(100, 0)), Index(1, 0))
  {
    var p := Point(100, 0);
    ExamplePaths(v, Index(0, 0));
    ExamplePaths(v, Index(1, 0));
    FirstHitInOneColumn(v, p, Index(1, 0));
  }

  /** In a model with a single column, a hit is the first one as soon as no
      earlier row is hit. */
  lemma FirstHitInOneColumn(v: View, p: Point, x: Index)
    requires v.model.Some? && v.model.value.columnCount == 1
    requires Hit(v, p, x)
    requires forall r | 0 <= r < x.row :: !Hit(v, p, Index(r, 0))
    ensures FirstHit(v, p, x)
  {
    forall i | Hit(v, p, i)
      ensures !Before(i, x)
    {
      assert i == Index(i.row, 0);
    }
  }

  /** In the example the point (500, 500) hits nothing. */
  lemma ExampleMisses(v: View)
    requires IsExample(v)
    ensures forall i :: !Hit(v, Shifted(v, Point(500, 500)), i)
  {
    forall i
      ensures !Hit(v, Point(500, 500), i)
    {
      if i.column == 0 && i.row < 3 {
        ExamplePaths(v, i);
      }
    }
  }

  /** What a paint event does, in order. */
  datatype DrawCommand =
    | Translate(dx: int, dy: int)
    | DrawEdge(edge: Edge)
    | DrawItem(index: Index)

  /** One edge command per edge of the model, in the model's order. */
  function PaintEdges(edges: seq<Edge>): (cmds: seq<DrawCommand>)
    ensures |cmds| == |edges|
    ensures forall i | 0 <= i < |edges| :: cmds[i] == DrawEdge(edges[i])
  {
    if edges == [] then []
    else PaintEdges(edges[..|edges| - 1]) + [DrawEdge(edges[|edges| - 1])]
  }

  /** One item command per row, for column 0 only, in row order. */
  function PaintItems(rows: nat): (cmds: seq<DrawCommand>)
    ensures |cmds| == rows
    ensures forall r | 0 <= r < rows :: cmds[r] == DrawItem(Index(r, 0))
  {
    if rows == 0 then []
    else PaintItems(rows - 1) + [DrawItem(Index(rows - 1, 0))]
  }

  /** A paint event: nothing without a model; otherwise the painter is moved
      by minus the scroll offsets, then all edges are drawn in the model's
      order, then the column-0 item of every row in row order. */
  function PaintEvent(v: View): (cmds: seq<DrawCommand>)
    ensures v.model.None? <==> cmds == []
    ensures v.model.Some? ==>
      var ne := |v.model.value.edges|;
      && |cmds| == 1 + ne + v.model.value.rowCount
      && cmds[0] == Translate(-v.horizontalOffset, -v.verticalOffset)
      && (forall i | 1 <= i < 1 + ne :: cmds[i] == DrawEdge(v.model.value.edges[i - 1]))
      && (forall i | 1 + ne <= i < |cmds| :: cmds[i] == DrawItem(Index(i - 1 - ne, 0)))
  {
    match v.model
    case None => []
    case Some(m) =>
      [Translate(-v.horizontalOffset, -v.verticalOffset)]
        + PaintEdges(m.edges) + PaintItems(m.rowCount)
  }

  /** The draw order of a paint event: the translation comes first and only
      once, no edge is drawn after an item, every edge of the model is drawn
      and nothing else is, and exactly the column-0 cell of every row is
      drawn as an item. */
  lemma PaintOrder(v: View)
    requires v.model.Some?
    ensures var cmds := PaintEvent(v);
      && (forall i | 0 < i < |cmds| :: !cmds[i].Translate?)
      && (forall i, j | 0 <= i < j < |cmds| :: !(cmds[i].DrawItem? && cmds[j].DrawEdge?))
      && (forall e :: DrawEdge(e) in cmds <==> e in v.model.value.edges)
      && (forall x :: DrawItem(x) in cmds <==> x.column == 0 && x.row < v.model.value.rowCount)
  {
    var m := v.model.value;
    var cmds := PaintEvent(v);
    var ne := |m.edges|;
    forall e
      ensures DrawEdge(e) in cmds <==> e in m.edges
    {
      if e in m.edges {
        var k :| 0 <= k < ne && m.edges[k] == e;
        assert cmds[1 + k] == DrawEdge(e);
      }
    }
    forall x
      ensures DrawItem(x) in cmds <==> x.column == 0 && x.row < m.rowCount
    {
      if x.column == 0 && x.row < m.rowCount {
        assert cmds[1 + ne + x.row] == DrawItem(x);
      }
    }
  }

  /** In the example a paint event draws the two edges in model order and
      then the three nodes in row order. */
  lemma ExamplePaint(v: View)
    requires IsExample(v)
    ensures var a, b, c := Index(0, 0), Index(1, 0), Index(2, 0);
      PaintEvent(v) == [Translate(0, 0), DrawEdge(Edge(a, b)), DrawEdge(Edge(b, c)),
                        DrawItem(a), DrawItem(b), DrawItem(c)]
  {
  }

  /** The painter's translation undoes the hit test's shift: a viewport
      point moved into model space and drawn there lands back on itself. */
  lemma PaintUndoesShift(v: View, point: Point)
    requires v.model.Some?
    ensures var t := PaintEvent(v)[0];
      t.Translate? && Shifted(v, point).x + t.dx == point.x && Shifted(v, point).y + t.dy == point.y
  {
  }

  /** The bounding rectangle of the laid out nodes. */
  datatype RectF = RectF(x: real, y: real, width: real, height: real)

  datatype ScrollBars = ScrollBars(hMin: int, hMax: int, vMin: int, vMax: int)

  /** The scroll ranges of the graph view: each minimum is the bounding
      rectangle's corner less one item size, each maximum is the bounding
      size plus one item size, less the widget size, plus 50; the values are
      truncated to integers and not clamped. */
  function GraphScrollRanges(bounds: RectF, itemWidth: real, itemHeight: real,
                             widgetWidth: int, widgetHeight: int): (s: ScrollBars)
  {
    ScrollBars(
      Trunc(bounds.x - itemWidth),
      Trunc(bounds.width + itemWidth - widgetWidth as real + 50.0),
      Trunc(bounds.y - itemHeight),
      Trunc(bounds.height + itemHeight - widgetHeight as real + 50.0))
  }

  /** Each bound is within one unit of its exact value, on the side of zero. */
  lemma ScrollRangesNearExact(bounds: RectF, itemWidth: real, itemHeight: real, widgetWidth: int, widgetHeight: int)
    ensures var s := GraphScrollRanges(bounds, itemWidth, itemHeight, widgetWidth, widgetHeight);
      && Near(s.hMin, bounds.x - itemWidth)
      && Near(s.vMin, bounds.y - itemHeight)
      && Near(s.hMax, bounds.width + itemWidth - widgetWidth as real + 50.0)
      && Near(s.vMax, bounds.height + itemHeight - widgetHeight as real + 50.0)
  {
  }

  /** `n` is `r` with its fraction dropped. */
  predicate Near(n: int, r: real)
  {
    (0.0 <= r ==> n as real <= r < n as real + 1.0) && (r < 0.0 ==> n as real - 1.0 < r <= n as real)
  }

  /** Moving the bounding rectangle changes neither maximum, and moving it
      by a whole number of units to the right and down moves each minimum by
      the same amount, as long as the minimum does not change sign. */
  lemma ScrollRangesMove(bounds: RectF, dx: int, dy: int, itemWidth: real, itemHeight: real,
                         widgetWidth: int, widgetHeight: int)
    requires 0.0 <= bounds.x - itemWidth && 0 <= dx
    requires 0.0 <= bounds.y - itemHeight && 0 <= dy
    ensures var s := GraphScrollRanges(bounds, itemWidth, itemHeight, widgetWidth, widgetHeight);
      var moved := bounds.(x := bounds.x + dx as real, y := bounds.y + dy as real);
      var t := GraphScrollRanges(moved, itemWidth, itemHeight, widgetWidth, widgetHeight);
      t.hMax == s.hMax && t.vMax == s.vMax && t.hMin == s.hMin + dx && t.vMin == s.vMin + dy
  {
  }

  /** A wider or taller widget never raises the corresponding maximum. */
  lemma ScrollRangesWidget(bounds: RectF, itemWidth: real, itemHeight: real,
                           w1: int, h1: int, w2: int, h2: int)
    requires w1 <= w2 && h1 <= h2
    ensures var s1 := GraphScrollRanges(bounds, itemWidth, itemHeight, w1, h1);
      var s2 := GraphScrollRanges(bounds, itemWidth, itemHeight, w2, h2);
      s2.hMax <= s1.hMax && s2.vMax <= s1.vMax
  {
    TruncMonotone(bounds.width + itemWidth - w2 as real + 50.0, bounds.width + itemWidth - w1 as real + 50.0);
    TruncMonotone(bounds.height + itemHeight - h2 as real + 50.0, bounds.height + itemHeight - h1 as real + 50.0);
  }

  /** Nothing here keeps the maximum above the minimum: for a 100 by 100
      graph with 40 by 40 items in a 400 by 400 widget, the values handed to
      the horizontal scroll bar's setters are -40 for the minimum and -210
      for the maximum. */
  lemma ScrollRangesUnclamped()
    ensures var s := GraphScrollRanges(RectF(0.0, 0.0, 100.0, 100.0), 40.0, 40.0, 400, 400);
      s.hMin == -40 && s.hMax == -210 && s.hMax < s.hMin
  {
    TruncWhole(-40);
    TruncWhole(-210);
  }
}
