/** The second half of the vertical tree's layout pass: the grid placement
    of the scan is summarised (widest column, deepest level), scaled to view
    coordinates, and turned into scroll ranges. */
module VerticalTreeView {
  import opened Basics
  import opened VerticalTree

  /** A point in view coordinates. */
  datatype PointF = PointF(x: real, y: real)

  /** The sizes the view works with: the spacing between items, the size of
      one item, and the size of the widget. */
  datatype Geometry = Geometry(
    xDistance: real, yDistance: real,
    itemWidth: real, itemHeight: real,
    widgetWidth: real, widgetHeight: real)

  /** The result of placing the tree on the grid: the grid position of every
      node, the widest column and the deepest level. */
  datatype TreeLayout = TreeLayout(treePos: map<Path, GridPos>, left: real, depth: nat)

  datatype ScrollRange = ScrollRange(min: real, max: real)

  /** The scroll bar ranges and the item offset the view sets. */
  datatype TreeScroll = TreeScroll(horizontal: ScrollRange, vertical: ScrollRange, itemOffset: PointF)

  /** What the view holds once the layout is scaled: the view position of
      every item, the size of the drawn content, and the scroll state. */
  datatype TreeView = TreeView(itemPos: map<Path, PointF>, realWidth: real, realHeight: real, scroll: TreeScroll)

  /** Scans the tree from its root with counter 0 at level 0, then takes the
      widest column over all placed nodes (starting from 0) and the deepest
      level, which is one less than the height the scan hands back. */
  method PositionsInTree(rule: CounterRule, t: Tree) returns (layout: TreeLayout)
    ensures layout.treePos == Scan(rule, t, [], 0.0, 0).pos
    ensures layout.depth + 1 == Scan(rule, t, [], 0.0, 0).height
    ensures forall k | k in layout.treePos :: 0.0 <= layout.treePos[k].x <= layout.left
    ensures layout.left == 0.0 || exists k | k in layout.treePos :: layout.treePos[k].x == layout.left
    ensures forall k | k in layout.treePos :: layout.treePos[k].y <= layout.depth
    ensures exists k | k in layout.treePos :: layout.treePos[k].y == layout.depth
  {
    var r := Scan(rule, t, [], 0.0, 0);
    ScanLevels(rule, t, [], 0.0, 0);
    var left := 0.0;
    var rest := r.pos.Keys;
    while rest != {}
      invariant rest <= r.pos.Keys
      invariant forall k | k in r.pos && k !in rest :: r.pos[k].x <= left
      invariant left == 0.0 || exists k | k in r.pos && k !in rest :: r.pos[k].x == left
      decreases rest
    {
      var k :| k in rest;
      if left < r.pos[k].x {
        left := r.pos[k].x;
      }
      rest := rest - {k};
    }
    layout := TreeLayout(r.pos, left, r.height - 1);
  }

  /** The view position of a grid position: the column and level scaled by
      the item pitch, moved to the centre of the item. */
  function ViewPoint(g: Geometry, p: GridPos): (q: PointF)
  {
    PointF(p.x * (g.xDistance + g.itemWidth) + g.itemWidth / 2.0,
           p.y as real * (g.yDistance + g.itemHeight) + g.itemHeight / 2.0)
  }

  /** The grid position a view point came from, when the pitch is not zero. */
  function GridOf(g: Geometry, q: PointF): (r: (real, real))
    requires g.xDistance + g.itemWidth != 0.0 && g.yDistance + g.itemHeight != 0.0
  {
    ((q.x - g.itemWidth / 2.0) / (g.xDistance + g.itemWidth),
     (q.y - g.itemHeight / 2.0) / (g.yDistance + g.itemHeight))
  }

  /** Scaling loses nothing as long as the pitch is not zero: the grid
      position is recovered from the view point. */
  lemma ViewPointRoundTrip(g: Geometry, p: GridPos)
    requires g.xDistance + g.itemWidth != 0.0 && g.yDistance + g.itemHeight != 0.0
    ensures GridOf(g, ViewPoint(g, p)) == (p.x, p.y as real)
  {
    var a := g.xDistance + g.itemWidth;
    var b := g.yDistance + g.itemHeight;
    var q := ViewPoint(g, p);
    assert q.x - g.itemWidth / 2.0 == p.x * a;
    assert q.y - g.itemHeight / 2.0 == p.y as real * b;
    assert (p.x * a) / a == p.x;
    assert (p.y as real * b) / b == p.y as real;
  }

  /** So, with a non-zero pitch, distinct grid positions get distinct view
      points. */
  lemma ViewPointInjective(g: Geometry, p1: GridPos, p2: GridPos)
    requires g.xDistance + g.itemWidth != 0.0 && g.yDistance + g.itemHeight != 0.0
    ensures ViewPoint(g, p1) == ViewPoint(g, p2) <==> p1 == p2
  {
    if ViewPoint(g, p1) == ViewPoint(g, p2) {
      ViewPointRoundTrip(g, p1);
      ViewPointRoundTrip(g, p2);
      assert p1.x == p2.x && p1.y as real == p2.y as real;
    }
  }

  /** The scroll ranges of the view: each starts at 0 and ends where the
      content, half an item and a margin of 20 have scrolled into the widget,
      but never below 0. The item offset is set to (10, 10). */
  function ScrollRanges(realWidth: real, realHeight: real, g: Geometry): (s: TreeScroll)
    ensures s.horizontal.min == 0.0 && s.vertical.min == 0.0
    ensures 0.0 <= s.horizontal.max && 0.0 <= s.vertical.max
    ensures realWidth + g.itemWidth / 2.0 + 20.0 <= g.widgetWidth + s.horizontal.max
    ensures realHeight + g.itemHeight / 2.0 + 20.0 <= g.widgetHeight + s.vertical.max
    ensures s.horizontal.max == 0.0 || g.widgetWidth + s.horizontal.max == realWidth + g.itemWidth / 2.0 + 20.0
    ensures s.vertical.max == 0.0 || g.widgetHeight + s.vertical.max == realHeight + g.itemHeight / 2.0 + 20.0
    ensures s.itemOffset == PointF(10.0, 10.0)
  {
    var dw := realWidth + g.itemWidth / 2.0 - g.widgetWidth + 20.0;
    var dh := realHeight + g.itemHeight / 2.0 - g.widgetHeight + 20.0;
    TreeScroll(ScrollRange(0.0, if dw <= 0.0 then 0.0 else dw),
               ScrollRange(0.0, if dh <= 0.0 then 0.0 else dh),
               PointF(10.0, 10.0))
  }

  /** Scales the grid layout into the view: the content size follows from
      the widest column and the deepest level, the scroll ranges from the
      content size, and every placed node gets its view position. Entries of
      the previous view table for nodes the layout does not place are kept. */
  function PositionsInView(prior: map<Path, PointF>, layout: TreeLayout, g: Geometry): (v: TreeView)
    ensures v.itemPos.Keys == prior.Keys + layout.treePos.Keys
    ensures forall k | k in layout.treePos :: v.itemPos[k] == ViewPoint(g, layout.treePos[k])
    ensures forall k | k in prior && k !in layout.treePos :: v.itemPos[k] == prior[k]
    ensures v.scroll == ScrollRanges(v.realWidth, v.realHeight, g)
  {
    var realWidth := layout.left * (g.xDistance + g.itemWidth) + g.itemWidth;
    var realHeight := layout.depth as real * (g.yDistance + g.itemHeight) + g.itemHeight;
    var placed := map k | k in layout.treePos :: ViewPoint(g, layout.treePos[k]);
    TreeView(prior + placed, realWidth, realHeight, ScrollRanges(realWidth, realHeight, g))
  }

  /** The content size is tight: an item in the widest column ends exactly
      at the content's width, and an item on the deepest level ends exactly
      at its height; with no column right of 0 the content is one item
      wide. */
  lemma ContentTight(prior: map<Path, PointF>, layout: TreeLayout, g: Geometry, k: Path)
    requires k in layout.treePos
    ensures var v := PositionsInView(prior, layout, g);
      && (layout.treePos[k].x == layout.left ==> v.itemPos[k].x + g.itemWidth / 2.0 == v.realWidth)
      && (layout.treePos[k].y == layout.depth ==> v.itemPos[k].y + g.itemHeight / 2.0 == v.realHeight)
      && (layout.left == 0.0 ==> v.realWidth == g.itemWidth)
  {
    var v := PositionsInView(prior, layout, g);
    var p := layout.treePos[k];
    assert v.itemPos[k] == ViewPoint(g, p);
    if p.y == layout.depth {
      assert p.y as real == layout.depth as real;
    }
  }

  /** With a non-negative pitch, every item of the layout lies inside the
      content size the view computes: its left and top edges are not below
      0, and its right and bottom edges do not pass the content's width and
      height. */
  lemma ContentFits(prior: map<Path, PointF>, layout: TreeLayout, g: Geometry, k: Path)
    requires 0.0 <= g.xDistance + g.itemWidth && 0.0 <= g.yDistance + g.itemHeight
    requires k in layout.treePos
    requires 0.0 <= layout.treePos[k].x <= layout.left && layout.treePos[k].y <= layout.depth
    ensures var v := PositionsInView(prior, layout, g);
      && 0.0 <= v.itemPos[k].x - g.itemWidth / 2.0
      && v.itemPos[k].x + g.itemWidth / 2.0 <= v.realWidth
      && 0.0 <= v.itemPos[k].y - g.itemHeight / 2.0
      && v.itemPos[k].y + g.itemHeight / 2.0 <= v.realHeight
  {
    var v := PositionsInView(prior, layout, g);
    var p := layout.treePos[k];
    assert v.itemPos[k] == ViewPoint(g, p);
    SpanFits(p.x, layout.left, g.xDistance + g.itemWidth);
    SpanFits(p.y as real, layout.depth as real, g.yDistance + g.itemHeight);
  }

  /** One axis of `ContentFits`: scaling by a non-negative pitch keeps a
      grid coordinate between 0 and the extent. */
  lemma SpanFits(c: real, e: real, pitch: real)
    requires 0.0 <= c <= e && 0.0 <= pitch
    ensures 0.0 <= c * pitch <= e * pitch
  {
    NonNegativeProduct(c, pitch);
    NonNegativeProduct(e - c, pitch);
    assert (e - c) * pitch == e * pitch - c * pitch;
  }

  /** With the threaded counter and a non-negative horizontal gap, two items
      on the same level never overlap in the view: their centres are at
      least one item width apart. */
  lemma ViewItemsApart(prior: map<Path, PointF>, t: Tree, path: Path, left: real, depth: nat,
                       layout: TreeLayout, g: Geometry, k1: Path, k2: Path)
    requires 0.0 <= g.xDistance && 0.0 <= g.itemWidth
    requires layout.treePos == Scan(AfterSubtree, t, path, left, depth).pos
    requires var pos := layout.treePos;
      k1 in pos && k2 in pos && k1 != k2 && pos[k1].y == pos[k2].y
    ensures var v := PositionsInView(prior, layout, g);
      v.itemPos[k1].x + g.itemWidth <= v.itemPos[k2].x || v.itemPos[k2].x + g.itemWidth <= v.itemPos[k1].x
  {
    AfterSubtreeSeparates(t, path, left, depth);
    SeparatedInView(prior, layout, g, k1, k2);
  }

  lemma SeparatedInView(prior: map<Path, PointF>, layout: TreeLayout, g: Geometry, k1: Path, k2: Path)
    requires 0.0 <= g.xDistance && 0.0 <= g.itemWidth
    requires Separated(layout.treePos)
    requires var pos := layout.treePos;
      k1 in pos && k2 in pos && k1 != k2 && pos[k1].y == pos[k2].y
    ensures var v := PositionsInView(prior, layout, g);
      v.itemPos[k1].x + g.itemWidth <= v.itemPos[k2].x || v.itemPos[k2].x + g.itemWidth <= v.itemPos[k1].x
  {
    var v := PositionsInView(prior, layout, g);
    var p1, p2 := layout.treePos[k1], layout.treePos[k2];
    assert v.itemPos[k1] == ViewPoint(g, p1) && v.itemPos[k2] == ViewPoint(g, p2);
    assert p1.x + 1.0 <= p2.x || p2.x + 1.0 <= p1.x;
    ColumnsApart(p1, p2, g);
  }

  /** Columns at least one apart are at least one item width apart once
      scaled by a pitch no smaller than the item width. */
  lemma ColumnsApart(p1: GridPos, p2: GridPos, g: Geometry)
    requires 0.0 <= g.xDistance && 0.0 <= g.itemWidth
    requires p1.x + 1.0 <= p2.x || p2.x + 1.0 <= p1.x
    ensures ViewPoint(g, p1).x + g.itemWidth <= ViewPoint(g, p2).x
         || ViewPoint(g, p2).x + g.itemWidth <= ViewPoint(g, p1).x
  {
    var a := g.xDistance + g.itemWidth;
    var x1, x2 := p1.x * a, p2.x * a;
    assert ViewPoint(g, p1).x == x1 + g.itemWidth / 2.0;
    assert ViewPoint(g, p2).x == x2 + g.itemWidth / 2.0;
    if p1.x + 1.0 <= p2.x {
      var d := p2.x - p1.x - 1.0;
      NonNegativeProduct(d, a);
      assert p2.x == p1.x + d + 1.0;
      assert x2 == (p1.x + d + 1.0) * a;
      assert x2 == x1 + d * a + a;
    } else {
      var d := p1.x - p2.x - 1.0;
      NonNegativeProduct(d, a);
      assert p1.x == p2.x + d + 1.0;
      assert x1 == (p2.x + d + 1.0) * a;
      assert x1 == x2 + d * a + a;
    }
  }

  lemma NonNegativeProduct(d: real, a: real)
    requires 0.0 <= d && 0.0 <= a
    ensures 0.0 <= d * a
  {
  }

  /** With the counter rule as written the example tree's two clashing leaves
      get the same view position, whatever the geometry. */
  lemma AsWrittenViewOverlap(prior: map<Path, PointF>, t: Tree, layout: TreeLayout, g: Geometry)
    requires OverlapShape(t)
    requires layout.treePos == Scan(AfterLastChild, t, [], 0.0, 0).pos
    ensures var v := PositionsInView(prior, layout, g);
      [0, 0, 2] in v.itemPos && [1, 0, 0] in v.itemPos && v.itemPos[[0, 0, 2]] == v.itemPos[[1, 0, 0]]
  {
    AsWrittenOverlaps(t, [], 0.0, 0);
    assert [] + [0, 0, 2] == [0, 0, 2] && [] + [1, 0, 0] == [1, 0, 0];
  }
}
