/** The placement pass of a vertical tree view: every item of a tree model is
    given a grid column `x` and a grid level `y`. Leaves take consecutive
    columns from a counter threaded left to right through the tree; a parent
    is centred over its children and sits one level above them. */
module VerticalTree {
  import opened Basics

  /** A node's identity: the row numbers that lead to it from the scanned
      root (the root itself is `[]`). It plays the role of the model index
      used as the key of the position table. */
  type Path = seq<nat>

  /** An item of the tree model; its children are the rows under it. */
  datatype Tree = Node(children: seq<Tree>)

  /** A grid position: a column, which may be a half-integer after centring,
      and a level, which is the distance from the scanned root. */
  datatype GridPos = GridPos(x: real, y: nat)

  /** What one call of the scan produces: the positions it wrote, the counter
      it hands back to the caller, and the height it reports. */
  datatype Scanned = Scanned(pos: map<Path, GridPos>, next: real, height: nat)

  /** Which counter an inner node hands back to its caller.
      `AfterLastChild` is the rule of the code as written (the column of the
      last child plus one); `AfterSubtree` hands back the counter the last
      child returned, the rule that keeps subtrees apart (see the lemmas
      `AsWrittenOverlaps` and `AfterSubtreeSeparates`). */
  datatype CounterRule = AfterLastChild | AfterSubtree

  predicate IsPrefix(p: Path, k: Path) {
    |p| <= |k| && k[..|p|] == p
  }

  /** `q` leads from the root of `t` to one of its nodes. */
  predicate IsPath(t: Tree, q: Path)
    decreases |q|
  {
    |q| == 0 || (q[0] < |t.children| && IsPath(t.children[q[0]], q[1..]))
  }

  lemma ExtendedPrefix(path: Path, i: nat)
    ensures forall k | IsPrefix(path + [i], k) :: IsPrefix(path, k) && |path| < |k| && k[|path|] == i
  {
    forall k | IsPrefix(path + [i], k)
      ensures IsPrefix(path, k) && |path| < |k| && k[|path|] == i
    {
      assert k[..|path|] == k[..|path| + 1][..|path|];
      assert k[|path|] == k[..|path| + 1][|path|];
    }
  }

  /** What every scan of a subtree at `path`, started with counter `left` at
      level `depth`, guarantees: the subtree's root is placed on its level,
      only nodes below `path` are placed, no column is left of `left`, and
      the counter handed back is at least one column right of both `left`
      and the subtree's root. */
  ghost predicate NodeScanned(r: Scanned, path: Path, left: real, depth: nat)
  {
    && path in r.pos && r.pos[path].y == depth
    && (forall k | k in r.pos :: IsPrefix(path, k))
    && (forall k | k in r.pos :: left <= r.pos[k].x)
    && r.pos[path].x + 1.0 <= r.next
    && left + 1.0 <= r.next
    && 1 <= r.height
  }

  /** What the scan of children `i..n` of the node `path` guarantees: each of
      them is placed on level `depth`, only their subtrees are placed, no
      column is left of `left`, the children are at least one column apart
      from left to right, and the counter handed back is right of all of
      them. */
  ghost predicate ChildrenScanned(r: Scanned, path: Path, i: nat, n: nat, left: real, depth: nat)
  {
    && (forall j | i <= j < n :: path + [j] in r.pos && r.pos[path + [j]].y == depth)
    && (forall k | k in r.pos :: IsPrefix(path, k) && |path| < |k| && i <= k[|path|] < n)
    && (forall k | k in r.pos :: left <= r.pos[k].x)
    && (forall j1, j2 | i <= j1 < j2 < n :: r.pos[path + [j1]].x + 1.0 <= r.pos[path + [j2]].x)
    && left <= r.next
    && (i < n ==> left + 1.0 <= r.next && r.pos[path + [n - 1]].x + 1.0 <= r.next)
  }

  /** The scan of `t`, whose path is `path`, starting from counter `left` at
      level `depth`. A leaf takes the counter's column; an inner node scans
      its children one level down, threading the counter through them, and
      is then centred over them. */
  function Scan(rule: CounterRule, t: Tree, path: Path, left: real, depth: nat): (r: Scanned)
    decreases t, 1
    ensures NodeScanned(r, path, left, depth)
    ensures t.children == [] ==> r == Scanned(map[path := GridPos(left, depth)], left + 1.0, 1)
  {
    var rows := |t.children|;
    if rows == 0 then
      Scanned(map[path := GridPos(left, depth)], left + 1.0, 1)
    else
      var cs := ScanChildren(rule, t, path, 0, left, depth + 1);
      var right := cs.pos[path + [rows - 1]].x;
      var x := ParentColumn(cs.pos, path, rows);
      var next := match rule
        case AfterLastChild => right + 1.0
        case AfterSubtree => cs.next;
      JoinParent(cs, path, rows, x, next, left, depth);
      Scanned(cs.pos[path := GridPos(x, depth)], next, cs.height + 1)
  }

  /** The column of a parent with `rows` children placed in `pos`: the
      column of its only child, of its middle child when the count is odd,
      and midway between the first and last child when it is even. */
  function ParentColumn(pos: map<Path, GridPos>, path: Path, rows: nat): (x: real)
    requires 0 < rows
    requires forall j | 0 <= j < rows :: path + [j] in pos
  {
    var first := pos[path + [0]].x;
    var right := pos[path + [rows - 1]].x;
    if rows >= 2 then
      if rows % 2 == 1 then pos[path + [rows / 2]].x else (right + first) / 2.0
    else first
  }

  /** The loop over the children `i..` of `t`: each child is scanned with the
      counter the previous one returned; the height is the largest child
      height (0 when no child is left). */
  function ScanChildren(rule: CounterRule, t: Tree, path: Path, i: nat, left: real, depth: nat): (r: Scanned)
    requires i <= |t.children|
    decreases t, 0, |t.children| - i
    ensures ChildrenScanned(r, path, i, |t.children|, left, depth)
  {
    if i == |t.children| then
      Scanned(map[], left, 0)
    else
      var c := Scan(rule, t.children[i], path + [i], left, depth);
      var rest := ScanChildren(rule, t, path, i + 1, c.next, depth);
      JoinChildren(c, rest, path, i, |t.children|, left, depth);
      Scanned(c.pos + rest.pos, rest.next, MaxNat(c.height, rest.height))
  }

  /** The contract of `Scan` for an inner node, from that of `ScanChildren`
      for its children. */
  lemma JoinParent(cs: Scanned, path: Path, n: nat, x: real, next: real, left: real, depth: nat)
    requires 0 < n
    requires ChildrenScanned(cs, path, 0, n, left, depth + 1)
    requires x == ParentColumn(cs.pos, path, n)
    requires next == cs.pos[path + [n - 1]].x + 1.0 || next == cs.next
    ensures NodeScanned(Scanned(cs.pos[path := GridPos(x, depth)], next, cs.height + 1), path, left, depth)
  {
    ParentColumnCentred(cs.pos, path, n);
  }

  /** The contract of `ScanChildren` for children `i..n`, from the contract
      of `Scan` for child `i` and that of `ScanChildren` for `i + 1..n`. */
  lemma JoinChildren(c: Scanned, rest: Scanned, path: Path, i: nat, n: nat, left: real, depth: nat)
    requires i < n
    requires NodeScanned(c, path + [i], left, depth)
    requires ChildrenScanned(rest, path, i + 1, n, c.next, depth)
    ensures ChildrenScanned(Scanned(c.pos + rest.pos, rest.next, MaxNat(c.height, rest.height)), path, i, n, left, depth)
  {
    JoinKeys(c.pos, rest.pos, path, i, n);
    var m := c.pos + rest.pos;
    assert forall j | i < j < n :: m[path + [j]] == rest.pos[path + [j]];
    assert m[path + [i]] == c.pos[path + [i]];
    JoinOrder(m, c.pos[path + [i]].x, c.next, path, i, n);
  }

  lemma JoinKeys(c: map<Path, GridPos>, rest: map<Path, GridPos>, path: Path, i: nat, n: nat)
    requires i < n
    requires forall k | k in c :: IsPrefix(path + [i], k)
    requires forall k | k in rest :: IsPrefix(path, k) && |path| < |k| && i + 1 <= k[|path|] < n
    ensures forall k | k in c :: k !in rest && (c + rest)[k] == c[k]
    ensures forall k | k in c + rest :: IsPrefix(path, k) && |path| < |k| && i <= k[|path|] < n
  {
    ExtendedPrefix(path, i);
  }

  lemma JoinOrder(m: map<Path, GridPos>, x: real, next: real, path: Path, i: nat, n: nat)
    requires i < n
    requires forall j | i <= j < n :: path + [j] in m
    requires m[path + [i]].x == x && x + 1.0 <= next
    requires forall j | i < j < n :: next <= m[path + [j]].x
    requires forall j1, j2 | i + 1 <= j1 < j2 < n :: m[path + [j1]].x + 1.0 <= m[path + [j2]].x
    ensures forall j1, j2 | i <= j1 < j2 < n :: m[path + [j1]].x + 1.0 <= m[path + [j2]].x
  {
  }

  /** How one inner-node scan is assembled from the scan of its children. */
  lemma ScanInner(rule: CounterRule, t: Tree, path: Path, left: real, depth: nat)
    requires t.children != []
    ensures var r := Scan(rule, t, path, left, depth);
      var cs := ScanChildren(rule, t, path, 0, left, depth + 1);
      && r.pos == cs.pos[path := GridPos(r.pos[path].x, depth)]
      && r.height == cs.height + 1
      && path !in cs.pos
      && r.pos[path].x == ParentColumn(cs.pos, path, |t.children|)
      && r.next == match rule
           case AfterLastChild => cs.pos[path + [|t.children| - 1]].x + 1.0
           case AfterSubtree => cs.next
  {
  }

  /** The entries of the children's scan survive in the parent's scan. */
  lemma ScanKeepsChildren(rule: CounterRule, t: Tree, path: Path, left: real, depth: nat)
    requires t.children != []
    ensures var r := Scan(rule, t, path, left, depth);
      var cs := ScanChildren(rule, t, path, 0, left, depth + 1);
      forall k | k in cs.pos :: k in r.pos && r.pos[k] == cs.pos[k]
  {
    ScanInner(rule, t, path, left, depth);
  }

  /** How the loop over children `i..` combines the scan of child `i` with
      the scan of the remaining children. */
  lemma ScanStep(rule: CounterRule, t: Tree, path: Path, i: nat, left: real, depth: nat)
    requires i < |t.children|
    ensures var r := ScanChildren(rule, t, path, i, left, depth);
      var c := Scan(rule, t.children[i], path + [i], left, depth);
      var rest := ScanChildren(rule, t, path, i + 1, c.next, depth);
      && r.pos == c.pos + rest.pos
      && r.next == rest.next
      && r.height == MaxNat(c.height, rest.height)
      && c.pos.Keys !! rest.pos.Keys
      && (forall k | k in c.pos :: r.pos[k] == c.pos[k])
      && (forall k | k in rest.pos :: r.pos[k] == rest.pos[k])
  {
    var c := Scan(rule, t.children[i], path + [i], left, depth);
    var rest := ScanChildren(rule, t, path, i + 1, c.next, depth);
    ExtendedPrefix(path, i);
    assert forall k | k in c.pos :: k !in rest.pos;
  }

  /** The positions in `pos` lie on the levels `depth .. depth + height - 1`
      below the node `path`, each at its distance from `path`, and the lowest
      of those levels is occupied. */
  ghost predicate OnLevels(pos: map<Path, GridPos>, path: Path, depth: nat, height: nat)
  {
    && (forall k | k in pos :: pos[k].y + |path| == depth + |k|)
    && (forall k | k in pos :: pos[k].y < depth + height)
    && (exists k :: k in pos && pos[k].y == depth + height - 1)
  }

  /** Every node is placed at its own distance from the scanned root, and
      the height handed back is the number of levels the subtree spans:
      no node lies at or below level `depth + height`, and some node lies
      on the lowest of those levels. */
  lemma {:induction false} ScanLevels(rule: CounterRule, t: Tree, path: Path, left: real, depth: nat)
    decreases t, 1
    ensures var r := Scan(rule, t, path, left, depth); OnLevels(r.pos, path, depth, r.height)
  {
    var r := Scan(rule, t, path, left, depth);
    if t.children != [] {
      assert OnLevels(r.pos, path, depth, r.height) by {
        var cs := ScanChildren(rule, t, path, 0, left, depth + 1);
        ScanInner(rule, t, path, left, depth);
        ScanChildrenLevels(rule, t, path, 0, left, depth + 1);
        LevelsOfParent(r.pos, cs.pos, path, r.pos[path].x, depth, cs.height);
      }
    } else {
      LeafOnLevels(path, left, depth);
    }
  }

  lemma LeafOnLevels(path: Path, left: real, depth: nat)
    ensures OnLevels(map[path := GridPos(left, depth)], path, depth, 1)
  {
    var m := map[path := GridPos(left, depth)];
    assert path in m && m[path].y == depth;
  }

  /** The level facts of a parent's positions, from those of its children. */
  lemma LevelsOfParent(pos: map<Path, GridPos>, cs: map<Path, GridPos>, path: Path, x: real, depth: nat, h: nat)
    requires pos == cs[path := GridPos(x, depth)]
    requires forall k | k in cs :: |path| < |k|
    requires forall k | k in cs :: cs[k].y + |path| + 1 == depth + 1 + |k|
    requires forall k | k in cs :: cs[k].y < depth + 1 + h
    requires exists k :: k in cs && cs[k].y == depth + 1 + h - 1
    ensures OnLevels(pos, path, depth, h + 1)
  {
    var k :| k in cs && cs[k].y == depth + 1 + h - 1;
    assert k != path;
    assert k in pos && pos[k] == cs[k];
  }

  lemma {:induction false} ScanChildrenLevels(rule: CounterRule, t: Tree, path: Path, i: nat, left: real, depth: nat)
    requires i <= |t.children|
    decreases t, 0, |t.children| - i
    ensures var r := ScanChildren(rule, t, path, i, left, depth);
      && (forall k | k in r.pos :: r.pos[k].y + |path| + 1 == depth + |k|)
      && (forall k | k in r.pos :: r.pos[k].y < depth + r.height)
      && (i < |t.children| ==> exists k :: k in r.pos && r.pos[k].y == depth + r.height - 1)
  {
    if i < |t.children| {
      var r := ScanChildren(rule, t, path, i, left, depth);
      var c := Scan(rule, t.children[i], path + [i], left, depth);
      var rest := ScanChildren(rule, t, path, i + 1, c.next, depth);
      ScanStep(rule, t, path, i, left, depth);
      ScanLevels(rule, t.children[i], path + [i], left, depth);
      ScanChildrenLevels(rule, t, path, i + 1, c.next, depth);
      forall k | k in r.pos
        ensures r.pos[k].y + |path| + 1 == depth + |k| && r.pos[k].y < depth + r.height
      {
        if k in c.pos {
          assert r.pos[k] == c.pos[k];
        } else {
          assert r.pos[k] == rest.pos[k];
        }
      }
      if c.height >= rest.height {
        var k :| k in c.pos && c.pos[k].y == depth + c.height - 1;
        assert k in r.pos && r.pos[k] == c.pos[k];
      } else {
        var k :| k in rest.pos && rest.pos[k].y == depth + rest.height - 1;
        assert k in r.pos && r.pos[k] == rest.pos[k];
      }
    }
  }

  /** `pos` holds exactly the nodes of `t`, keyed by their paths below `path`. */
  ghost predicate Covers(pos: map<Path, GridPos>, t: Tree, path: Path)
  {
    forall k :: k in pos <==> IsPrefix(path, k) && IsPath(t, k[|path|..])
  }

  /** `pos` holds exactly the nodes of the subtrees of children `i..` of `t`. */
  ghost predicate CoversChildren(pos: map<Path, GridPos>, t: Tree, path: Path, i: nat)
  {
    forall k :: k in pos <==>
      IsPrefix(path, k) && |path| < |k| && i <= k[|path|] < |t.children|
      && IsPath(t.children[k[|path|]], k[|path| + 1..])
  }

  lemma LeafCovers(t: Tree, path: Path, left: real, depth: nat)
    requires t.children == []
    ensures Covers(map[path := GridPos(left, depth)], t, path)
  {
    forall k | IsPrefix(path, k) && IsPath(t, k[|path|..])
      ensures k == path
    {
      assert |k[|path|..]| == 0;
      assert k == k[..|path|];
    }
  }

  lemma CoversParent(pos: map<Path, GridPos>, cs: map<Path, GridPos>, t: Tree, path: Path, p: GridPos)
    requires pos == cs[path := p]
    requires CoversChildren(cs, t, path, 0)
    ensures Covers(pos, t, path)
  {
    forall k
      ensures k in pos <==> IsPrefix(path, k) && IsPath(t, k[|path|..])
    {
      if IsPrefix(path, k) && |path| < |k| {
        var q := k[|path|..];
        assert q[0] == k[|path|];
        assert q[1..] == k[|path| + 1..];
      } else if IsPrefix(path, k) {
        assert k == k[..|path|];
      }
    }
  }

  lemma CoversStep(r: map<Path, GridPos>, c: map<Path, GridPos>, rest: map<Path, GridPos>, t: Tree, path: Path, i: nat)
    requires i < |t.children|
    requires r == c + rest
    requires Covers(c, t.children[i], path + [i])
    requires CoversChildren(rest, t, path, i + 1)
    ensures CoversChildren(r, t, path, i)
  {
    ExtendedPrefix(path, i);
    forall k
      ensures k in r <==>
        IsPrefix(path, k) && |path| < |k| && i <= k[|path|] < |t.children|
        && IsPath(t.children[k[|path|]], k[|path| + 1..])
    {
      if IsPrefix(path, k) && |path| < |k| && k[|path|] == i {
        assert k[..|path| + 1] == k[..|path|] + [k[|path|]];
        assert IsPrefix(path + [i], k);
        assert k[|path + [i]|..] == k[|path| + 1..];
      }
    }
  }

  /** The scan places every node of the tree and nothing else. */
  lemma {:induction false} ScanCovers(rule: CounterRule, t: Tree, path: Path, left: real, depth: nat)
    decreases t, 1
    ensures Covers(Scan(rule, t, path, left, depth).pos, t, path)
  {
    var r := Scan(rule, t, path, left, depth);
    if t.children != [] {
      assert Covers(r.pos, t, path) by {
        var cs := ScanChildren(rule, t, path, 0, left, depth + 1);
        ScanInner(rule, t, path, left, depth);
        ScanChildrenCovers(rule, t, path, 0, left, depth + 1);
        CoversParent(r.pos, cs.pos, t, path, GridPos(r.pos[path].x, depth));
      }
    } else {
      LeafCovers(t, path, left, depth);
    }
  }

  lemma {:induction false} ScanChildrenCovers(rule: CounterRule, t: Tree, path: Path, i: nat, left: real, depth: nat)
    requires i <= |t.children|
    decreases t, 0, |t.children| - i
    ensures CoversChildren(ScanChildren(rule, t, path, i, left, depth).pos, t, path, i)
  {
    if i < |t.children| {
      var c := Scan(rule, t.children[i], path + [i], left, depth);
      ScanCovers(rule, t.children[i], path + [i], left, depth);
      ScanChildrenCovers(rule, t, path, i + 1, c.next, depth);
      ScanChildrenCoversStep(rule, t, path, i, left, depth);
    } else {
      assert ScanChildren(rule, t, path, i, left, depth).pos == map[];
    }
  }

  lemma ScanChildrenCoversStep(rule: CounterRule, t: Tree, path: Path, i: nat, left: real, depth: nat)
    requires i < |t.children|
    requires var c := Scan(rule, t.children[i], path + [i], left, depth);
      && Covers(c.pos, t.children[i], path + [i])
      && CoversChildren(ScanChildren(rule, t, path, i + 1, c.next, depth).pos, t, path, i + 1)
    ensures CoversChildren(ScanChildren(rule, t, path, i, left, depth).pos, t, path, i)
  {
    var r := ScanChildren(rule, t, path, i, left, depth);
    var c := Scan(rule, t.children[i], path + [i], left, depth);
    var rest := ScanChildren(rule, t, path, i + 1, c.next, depth);
    ScanStep(rule, t, path, i, left, depth);
    CoversStep(r.pos, c.pos, rest.pos, t, path, i);
  }

  /** The layout rules, stated node by node for the whole subtree of `t`:
      every node sits on its level, the children of a node are at least one
      column apart from left to right, and a parent is centred over its
      children (on the middle child for an odd count, midway between the
      outer children for an even count, so between the outer children). */
  ghost predicate Tidy(t: Tree, path: Path, depth: nat, m: map<Path, GridPos>)
    decreases t
  {
    && TidyAt(t, path, depth, m)
    && (forall i | 0 <= i < |t.children| :: Tidy(t.children[i], path + [i], depth + 1, m))
  }

  /** The layout rules at the node `path` alone. */
  ghost predicate TidyAt(t: Tree, path: Path, depth: nat, m: map<Path, GridPos>)
  {
    var n := |t.children|;
    && path in m && m[path].y == depth
    && (forall i | 0 <= i < n :: path + [i] in m)
    && (forall i, j | 0 <= i < j < n :: m[path + [i]].x + 1.0 <= m[path + [j]].x)
    && (n > 0 ==> m[path + [0]].x <= m[path].x <= m[path + [n - 1]].x)
    && (n % 2 == 1 ==> m[path].x == m[path + [n / 2]].x)
    && (n > 0 && n % 2 == 0 ==> m[path].x == (m[path + [0]].x + m[path + [n - 1]].x) / 2.0)
  }

  /** The layout rules only read the entries they name, so they survive
      adding entries for other nodes. */
  lemma {:induction false} TidyFrame(t: Tree, path: Path, depth: nat, m1: map<Path, GridPos>, m2: map<Path, GridPos>)
    requires Tidy(t, path, depth, m1)
    requires forall k | k in m1 :: k in m2 && m2[k] == m1[k]
    ensures Tidy(t, path, depth, m2)
    decreases t
  {
    TidyAtFrame(t, path, depth, m1, m2);
    forall i | 0 <= i < |t.children|
      ensures Tidy(t.children[i], path + [i], depth + 1, m2)
    {
      TidyFrame(t.children[i], path + [i], depth + 1, m1, m2);
    }
  }

  lemma TidyAtFrame(t: Tree, path: Path, depth: nat, m1: map<Path, GridPos>, m2: map<Path, GridPos>)
    requires TidyAt(t, path, depth, m1)
    requires forall k | k in m1 :: k in m2 && m2[k] == m1[k]
    ensures TidyAt(t, path, depth, m2)
  {
  }

  /** The centring rule of `ParentColumn`, restated over the children's
      columns once these are at least one apart from left to right. */
  lemma ParentColumnCentred(cs: map<Path, GridPos>, path: Path, n: nat)
    requires 0 < n
    requires forall j | 0 <= j < n :: path + [j] in cs
    requires forall j1, j2 | 0 <= j1 < j2 < n :: cs[path + [j1]].x + 1.0 <= cs[path + [j2]].x
    ensures var x := ParentColumn(cs, path, n);
      && cs[path + [0]].x <= x <= cs[path + [n - 1]].x
      && (n % 2 == 1 ==> x == cs[path + [n / 2]].x)
      && (n % 2 == 0 ==> x == (cs[path + [0]].x + cs[path + [n - 1]].x) / 2.0)
  {
    if n >= 2 {
      assert cs[path + [0]].x + 1.0 <= cs[path + [n - 1]].x;
      if n % 2 == 1 {
        assert 0 < n / 2 < n - 1;
        assert cs[path + [0]].x + 1.0 <= cs[path + [n / 2]].x;
        assert cs[path + [n / 2]].x + 1.0 <= cs[path + [n - 1]].x;
      }
    }
  }

  lemma TidyAtParent(pos: map<Path, GridPos>, cs: map<Path, GridPos>, t: Tree, path: Path, depth: nat, x: real)
    requires t.children != []
    requires pos == cs[path := GridPos(x, depth)]
    requires forall j | 0 <= j < |t.children| :: path + [j] in cs
    requires forall j1, j2 | 0 <= j1 < j2 < |t.children| :: cs[path + [j1]].x + 1.0 <= cs[path + [j2]].x
    requires x == ParentColumn(cs, path, |t.children|)
    ensures TidyAt(t, path, depth, pos)
  {
    var n := |t.children|;
    ParentColumnCentred(cs, path, n);
    assert forall j | 0 <= j < n :: pos[path + [j]] == cs[path + [j]];
  }

  lemma TidyChildrenFrame(t: Tree, path: Path, depth: nat, m1: map<Path, GridPos>, m2: map<Path, GridPos>)
    requires forall j | 0 <= j < |t.children| :: Tidy(t.children[j], path + [j], depth, m1)
    requires forall k | k in m1 :: k in m2 && m2[k] == m1[k]
    ensures forall j | 0 <= j < |t.children| :: Tidy(t.children[j], path + [j], depth, m2)
  {
    forall j | 0 <= j < |t.children|
      ensures Tidy(t.children[j], path + [j], depth, m2)
    {
      TidyFrame(t.children[j], path + [j], depth, m1, m2);
    }
  }

  /** The scan obeys the layout rules at every node of the tree. */
  lemma {:induction false} ScanTidy(rule: CounterRule, t: Tree, path: Path, left: real, depth: nat)
    decreases t, 2
    ensures Tidy(t, path, depth, Scan(rule, t, path, left, depth).pos)
  {
    if t.children != [] {
      ScanTidyAt(rule, t, path, left, depth);
      ScanTidyBelow(rule, t, path, left, depth);
      TidyIntro(t, path, depth, Scan(rule, t, path, left, depth).pos);
    } else {
      ScanTidyLeaf(rule, t, path, left, depth);
    }
  }

  lemma ScanTidyAt(rule: CounterRule, t: Tree, path: Path, left: real, depth: nat)
    requires t.children != []
    ensures TidyAt(t, path, depth, Scan(rule, t, path, left, depth).pos)
  {
    var r := Scan(rule, t, path, left, depth);
    var cs := ScanChildren(rule, t, path, 0, left, depth + 1);
    ScanInner(rule, t, path, left, depth);
    TidyAtParent(r.pos, cs.pos, t, path, depth, r.pos[path].x);
  }

  lemma {:induction false} ScanTidyBelow(rule: CounterRule, t: Tree, path: Path, left: real, depth: nat)
    requires t.children != []
    decreases t, 1
    ensures var m := Scan(rule, t, path, left, depth).pos;
      forall j | 0 <= j < |t.children| :: Tidy(t.children[j], path + [j], depth + 1, m)
  {
    var r := Scan(rule, t, path, left, depth);
    var cs := ScanChildren(rule, t, path, 0, left, depth + 1);
    ScanKeepsChildren(rule, t, path, left, depth);
    ScanChildrenTidy(rule, t, path, 0, left, depth + 1);
    TidyChildrenFrame(t, path, depth + 1, cs.pos, r.pos);
  }

  lemma TidyIntro(t: Tree, path: Path, depth: nat, m: map<Path, GridPos>)
    requires TidyAt(t, path, depth, m)
    requires forall j | 0 <= j < |t.children| :: Tidy(t.children[j], path + [j], depth + 1, m)
    ensures Tidy(t, path, depth, m)
  {
  }

  lemma ScanTidyLeaf(rule: CounterRule, t: Tree, path: Path, left: real, depth: nat)
    requires t.children == []
    ensures Tidy(t, path, depth, Scan(rule, t, path, left, depth).pos)
  {
    var m := Scan(rule, t, path, left, depth).pos;
    assert TidyAt(t, path, depth, m);
  }

  lemma {:induction false} ScanChildrenTidy(rule: CounterRule, t: Tree, path: Path, i: nat, left: real, depth: nat)
    requires i <= |t.children|
    decreases t, 0, |t.children| - i
    ensures var r := ScanChildren(rule, t, path, i, left, depth);
      forall j | i <= j < |t.children| :: Tidy(t.children[j], path + [j], depth, r.pos)
  {
    var r := ScanChildren(rule, t, path, i, left, depth);
    if i < |t.children| {
      var c := Scan(rule, t.children[i], path + [i], left, depth);
      var rest := ScanChildren(rule, t, path, i + 1, c.next, depth);
      ScanStep(rule, t, path, i, left, depth);
      ScanTidy(rule, t.children[i], path + [i], left, depth);
      ScanChildrenTidy(rule, t, path, i + 1, c.next, depth);
      TidyFrame(t.children[i], path + [i], depth, c.pos, r.pos);
      forall j | i < j < |t.children|
        ensures Tidy(t.children[j], path + [j], depth, r.pos)
      {
        TidyFrame(t.children[j], path + [j], depth, rest.pos, r.pos);
      }
    }
  }

  /** The number of leaves of `t`. */
  function LeafCount(t: Tree): (n: nat)
    decreases t, 1
    ensures 1 <= n
  {
    if t.children == [] then 1 else LeafCountFrom(t, 0)
  }

  /** The number of leaves under the children `i..` of `t`. */
  function LeafCountFrom(t: Tree, i: nat): (n: nat)
    requires i <= |t.children|
    decreases t, 0, |t.children| - i
    ensures i < |t.children| ==> 1 <= n
  {
    if i == |t.children| then 0 else LeafCount(t.children[i]) + LeafCountFrom(t, i + 1)
  }

  /** What the counter handed back is. With the rule as written it is the
      column of the last child plus one, and it never passes the counter
      plus the number of leaves; with the threaded rule it is exactly the
      counter plus the number of leaves, and it lies at least one column to
      the right of every node of the subtree. */
  lemma {:induction false} ScanCounter(rule: CounterRule, t: Tree, path: Path, left: real, depth: nat)
    decreases t, 1
    ensures var r := Scan(rule, t, path, left, depth);
      && r.next <= left + LeafCount(t) as real
      && (rule == AfterLastChild && t.children != [] ==>
            r.next == r.pos[path + [|t.children| - 1]].x + 1.0)
      && (rule == AfterSubtree ==>
            r.next == left + LeafCount(t) as real
            && forall k | k in r.pos :: r.pos[k].x + 1.0 <= r.next)
  {
    if t.children != [] {
      ScanChildrenCounter(rule, t, path, 0, left, depth + 1);
      ScanCounterInner(rule, t, path, left, depth);
    }
  }

  lemma ScanCounterInner(rule: CounterRule, t: Tree, path: Path, left: real, depth: nat)
    requires t.children != []
    requires var cs := ScanChildren(rule, t, path, 0, left, depth + 1);
      && cs.next <= left + LeafCountFrom(t, 0) as real
      && (rule == AfterSubtree ==>
            cs.next == left + LeafCountFrom(t, 0) as real
            && forall k | k in cs.pos :: cs.pos[k].x + 1.0 <= cs.next)
    ensures var r := Scan(rule, t, path, left, depth);
      && r.next <= left + LeafCount(t) as real
      && (rule == AfterLastChild ==> r.next == r.pos[path + [|t.children| - 1]].x + 1.0)
      && (rule == AfterSubtree ==>
            r.next == left + LeafCount(t) as real
            && forall k | k in r.pos :: r.pos[k].x + 1.0 <= r.next)
  {
    var r := Scan(rule, t, path, left, depth);
    var cs := ScanChildren(rule, t, path, 0, left, depth + 1);
    ScanInner(rule, t, path, left, depth);
    assert path + [|t.children| - 1] != path;
  }

  lemma {:induction false} ScanChildrenCounter(rule: CounterRule, t: Tree, path: Path, i: nat, left: real, depth: nat)
    requires i <= |t.children|
    decreases t, 0, |t.children| - i
    ensures var r := ScanChildren(rule, t, path, i, left, depth);
      && r.next <= left + LeafCountFrom(t, i) as real
      && (rule == AfterSubtree ==>
            r.next == left + LeafCountFrom(t, i) as real
            && forall k | k in r.pos :: r.pos[k].x + 1.0 <= r.next)
  {
    if i < |t.children| {
      var c := Scan(rule, t.children[i], path + [i], left, depth);
      ScanCounter(rule, t.children[i], path + [i], left, depth);
      ScanChildrenCounter(rule, t, path, i + 1, c.next, depth);
      ScanChildrenCounterStep(rule, t, path, i, left, depth);
    }
  }

  lemma ScanChildrenCounterStep(rule: CounterRule, t: Tree, path: Path, i: nat, left: real, depth: nat)
    requires i < |t.children|
    requires var c := Scan(rule, t.children[i], path + [i], left, depth);
      var rest := ScanChildren(rule, t, path, i + 1, c.next, depth);
      && c.next <= left + LeafCount(t.children[i]) as real
      && rest.next <= c.next + LeafCountFrom(t, i + 1) as real
      && (rule == AfterSubtree ==>
            && c.next == left + LeafCount(t.children[i]) as real
            && (forall k | k in c.pos :: c.pos[k].x + 1.0 <= c.next)
            && rest.next == c.next + LeafCountFrom(t, i + 1) as real
            && (forall k | k in rest.pos :: rest.pos[k].x + 1.0 <= rest.next))
    ensures var r := ScanChildren(rule, t, path, i, left, depth);
      && r.next <= left + LeafCountFrom(t, i) as real
      && (rule == AfterSubtree ==>
            r.next == left + LeafCountFrom(t, i) as real
            && forall k | k in r.pos :: r.pos[k].x + 1.0 <= r.next)
  {
    var r := ScanChildren(rule, t, path, i, left, depth);
    var c := Scan(rule, t.children[i], path + [i], left, depth);
    var rest := ScanChildren(rule, t, path, i + 1, c.next, depth);
    ScanStep(rule, t, path, i, left, depth);
  }

  /** Two distinct nodes on the same level are at least one column apart. */
  ghost predicate Separated(m: map<Path, GridPos>)
  {
    forall k1, k2 | k1 in m && k2 in m && k1 != k2 && m[k1].y == m[k2].y ::
      m[k1].x + 1.0 <= m[k2].x || m[k2].x + 1.0 <= m[k1].x
  }

  lemma SeparatedParent(pos: map<Path, GridPos>, cs: map<Path, GridPos>, path: Path, p: GridPos)
    requires pos == cs[path := p]
    requires path !in cs
    requires forall k | k in cs :: p.y < cs[k].y
    requires Separated(cs)
    ensures Separated(pos)
  {
  }

  lemma SeparatedJoin(c: map<Path, GridPos>, rest: map<Path, GridPos>, next: real)
    requires forall k | k in c :: k !in rest
    requires Separated(c) && Separated(rest)
    requires forall k | k in c :: c[k].x + 1.0 <= next
    requires forall k | k in rest :: next <= rest[k].x
    ensures Separated(c + rest)
  {
    var m := c + rest;
    assert forall k | k in c :: m[k] == c[k];
  }

  /** With the threaded counter, no two nodes of a level share a column:
      the nodes of one level are at least one column apart. */
  lemma {:induction false} AfterSubtreeSeparates(t: Tree, path: Path, left: real, depth: nat)
    decreases t, 1
    ensures Separated(Scan(AfterSubtree, t, path, left, depth).pos)
  {
    if t.children != [] {
      AfterSubtreeChildrenSeparate(t, path, 0, left, depth + 1);
      SeparatesParentStep(t, path, left, depth);
    }
  }

  lemma SeparatesParentStep(t: Tree, path: Path, left: real, depth: nat)
    requires t.children != []
    requires Separated(ScanChildren(AfterSubtree, t, path, 0, left, depth + 1).pos)
    ensures Separated(Scan(AfterSubtree, t, path, left, depth).pos)
  {
    var r := Scan(AfterSubtree, t, path, left, depth);
    var cs := ScanChildren(AfterSubtree, t, path, 0, left, depth + 1);
    ScanInner(AfterSubtree, t, path, left, depth);
    ScanChildrenLevels(AfterSubtree, t, path, 0, left, depth + 1);
    SeparatedParent(r.pos, cs.pos, path, GridPos(r.pos[path].x, depth));
  }

  lemma {:induction false} AfterSubtreeChildrenSeparate(t: Tree, path: Path, i: nat, left: real, depth: nat)
    requires i <= |t.children|
    decreases t, 0, |t.children| - i
    ensures Separated(ScanChildren(AfterSubtree, t, path, i, left, depth).pos)
  {
    if i < |t.children| {
      var c := Scan(AfterSubtree, t.children[i], path + [i], left, depth);
      AfterSubtreeSeparates(t.children[i], path + [i], left, depth);
      AfterSubtreeChildrenSeparate(t, path, i + 1, c.next, depth);
      ScanCounter(AfterSubtree, t.children[i], path + [i], left, depth);
      SeparatesChildrenStep(t, path, i, left, depth);
    } else {
      assert ScanChildren(AfterSubtree, t, path, i, left, depth).pos == map[];
    }
  }

  lemma SeparatesChildrenStep(t: Tree, path: Path, i: nat, left: real, depth: nat)
    requires i < |t.children|
    requires var c := Scan(AfterSubtree, t.children[i], path + [i], left, depth);
      && Separated(c.pos)
      && Separated(ScanChildren(AfterSubtree, t, path, i + 1, c.next, depth).pos)
      && forall k | k in c.pos :: c.pos[k].x + 1.0 <= c.next
    ensures Separated(ScanChildren(AfterSubtree, t, path, i, left, depth).pos)
  {
    var c := Scan(AfterSubtree, t.children[i], path + [i], left, depth);
    var rest := ScanChildren(AfterSubtree, t, path, i + 1, c.next, depth);
    ScanStep(AfterSubtree, t, path, i, left, depth);
    SeparatedJoin(c.pos, rest.pos, c.next);
  }

  /** A run of leaf children from `i` on takes consecutive columns. */
  lemma {:induction false} LeafRun(rule: CounterRule, t: Tree, path: Path, i: nat, left: real, depth: nat)
    requires i <= |t.children|
    requires forall j | i <= j < |t.children| :: t.children[j] == Node([])
    decreases |t.children| - i
    ensures var r := ScanChildren(rule, t, path, i, left, depth);
      && r.next == left + (|t.children| - i) as real
      && forall j | i <= j < |t.children| ::
           path + [j] in r.pos && r.pos[path + [j]] == GridPos(left + (j - i) as real, depth)
  {
    if i < |t.children| {
      var r := ScanChildren(rule, t, path, i, left, depth);
      var c := Scan(rule, t.children[i], path + [i], left, depth);
      assert c == Scanned(map[path + [i] := GridPos(left, depth)], left + 1.0, 1);
      var rest := ScanChildren(rule, t, path, i + 1, left + 1.0, depth);
      ScanStep(rule, t, path, i, left, depth);
      LeafRun(rule, t, path, i + 1, left + 1.0, depth);
      forall j | i <= j < |t.children|
        ensures path + [j] in r.pos && r.pos[path + [j]] == GridPos(left + (j - i) as real, depth)
      {
        if j > i {
          assert rest.pos[path + [j]] == GridPos(left + 1.0 + (j - (i + 1)) as real, depth);
        }
      }
    }
  }

  /** A node with a single child hands that child's scan up unchanged. */
  lemma OnlyChild(rule: CounterRule, t: Tree, path: Path, left: real, depth: nat)
    requires |t.children| == 1
    ensures var cs := ScanChildren(rule, t, path, 0, left, depth);
      var c := Scan(rule, t.children[0], path + [0], left, depth);
      cs.pos == c.pos && cs.next == c.next
  {
    var c := Scan(rule, t.children[0], path + [0], left, depth);
    ScanStep(rule, t, path, 0, left, depth);
    var rest := ScanChildren(rule, t, path, 1, c.next, depth);
    assert rest.pos == map[] && rest.next == c.next;
  }

  /** A node with exactly three leaf children. */
  ghost predicate ThreeLeaves(m: Tree)
  {
    |m.children| == 3 && forall j | 0 <= j < 3 :: m.children[j] == Node([])
  }

  /** The tree on which the counter rule as written puts two nodes in one
      cell: the root has two children; the first has a single child with
      three leaves, the second a single child with one leaf. */
  ghost predicate OverlapShape(t: Tree)
  {
    && |t.children| == 2
    && |t.children[0].children| == 1 && ThreeLeaves(t.children[0].children[0])
    && |t.children[1].children| == 1 && |t.children[1].children[0].children| == 1
    && t.children[1].children[0].children[0] == Node([])
  }

  lemma ThreeLeavesAsWritten(m: Tree, path: Path, left: real, depth: nat)
    requires ThreeLeaves(m)
    ensures var r := Scan(AfterLastChild, m, path, left, depth);
      && r.next == left + 3.0 && r.pos[path].x == left + 1.0
      && path + [2] in r.pos && r.pos[path + [2]] == GridPos(left + 2.0, depth + 1)
  {
    LeafRun(AfterLastChild, m, path, 0, left, depth + 1);
    ScanInner(AfterLastChild, m, path, left, depth);
    ScanKeepsChildren(AfterLastChild, m, path, left, depth);
  }

  /** The root's first child returns a counter one column left of its own
      rightmost grandchild. */
  lemma FirstBranchAsWritten(n: Tree, path: Path, left: real, depth: nat)
    requires |n.children| == 1 && ThreeLeaves(n.children[0])
    ensures var r := Scan(AfterLastChild, n, path, left, depth);
      && r.next == left + 2.0
      && path + [0, 2] in r.pos && r.pos[path + [0, 2]] == GridPos(left + 2.0, depth + 2)
  {
    ThreeLeavesAsWritten(n.children[0], path + [0], left, depth + 1);
    assert path + [0] + [2] == path + [0, 2];
    OnlyChild(AfterLastChild, n, path, left, depth + 1);
    ScanInner(AfterLastChild, n, path, left, depth);
    ScanKeepsChildren(AfterLastChild, n, path, left, depth);
  }

  lemma SecondBranchAsWritten(s: Tree, path: Path, left: real, depth: nat)
    requires |s.children| == 1 && |s.children[0].children| == 1
    requires s.children[0].children[0] == Node([])
    ensures var r := Scan(AfterLastChild, s, path, left, depth);
      path + [0, 0] in r.pos && r.pos[path + [0, 0]] == GridPos(left, depth + 2)
  {
    assert path + [0] + [0] == path + [0, 0];
    OnlyChild(AfterLastChild, s.children[0], path + [0], left, depth + 2);
    ScanKeepsChildren(AfterLastChild, s.children[0], path + [0], left, depth + 1);
    OnlyChild(AfterLastChild, s, path, left, depth + 1);
    ScanKeepsChildren(AfterLastChild, s, path, left, depth);
  }

  /** One entry of child `i`'s scan, as it appears among the children's. */
  lemma StepKeepsChild(rule: CounterRule, t: Tree, path: Path, i: nat, left: real, depth: nat, k: Path)
    requires i < |t.children|
    requires k in Scan(rule, t.children[i], path + [i], left, depth).pos
    ensures var r := ScanChildren(rule, t, path, i, left, depth);
      k in r.pos && r.pos[k] == Scan(rule, t.children[i], path + [i], left, depth).pos[k]
  {
    ScanStep(rule, t, path, i, left, depth);
  }

  /** One entry of the later siblings' scan, as it appears among the children's. */
  lemma StepKeepsRest(rule: CounterRule, t: Tree, path: Path, i: nat, left: real, depth: nat, next: real, k: Path)
    requires i < |t.children|
    requires Scan(rule, t.children[i], path + [i], left, depth).next == next
    requires k in ScanChildren(rule, t, path, i + 1, next, depth).pos
    ensures var r := ScanChildren(rule, t, path, i, left, depth);
      k in r.pos && r.pos[k] == ScanChildren(rule, t, path, i + 1, next, depth).pos[k]
  {
    ScanStep(rule, t, path, i, left, depth);
  }

  /** For a node with two children, an entry of each child's scan survives
      in the children's scan; the second child starts at the first one's
      counter. */
  lemma TwoChildren(rule: CounterRule, t: Tree, path: Path, left: real, depth: nat, next: real,
                    k0: Path, p0: GridPos, k1: Path, p1: GridPos)
    requires |t.children| == 2
    requires var c0 := Scan(rule, t.children[0], path + [0], left, depth);
      c0.next == next && k0 in c0.pos && c0.pos[k0] == p0
    requires var c1 := Scan(rule, t.children[1], path + [1], next, depth);
      k1 in c1.pos && c1.pos[k1] == p1
    ensures var cs := ScanChildren(rule, t, path, 0, left, depth);
      k0 in cs.pos && cs.pos[k0] == p0 && k1 in cs.pos && cs.pos[k1] == p1
  {
    StepKeepsChild(rule, t, path, 0, left, depth, k0);
    StepKeepsChild(rule, t, path, 1, next, depth, k1);
    StepKeepsRest(rule, t, path, 0, left, depth, next, k1);
  }

  lemma RootChildrenAsWritten(t: Tree, path: Path, left: real, depth: nat)
    requires OverlapShape(t)
    ensures var cs := ScanChildren(AfterLastChild, t, path, 0, left, depth);
      && path + [0] + [0, 2] in cs.pos && cs.pos[path + [0] + [0, 2]] == GridPos(left + 2.0, depth + 2)
      && path + [1] + [0, 0] in cs.pos && cs.pos[path + [1] + [0, 0]] == GridPos(left + 2.0, depth + 2)
  {
    var p := GridPos(left + 2.0, depth + 2);
    FirstBranchAsWritten(t.children[0], path + [0], left, depth);
    SecondBranchAsWritten(t.children[1], path + [1], left + 2.0, depth);
    TwoChildren(AfterLastChild, t, path, left, depth, left + 2.0, path + [0] + [0, 2], p, path + [1] + [0, 0], p);
  }

  /** With the rule as written, the first child of the root hands back a
      counter one column left of its third grandchild, so the leaf under the
      second child is placed in that same column: both land on one grid
      position, wherever the scan of the example starts. */
  lemma AsWrittenOverlaps(t: Tree, path: Path, left: real, depth: nat)
    requires OverlapShape(t)
    ensures var r := Scan(AfterLastChild, t, path, left, depth);
      && path + [0, 0, 2] in r.pos && path + [1, 0, 0] in r.pos
      && r.pos[path + [0, 0, 2]] == GridPos(left + 2.0, depth + 3)
      && r.pos[path + [1, 0, 0]] == GridPos(left + 2.0, depth + 3)
      && !Separated(r.pos)
  {
    RootChildrenAsWritten(t, path, left, depth + 1);
    assert path + [0] + [0, 2] == path + [0, 0, 2];
    assert path + [1] + [0, 0] == path + [1, 0, 0];
    ScanKeepsChildren(AfterLastChild, t, path, left, depth);
    var r := Scan(AfterLastChild, t, path, left, depth);
    assert (path + [0, 0, 2])[|path|] != (path + [1, 0, 0])[|path|];
    SharedCell(r.pos, path + [0, 0, 2], path + [1, 0, 0]);
  }

  lemma SharedCell(m: map<Path, GridPos>, k1: Path, k2: Path)
    requires k1 in m && k2 in m && k1 != k2 && m[k1] == m[k2]
    ensures !Separated(m)
  {
  }
}
