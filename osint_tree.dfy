// The collapsible tree of the OSINT chart: start-up, collapse, toggle and
// the render pass (layout, keyed joins of nodes and links, position
// snapshot), over nodes that are updated in place.

module OsintGraph {
  import opened Hierarchy
  import opened KeyedJoin

  // Drawing area: an 1280 x 800 canvas less its margins.
  const MarginTop := 20
  const MarginRight := 120
  const MarginBottom := 20
  const MarginLeft := 140
  const Width := 1280 - MarginLeft - MarginRight
  const Height := 800 - MarginTop - MarginBottom
  /** Distance between two depth levels on the main axis. */
  const LevelSpacing := 180

  /** A position: `x` across the levels, `y` along them. */
  datatype Point = Point(x: real, y: int)

  /** The keyed elements in the drawing: node groups keyed by their node's
      id, link paths keyed by their target node's id. */
  datatype Screen = Screen(nodes: set<nat>, links: set<nat>)

  /** What one render pass hands to the drawing surface: the visible nodes
      in the order they are bound, the node and link joins, where entering
      elements start and where exiting ones go, and the keyed elements the
      drawing holds once the exiting ones are gone. */
  datatype Frame = Frame(nodes: seq<Node>, nodeJoin: Join, linkJoin: Join, enterFrom: Point, exitTo: Point,
                         screen: Screen)

  /** Depth never decreases along `s`. */
  ghost predicate Layered(s: seq<Node>)
  {
    forall j, k :: 0 <= j < k < |s| ==> s[j].depth <= s[k].depth
  }

  /** Every node of a non-empty `s` lies at most one level below its first. */
  ghost predicate Near(s: seq<Node>)
    requires s != []
  {
    forall m :: m in s ==> m.depth <= s[0].depth + 1
  }

  /** One breadth-first step: the head of the queue moves to the output and
      its children, one level deeper and not yet queued, join the queue. */
  lemma AppendLayer(nodes: seq<Node>, queue: seq<Node>, cs: seq<Node>)
    requires queue != [] && Near(queue)
    requires Distinct(nodes + queue) && Layered(nodes + queue)
    requires Distinct(cs) && forall c :: c in cs ==> c !in nodes + queue
    requires forall c :: c in cs ==> c.depth == queue[0].depth + 1
    ensures Distinct(nodes + [queue[0]] + (queue[1..] + cs))
    ensures Layered(nodes + [queue[0]] + (queue[1..] + cs))
    ensures queue[1..] + cs != [] ==> Near(queue[1..] + cs)
  {
    var all := nodes + queue;
    assert nodes + [queue[0]] + (queue[1..] + cs) == all + cs;
    var q := queue[0];
    assert all[|nodes|] == q;
    forall j, k | 0 <= j < k < |all + cs|
      ensures (all + cs)[j].depth <= (all + cs)[k].depth
    {
      if k >= |all| && j < |all| {
        if j < |nodes| {
          assert all[j].depth <= q.depth;
        } else {
          assert all[j] in queue;
        }
      }
    }
    forall j, k | 0 <= j < k < |all + cs|
      ensures (all + cs)[j] != (all + cs)[k]
    {
      if k >= |all| && j < |all| {
        assert (all + cs)[k] in cs;
      }
    }
    var rest := queue[1..] + cs;
    if rest != [] {
      forall m | m in rest
        ensures m.depth <= rest[0].depth + 1
      {
        if queue[1..] != [] {
          assert queue[1..][0] == all[|nodes| + 1];
          assert q.depth <= rest[0].depth;
        }
      }
    }
  }

  /** The keys of a set of nodes. */
  ghost function Ids(s: set<Node>): set<nat>
    reads s`id
  {
    set n | n in s :: n.id
  }

  /** The expanded children of the nodes of `s`, list after list, each
      list in its own order. */
  ghost function Kids(s: seq<Node>): seq<Node>
    reads s`children
  {
    if s == [] then [] else Kids(s[..|s| - 1]) + s[|s| - 1].children
  }

  /** Output and queue of a breadth-first walk hold no node twice and are
      layered, and the queue spans at most two levels. */
  ghost predicate Spread(nodes: seq<Node>, queue: seq<Node>)
  {
    Distinct(nodes + queue) && Layered(nodes + queue) && (queue != [] ==> Near(queue))
  }

  /** Part way through a level: `nodes` are the nodes `above` and the
      first `p` nodes of `level`, and `queue` the rest of `level` followed
      by the expanded children of those `p` nodes. */
  ghost predicate Within(nodes: seq<Node>, queue: seq<Node>, above: seq<Node>, level: seq<Node>, p: nat)
    reads level`children
  {
    p <= |level| && nodes == above + level[..p] && queue == level[p..] + Kids(level[..p])
  }

  /** Taking the head of the queue within a level outputs the next node of
      the level and queues its expanded children after the others. */
  lemma {:induction false} WithinStep(nodes: seq<Node>, queue: seq<Node>, above: seq<Node>, level: seq<Node>, p: nat)
    requires Within(nodes, queue, above, level, p) && p < |level|
    ensures queue != [] && queue[0] == level[p]
    ensures Within(nodes + [queue[0]], queue[1..] + queue[0].children, above, level, p + 1)
  {
    assert level[p..] == [level[p]] + level[p + 1..];
    assert level[..p + 1] == level[..p] + [level[p]];
    assert level[..p + 1][..p] == level[..p];
  }

  class OsintTree {
    var root: Node
    var i: nat                    // the last id handed out
    ghost var Nodes: set<Node>
    ghost var height: nat

    /** The hierarchy: depths grow by one from parent to child, the child
        lists of every node point back to it, and `height` bounds depth. */
    ghost predicate Structure()
      reads this`root, this`Nodes, this`height, Nodes`children, Nodes`hidden
    {
      root in Nodes && root.parent == null && root.depth == 0 &&
      (forall n :: n in Nodes ==> n.depth <= height) &&
      (forall n {:trigger n.parent} :: n in Nodes && n != root ==>
         n.parent != null && n.parent in Nodes && n.depth == n.parent.depth + 1) &&
      (forall n :: n in Nodes ==> Linked(n, Nodes))
    }

    /** Ids handed out so far are distinct and none exceeds the counter. */
    ghost predicate IdsFresh()
      reads this`i, this`Nodes, Nodes`id
    {
      (forall n :: n in Nodes ==> n.id <= i) &&
      (forall m, n :: m in Nodes && n in Nodes && m != n && m.id != 0 ==> m.id != n.id)
    }

    /** A node is expanded, collapsed or a leaf: never both lists at once. */
    ghost predicate Valid()
      reads this`root, this`Nodes, this`height, this`i, Nodes`children, Nodes`hidden, Nodes`id
    {
      Structure() && IdsFresh() && (forall n :: n in Nodes ==> OneList(n))
    }

    /** The nodes on screen: those reached from the root through expanded
        child lists. */
    ghost function Visible(): set<Node>
      requires Structure()
      reads this`root, this`Nodes, this`height, Nodes`children, Nodes`hidden
    {
      set n | n in Nodes && (PathInNodes(root, n); Shown(root, n))
    }

    /** The elements of `s` are exactly the visible nodes, each keyed by
        its id, with one link per visible node other than the root. */
    ghost predicate Synced(s: Screen)
      requires Structure()
      reads this`root, this`Nodes, this`height, Nodes`children, Nodes`hidden, Nodes`id
    {
      (forall n :: n in Visible() ==> n.id != 0) &&
      s.nodes == Ids(Visible()) && s.links == s.nodes - {root.id}
    }

    /** The node list of a pass as drawn: the root first, no node twice,
        depth never decreasing, and the `k`-th node at the tidy-tree
        position `layout(nodes, k)` and at `depth * 180`, with that position
        saved for the next pass. */
    ghost predicate Drawn(nodes: seq<Node>, layout: (seq<Node>, nat) -> real)
      reads this`root, nodes
    {
      |nodes| > 0 && nodes[0] == root && Distinct(nodes) && Layered(nodes) &&
      (forall k :: 0 <= k < |nodes| ==> nodes[k].x == layout(nodes, k)) &&
      (forall k :: 0 <= k < |nodes| ==> nodes[k].y == nodes[k].depth * LevelSpacing) &&
      (forall k :: 0 <= k < |nodes| ==> nodes[k].x0 == nodes[k].x && nodes[k].y0 == nodes[k].y)
    }

    /** The tree layout and `d.y = d.depth * 180`: the `k`-th visible node
        gets the cross-axis position `layout(nodes, k)` that the tidy-tree
        algorithm of size `Height` x `Width` computes for the visible list,
        and its level's position on the main axis. */
    method Layout(nodes: seq<Node>, layout: (seq<Node>, nat) -> real)
      requires Distinct(nodes) && forall n :: n in nodes ==> n in Nodes
      modifies Nodes
      ensures forall k :: 0 <= k < |nodes| ==>
                nodes[k].x == layout(nodes, k) && nodes[k].y == nodes[k].depth * LevelSpacing
      ensures forall n {:trigger n.children} {:trigger n.hidden} {:trigger n.id} {:trigger n.x0} {:trigger n.y0} ::
                n in Nodes ==>
                n.children == old(n.children) && n.hidden == old(n.hidden) &&
                n.id == old(n.id) && n.x0 == old(n.x0) && n.y0 == old(n.y0)
      ensures forall n {:trigger n.x} {:trigger n.y} :: n in Nodes && n !in nodes ==> n.x == old(n.x) && n.y == old(n.y)
    {
      for k := 0 to |nodes|
        invariant forall j :: 0 <= j < k ==>
                    nodes[j].x == layout(nodes, j) && nodes[j].y == nodes[j].depth * LevelSpacing
        invariant forall n {:trigger n.children} {:trigger n.hidden} {:trigger n.id} {:trigger n.x0} {:trigger n.y0} ::
                    n in Nodes ==>
                    n.children == old(n.children) && n.hidden == old(n.hidden) &&
                    n.id == old(n.id) && n.x0 == old(n.x0) && n.y0 == old(n.y0)
        invariant forall n {:trigger n.x} {:trigger n.y} :: n in Nodes && n !in nodes ==> n.x == old(n.x) && n.y == old(n.y)
      {
        nodes[k].x := layout(nodes, k);
        nodes[k].y := nodes[k].depth * LevelSpacing;
      }
    }

    /** `d.x0 = d.x; d.y0 = d.y` for every drawn node: the positions the
        next pass animates from. */
    method SavePositions(nodes: seq<Node>)
      requires forall n :: n in nodes ==> n in Nodes
      modifies Nodes
      ensures forall n :: n in nodes ==> n.x0 == n.x && n.y0 == n.y
      ensures forall n {:trigger n.children} {:trigger n.hidden} {:trigger n.id} {:trigger n.x} {:trigger n.y} ::
                n in Nodes ==>
                n.children == old(n.children) && n.hidden == old(n.hidden) &&
                n.id == old(n.id) && n.x == old(n.x) && n.y == old(n.y)
      ensures forall n {:trigger n.x0} {:trigger n.y0} :: n in Nodes && n !in nodes ==> n.x0 == old(n.x0) && n.y0 == old(n.y0)
    {
      for k := 0 to |nodes|
        invariant forall j :: 0 <= j < k ==> nodes[j].x0 == nodes[j].x && nodes[j].y0 == nodes[j].y
        invariant forall n {:trigger n.children} {:trigger n.hidden} {:trigger n.id} {:trigger n.x} {:trigger n.y} ::
                    n in Nodes ==>
                    n.children == old(n.children) && n.hidden == old(n.hidden) &&
                    n.id == old(n.id) && n.x == old(n.x) && n.y == old(n.y)
        invariant forall n {:trigger n.x0} {:trigger n.y0} :: n in Nodes && n !in nodes ==> n.x0 == old(n.x0) && n.y0 == old(n.y0)
      {
        nodes[k].x0 := nodes[k].x;
        nodes[k].y0 := nodes[k].y;
      }
    }

    /** The key function `d.id || (d.id = ++i)`, applied to the visible
        nodes in order: a node without an id gets the next number. */
    method AssignIds(nodes: seq<Node>) returns (keys: seq<nat>)
      requires IdsFresh() && Distinct(nodes)
      requires forall n :: n in nodes ==> n in Nodes
      modifies this`i, Nodes
      ensures IdsFresh() && i >= old(i)
      ensures |keys| == |nodes| && forall k :: 0 <= k < |nodes| ==> keys[k] == nodes[k].id != 0
      ensures Distinct(keys)
      ensures forall n {:trigger n.id} :: n in Nodes ==>
                n.id == old(n.id) || (old(n.id) == 0 && n in nodes && old(i) < n.id <= i)
      ensures forall n {:trigger n.children} {:trigger n.hidden} {:trigger n.x} {:trigger n.y} {:trigger n.x0} {:trigger n.y0} ::
                n in Nodes ==>
                n.children == old(n.children) && n.hidden == old(n.hidden) &&
                n.x == old(n.x) && n.y == old(n.y) && n.x0 == old(n.x0) && n.y0 == old(n.y0)
    {
      keys := [];
      for k := 0 to |nodes|
        invariant IdsFresh() && i >= old(i)
        invariant |keys| == k && forall j :: 0 <= j < k ==> keys[j] == nodes[j].id != 0
        invariant forall n {:trigger n.id} :: n in Nodes ==>
                    n.id == old(n.id) || (old(n.id) == 0 && n in nodes[..k] && old(i) < n.id <= i)
        invariant forall n {:trigger n.children} {:trigger n.hidden} {:trigger n.x} {:trigger n.y} {:trigger n.x0} {:trigger n.y0} ::
                    n in Nodes ==>
                    n.children == old(n.children) && n.hidden == old(n.hidden) &&
                    n.x == old(n.x) && n.y == old(n.y) && n.x0 == old(n.x0) && n.y0 == old(n.y0)
      {
        var d := nodes[k];
        if d.id == 0 {
          i := i + 1;
          d.id := i;
        }
        keys := keys + [d.id];
      }
      forall j, k | 0 <= j < k < |keys|
        ensures keys[j] != keys[k]
      {
        assert nodes[j] != nodes[k];
      }
    }

    lemma {:induction false} PathInNodes(a: Node, n: Node)
      requires Structure() && n in Nodes
      ensures Path(a, n) <= Nodes
      decreases n.depth
    {
      if n != root && n != a && n.depth > a.depth {
        PathInNodes(a, n.parent);
      }
    }

    /** Below `d`, the visible nodes other than `d` are those visible below
        one of its expanded children. */
    lemma {:induction false} ShownBelowChildren(d: Node)
      requires Structure() && d in Nodes
      ensures forall n :: n in Nodes && Shown(d, n) && n != d ==>
                exists j :: 0 <= j < |d.children| && Shown(d.children[j], n)
      ensures forall n, j :: n in Nodes && 0 <= j < |d.children| && Shown(d.children[j], n) ==>
                Shown(d, n) && n != d
    {
      forall n | n in Nodes && Shown(d, n) && n != d
        ensures exists j :: 0 <= j < |d.children| && Shown(d.children[j], n)
      {
        ShownSplit(d, n);
      }
      forall n, j | n in Nodes && 0 <= j < |d.children| && Shown(d.children[j], n)
        ensures Shown(d, n) && n != d
      {
        assert Linked(d, Nodes);
        ShownJoin(d, d.children[j], n);
        ShownUnder(d.children[j], n);
        UnderDepth(d.children[j], n);
      }
    }

    /** Every node below the root lies below some child of the root, when
        each node sits in its parent's expanded list; by `TopsApart` that
        child is unique. */
    lemma TopsCover()
      requires Structure()
      requires forall n :: n in Nodes && n != root ==> n in n.parent.children && Under(root, n)
      ensures forall n :: n in Nodes && n != root ==>
                exists j :: 0 <= j < |root.children| && Shown(root.children[j], n)
      ensures forall j :: 0 <= j < |root.children| ==> !Shown(root.children[j], root)
    {
      forall n | n in Nodes && n != root
        ensures exists j :: 0 <= j < |root.children| && Shown(root.children[j], n)
      {
        ShownLinked(root, Nodes, n);
        ShownSplit(root, n);
      }
      forall j | 0 <= j < |root.children|
        ensures !Shown(root.children[j], root)
      {
        assert Linked(root, Nodes);
      }
    }

    /** No node lies below two children of the root: the subtrees that
        `forEach(collapse)` folds one after the other are disjoint. */
    lemma TopsApart()
      requires Structure()
      ensures forall n, j, k ::
                n in Nodes && 0 <= j < |root.children| && 0 <= k < |root.children| &&
                Shown(root.children[j], n) && Shown(root.children[k], n)
                ==> j == k
    {
      assert Linked(root, Nodes);
      forall n, j, k | n in Nodes && 0 <= j < |root.children| && 0 <= k < |root.children| &&
                       Shown(root.children[j], n) && Shown(root.children[k], n)
        ensures j == k
      {
        ShownUnder(root.children[j], n);
        ShownUnder(root.children[k], n);
        UnderUnique(root.children[j], root.children[k], n);
      }
    }

    /** Once every node but the root is collapsed, the visible nodes are the
        root and its direct children. */
    lemma TopsVisible()
      requires Structure()
      requires forall n :: n in Nodes && n != root ==> n.children == []
      requires forall n :: n in Nodes && n.parent == root ==> n in root.children
      ensures forall n :: n in Nodes ==> (Shown(root, n) <==> n == root || n.parent == root)
    {
      forall n | n in Nodes && Shown(root, n) && n != root
        ensures n.parent == root
      {
        assert n in n.parent.children;
      }
    }

    /** When exactly the root and its direct children are visible, a list
        of the visible nodes without repeats has one entry for the root and
        one per child. */
    lemma TopsCount(s: seq<Node>)
      requires Structure() && Distinct(s)
      requires forall n :: n in s <==> n in Visible()
      requires forall n :: n in Nodes ==> (n in Visible() <==> n == root || n.parent == root)
      ensures |s| == |root.children| + 1
    {
      assert Linked(root, Nodes);
      DistinctCount(s);
      DistinctCount(root.children);
      forall n | n in KeySet(s)
        ensures n in {root} + KeySet(root.children)
      {
        if n != root {
          PathInNodes(root, n);
          assert Shown(root, n);
        }
      }
      assert KeySet(s) == {root} + KeySet(root.children);
      assert root !in KeySet(root.children);
    }

    /** Start-up: `d3.hierarchy(data)` builds one node per record with
        every child list expanded, the root is placed at the middle of the
        left edge, and every child of the root is collapsed. So only the
        root and its direct children are visible, the root shows the
        top-level records, and every other node holds its own child records
        in `_children`. */
    constructor (data: Datum)
      ensures Valid()
      ensures root.data == data && Records(root.children, data)
      ensures root.x0 == Height as real / 2.0 && root.y0 == 0
      ensures i == 0 && fresh(Nodes)
      ensures forall n :: n in Nodes ==> n.id == 0 && Under(root, n)
      ensures forall n :: n in Nodes && n != root ==> n.children == [] && Records(n.hidden, n.data)
      ensures forall n :: n in Nodes ==> (Shown(root, n) <==> n == root || n.parent == root)
    {
      i := 0;
      var r, sub, h := Build(data, null);
      r.x0, r.y0 := Height as real / 2.0, 0;
      root, Nodes, height := r, sub, h;
      new;
      Planted();
      label built:
      CollapseTops();
      forall n | n in Nodes && n != root
        ensures Records(n.hidden, n.data)
      {
        assert n.hidden == old@built(n.children) && Records(old@built(n.children), n.data);
      }
    }

    /** What `Build` hands back, read as the tree's invariant. */
    lemma Planted()
      requires root in Nodes && root.parent == null && root.depth == 0 && JustBuilt(Nodes)
      requires forall m :: m in Nodes ==> Records(m.children, m.data)
      requires forall m :: m in Nodes ==> Under(root, m) && m.depth <= root.depth + height
      requires forall m :: m in Nodes && m != root ==>
                 m.parent != null && m.parent in Nodes && m in m.parent.children && m.depth == m.parent.depth + 1
      ensures Structure()
      ensures forall n :: n in Nodes ==> n.hidden == [] && n.id == 0 && Under(root, n) && Records(n.children, n.data)
      ensures forall n :: n in Nodes && n != root ==> n in n.parent.children
    {
    }

    /** `root.children?.forEach(collapse)`: every child of the root is
        collapsed together with all it shows, the root stays expanded. */
    method CollapseTops()
      requires Structure()
      requires forall n :: n in Nodes ==> n.hidden == [] && Under(root, n)
      requires forall n :: n in Nodes && n != root ==> n in n.parent.children
      modifies Nodes`children, Nodes`hidden
      ensures Structure()
      ensures root.children == old(root.children) && root.hidden == []
      ensures forall n :: n in Nodes ==> OneList(n)
      ensures forall n :: n in Nodes && n != root ==> n.children == [] && n.hidden == old(n.children)
      ensures forall n :: n in Nodes ==> (Shown(root, n) <==> n == root || n.parent == root)
    {
      var cs := root.children;
      TopsCover();
      assert forall n :: n in Nodes && n.parent == root ==> n in cs;
      CollapseEach(root, cs);
      assert root.children == cs;
      forall n | n in Nodes && n != root
        ensures n.children == [] && n.hidden == old(n.children)
      {
        var j :| 0 <= j < |cs| && old(Shown(cs[j], n));
      }
      TopsVisible();
    }

    /** `collapse(d)`: moves the expanded child list of `d` and of every
        node visible below it into `_children`. A node that was already
        collapsed keeps its hidden list, and nothing below it is touched. */
    method Collapse(d: Node)
      requires Structure() && d in Nodes
      modifies Nodes`children, Nodes`hidden
      ensures Structure()
      ensures forall n :: n in Nodes && old(Shown(d, n)) ==>
                n.children == [] && n.hidden == Folded(old(n.children), old(n.hidden))
      ensures forall n :: n in Nodes && !old(Shown(d, n)) ==>
                n.children == old(n.children) && n.hidden == old(n.hidden)
      decreases height - d.depth, 1
    {
      var cs := d.children;
      ShownBelowChildren(d);
      if cs != [] {
        d.hidden := cs;
        ShownKept();
        CollapseEach(d, cs);
        assert d.children == cs && d.hidden == cs by {
          assert forall j :: 0 <= j < |cs| ==> !old(Shown(cs[j], d));
        }
        d.children := [];
        assert Linked(d, Nodes);
        forall n | n in Nodes && old(Shown(d, n)) && n != d
          ensures n.children == [] && n.hidden == Folded(old(n.children), old(n.hidden))
        {
          var j :| 0 <= j < |cs| && old(Shown(cs[j], n));
        }
      } else {
        forall n | n in Nodes && Shown(d, n)
          ensures n == d
        {
        }
      }
    }

    /** `forEach(collapse)` over the child list `cs` of `p`. */
    method CollapseEach(p: Node, cs: seq<Node>)
      requires Structure() && p in Nodes
      requires forall j :: 0 <= j < |cs| ==> cs[j] in Nodes && cs[j].parent == p
      requires Distinct(cs)
      modifies Nodes`children, Nodes`hidden
      ensures Structure()
      ensures forall n, j :: n in Nodes && 0 <= j < |cs| && old(Shown(cs[j], n)) ==>
                n.children == [] && n.hidden == Folded(old(n.children), old(n.hidden))
      ensures forall n :: n in Nodes && (forall j :: 0 <= j < |cs| ==> !old(Shown(cs[j], n))) ==>
                n.children == old(n.children) && n.hidden == old(n.hidden)
      decreases height - p.depth, 0
    {
      ghost var done: set<Node> := {};
      for k := 0 to |cs|
        invariant Structure()
        invariant forall n :: n in done <==> n in Nodes && exists j :: 0 <= j < k && old(Shown(cs[j], n))
        invariant forall n :: n in done ==> exists j :: 0 <= j < k && Under(cs[j], n)
        invariant forall n :: n in done ==>
                    n.children == [] && n.hidden == Folded(old(n.children), old(n.hidden))
        invariant forall n :: n in Nodes && n !in done ==>
                    n.children == old(n.children) && n.hidden == old(n.hidden)
      {
        var c := cs[k];
        forall n | n in Nodes && Under(c, n)
          ensures n !in done
        {
          if n in done {
            var j :| 0 <= j < k && Under(cs[j], n);
            UnderUnique(cs[j], c, n);
          }
        }
        forall n | n in Nodes
          ensures Shown(c, n) == old(Shown(c, n))
          ensures old(Shown(c, n)) ==> Under(c, n)
        {
          OldShownUnder(Span(c, n));
          if Under(c, n) {
            PathInNodes(c, n);
            forall m | m in Path(c, n)
              ensures m.children == old(m.children)
            {
              PathUnder(c, n, m);
            }
            ShownFramed(Span(c, n));
          } else if Shown(c, n) {
            ShownUnder(c, n);
          }
        }
        Collapse(c);
        done := done + set n | n in Nodes && old(Shown(c, n));
      }
    }

    /** The visible side of a breadth-first walk from the root: `nodes`
        were output and `queue` waits, all of them visible; every parent
        was output before its children, and the expanded children of output
        nodes are output or queued. */
    ghost predicate Covered(nodes: seq<Node>, queue: seq<Node>)
      requires Structure()
      reads this`root, this`Nodes, this`height, Nodes`children, Nodes`hidden
    {
      (forall m :: m in nodes + queue ==> m in Nodes && (PathInNodes(root, m); Shown(root, m))) &&
      (forall m :: m in nodes + queue && m != root ==> m.parent in nodes) &&
      (forall m, j :: m in nodes && 0 <= j < |m.children| ==> m.children[j] in nodes + queue)
    }

    /** The head of the queue was not output yet, and its expanded children
        are new to the walk, one level deeper. */
    lemma {:induction false} HeadFresh(nodes: seq<Node>, queue: seq<Node>)
      requires Structure() && Covered(nodes, queue) && Distinct(nodes + queue) && queue != []
      ensures queue[0] in Nodes && queue[0] !in nodes
      ensures Distinct(queue[0].children)
      ensures forall c :: c in queue[0].children ==> c !in nodes + queue && c.depth == queue[0].depth + 1
    {
      var q := queue[0];
      var all := nodes + queue;
      assert all[|nodes|] == q && q in all;
      assert Linked(q, Nodes);
      forall j | 0 <= j < |nodes|
        ensures nodes[j] != q
      {
        assert all[j] == nodes[j];
      }
      forall c | c in q.children
        ensures c !in all
      {
        assert c.parent == q;
      }
    }

    /** Outputting the head of the queue and queueing its expanded
        children keeps the walk covered. */
    lemma {:induction false} CoveredStep(nodes: seq<Node>, queue: seq<Node>)
      requires Structure() && Covered(nodes, queue) && queue != []
      ensures Covered(nodes + [queue[0]], queue[1..] + queue[0].children)
    {
      var q := queue[0];
      assert q in nodes + queue;
      assert Linked(q, Nodes);
      var nodes', queue' := nodes + [q], queue[1..] + q.children;
      assert nodes' + queue' == nodes + queue + q.children;
      forall m | m in q.children
        ensures m in Nodes && Shown(root, m)
      {
        PathInNodes(root, q);
      }
    }

    /** The visible nodes at depth `d`, level by level from the root: the
        expanded children of the level above, taken parent by parent. */
    ghost function Level(d: nat): (r: seq<Node>)
      requires Structure()
      reads this`root, this`Nodes, this`height, Nodes`children, Nodes`hidden
      ensures forall n :: n in r ==> n in Nodes && n.depth == d
    {
      if d == 0 then [root] else (var s := Level(d - 1); KidsBelow(s, d - 1); Kids(s))
    }

    /** The expanded children of nodes at depth `d` are nodes at depth `d + 1`. */
    lemma {:induction false} KidsBelow(s: seq<Node>, d: nat)
      requires Structure() && forall n :: n in s ==> n in Nodes && n.depth == d
      ensures forall n :: n in Kids(s) ==> n in Nodes && n.depth == d + 1
    {
      if s != [] {
        var last := s[|s| - 1];
        KidsBelow(s[..|s| - 1], d);
        assert last in s && Linked(last, Nodes);
        forall n | n in last.children
          ensures n.depth == d + 1
        {
          assert n.parent == last;
        }
      }
    }

    /** The levels above depth `d`, the root's first. */
    ghost function Levels(d: nat): seq<Node>
      requires Structure()
      reads this`root, this`Nodes, this`height, Nodes`children, Nodes`hidden
    {
      if d == 0 then [] else Levels(d - 1) + Level(d - 1)
    }

    /** The visible nodes in breadth-first order: level after level, each
        level in its parents' order and then in child-list order. */
    ghost function BreadthFirst(): seq<Node>
      requires Structure()
      reads this`root, this`Nodes, this`height, Nodes`children, Nodes`hidden
    {
      Levels(height + 1)
    }

    /** Below an empty level every level is empty, so nothing more is added
        to the levels. */
    lemma {:induction false} LevelsEnd(d: nat, e: nat)
      requires Structure() && Level(d) == [] && d <= e
      ensures Level(e) == [] && Levels(e) == Levels(d)
      decreases e - d
    {
      if d < e {
        assert Level(d + 1) == Kids(Level(d));
        LevelsEnd(d + 1, e);
      }
    }

    /** A breadth-first walk in progress: `nodes` are the levels above `d`
        and the first `p` nodes of level `d`; `queue` holds the rest of
        level `d` and then the expanded children of those `p` nodes. */
    ghost predicate InOrder(nodes: seq<Node>, queue: seq<Node>, d: nat, p: nat)
      requires Structure()
      reads this`root, this`Nodes, this`height, Nodes`children, Nodes`hidden
    {
      Level(d) != [] && Within(nodes, queue, Levels(d), Level(d), p)
    }

    /** A level fully output, with children left in the queue, hands the
        walk on to the start of the next level. */
    lemma {:induction false} NextLevel(nodes: seq<Node>, queue: seq<Node>, d: nat)
      requires Structure() && InOrder(nodes, queue, d, |Level(d)|) && queue != []
      ensures InOrder(nodes, queue, d + 1, 0)
    {
      var level := Level(d);
      assert level[..|level|] == level && level[|level|..] == [];
      assert Level(d + 1) == Kids(level) == queue;
      assert Levels(d + 1) == Levels(d) + level;
      assert queue[..0] == [] && queue[0..] == queue;
    }

    /** Outputting the head of the queue and queueing its expanded children
        moves the walk one node on in level order. */
    lemma {:induction false} OrderStep(nodes: seq<Node>, queue: seq<Node>, d: nat, p: nat) returns (d': nat, p': nat)
      requires Structure() && InOrder(nodes, queue, d, p) && queue != []
      ensures InOrder(nodes + [queue[0]], queue[1..] + queue[0].children, d', p')
    {
      d', p' := d, p;
      if p == |Level(d)| {
        NextLevel(nodes, queue, d);
        d', p' := d + 1, 0;
      }
      WithinStep(nodes, queue, Levels(d'), Level(d'), p');
      p' := p' + 1;
    }

    /** A walk whose queue ran empty has output every level. */
    lemma {:induction false} OrderEnd(nodes: seq<Node>, d: nat, p: nat)
      requires Structure() && InOrder(nodes, [], d, p)
      ensures nodes == BreadthFirst()
    {
      assert Level(d)[..p] == Level(d) && Level(d + 1) == [];
      assert Level(d)[0] in Level(d);
      LevelsEnd(d + 1, height + 1);
    }

    /** The walk starts at the root, which stays first in the output. */
    ghost predicate Rooted(nodes: seq<Node>, queue: seq<Node>)
      reads this`root
    {
      (nodes == [] ==> queue == [root]) && (nodes != [] ==> nodes[0] == root)
    }

    /** The state of the breadth-first walk of `descendants()`: `done` is
        the set of output `nodes`, the walk is covered and in level order,
        and output and queue together hold no node twice and are layered. */
    ghost predicate Walk(nodes: seq<Node>, queue: seq<Node>, done: set<Node>, d: nat, p: nat)
      requires Structure()
      reads this`root, this`Nodes, this`height, Nodes`children, Nodes`hidden
    {
      Covered(nodes, queue) && InOrder(nodes, queue, d, p) && Spread(nodes, queue) &&
      Rooted(nodes, queue) && done == KeySet(nodes) && done <= Nodes
    }

    /** The walk starts with the root queued. */
    lemma WalkStart()
      requires Structure()
      ensures Walk([], [root], {}, 0, 0)
    {
      assert Level(0) == [root] && Levels(0) == [];
      assert [root][..0] == [] && [root][0..] == [root];
    }

    /** One step of the walk: the head of the queue, not output before,
        is output, and its expanded children are queued. */
    lemma WalkStep(nodes: seq<Node>, queue: seq<Node>, done: set<Node>, d: nat, p: nat) returns (d': nat, p': nat)
      requires Structure() && Walk(nodes, queue, done, d, p) && queue != []
      ensures queue[0] in Nodes && queue[0] !in done
      ensures Walk(nodes + [queue[0]], queue[1..] + queue[0].children, done + {queue[0]}, d', p')
    {
      HeadFresh(nodes, queue);
      CoveredStep(nodes, queue);
      AppendLayer(nodes, queue, queue[0].children);
      d', p' := OrderStep(nodes, queue, d, p);
    }

    /** A walk whose queue ran empty has output every visible node, in
        breadth-first order. */
    lemma WalkEnd(nodes: seq<Node>, done: set<Node>, d: nat, p: nat)
      requires Structure() && Walk(nodes, [], done, d, p)
      ensures nodes == BreadthFirst()
      ensures |nodes| > 0 && nodes[0] == root
      ensures forall n :: n in nodes <==> n in Visible()
      ensures Distinct(nodes) && Layered(nodes)
    {
      assert nodes + [] == nodes;
      OrderEnd(nodes, d, p);
      forall n | n in Nodes && Shown(root, n)
        ensures n in nodes
      {
        ShownClosed(root, nodes, n);
      }
    }

    /** `root.descendants()`: the visible nodes, each once, in breadth-first
        order, so the root comes first and depth never decreases. */
    method Descendants() returns (nodes: seq<Node>)
      requires Structure()
      ensures nodes == old(BreadthFirst())
      ensures |nodes| > 0 && nodes[0] == root
      ensures forall n :: n in nodes <==> n in Visible()
      ensures Distinct(nodes) && Layered(nodes)
      ensures Visible() == old(Visible()) && Valid() == old(Valid())
    {
      nodes := [];
      var queue := [root];
      ghost var done: set<Node> := {};
      ghost var d, p := 0, 0;
      WalkStart();
      while queue != []
        invariant Walk(nodes, queue, done, d, p)
        decreases Nodes - done
      {
        var q := queue[0];
        d, p := WalkStep(nodes, queue, done, d, p);
        nodes, queue := nodes + [q], queue[1..] + q.children;
        done := done + {q};
      }
      WalkEnd(nodes, done, d, p);
      Unmoved();
      OrderKept();
    }

    /** The tree layout followed by the key function, over the visible
        nodes in order: neither touches a child list, so the hierarchy and
        what is visible stay as they were. */
    method Arrange(nodes: seq<Node>, layout: (seq<Node>, nat) -> real) returns (keys: seq<nat>)
      requires Valid() && |nodes| > 0 && nodes[0] == root && Distinct(nodes)
      requires forall n :: n in nodes <==> n in Visible()
      modifies this`i, Nodes
      ensures Valid() && Visible() == old(Visible())
      ensures root == old(root) && Nodes == old(Nodes)
      ensures KeySet(keys) == Ids(Visible()) && |KeySet(keys)| == |nodes|
      ensures KeySet(keys[1..]) == KeySet(keys) - {root.id} && |KeySet(keys[1..])| == |nodes| - 1
      ensures forall n :: n in Visible() ==> n.id != 0
      ensures forall n {:trigger n.children} {:trigger n.hidden} {:trigger n.x0} {:trigger n.y0} :: n in Nodes ==>
                n.children == old(n.children) && n.hidden == old(n.hidden) && n.x0 == old(n.x0) && n.y0 == old(n.y0)
      ensures forall k :: 0 <= k < |nodes| ==> nodes[k].x == layout(nodes, k)
      ensures forall k :: 0 <= k < |nodes| ==> nodes[k].y == nodes[k].depth * LevelSpacing
      ensures forall n {:trigger n.x} {:trigger n.y} :: n in Nodes && n !in nodes ==> n.x == old(n.x) && n.y == old(n.y)
      ensures i >= old(i)
      ensures forall n {:trigger n.id} :: n in Nodes ==>
                n.id == old(n.id) || (old(n.id) == 0 && n in nodes && old(i) < n.id <= i)
    {
      Layout(nodes, layout);
      keys := AssignIds(nodes);
      Unmoved();
      KeysOfVisible(nodes, keys);
    }

    /** The position snapshot over the drawn nodes, which again leaves the
        hierarchy, what is visible and what is on screen as they were. */
    method Settle(nodes: seq<Node>, ghost screen: Screen)
      requires Valid() && Synced(screen) && forall n :: n in nodes ==> n in Nodes
      modifies Nodes
      ensures Valid() && Synced(screen) && Visible() == old(Visible())
      ensures root == old(root) && Nodes == old(Nodes) && i == old(i)
      ensures forall n {:trigger n.children} {:trigger n.hidden} {:trigger n.id} {:trigger n.x} {:trigger n.y} ::
                n in Nodes ==>
                n.children == old(n.children) && n.hidden == old(n.hidden) &&
                n.id == old(n.id) && n.x == old(n.x) && n.y == old(n.y)
      ensures forall k :: 0 <= k < |nodes| ==>
                nodes[k].x == old(nodes[k].x) && nodes[k].y == old(nodes[k].y) &&
                nodes[k].x0 == nodes[k].x && nodes[k].y0 == nodes[k].y
      ensures forall n {:trigger n.x0} {:trigger n.y0} :: n in Nodes && n !in nodes ==> n.x0 == old(n.x0) && n.y0 == old(n.y0)
    {
      SavePositions(nodes);
      Unmoved();
    }

    /** The keys bound in a pass are the ids of the visible nodes, and the
        link keys are those of every visible node but the root. */
    lemma KeysOfVisible(nodes: seq<Node>, keys: seq<nat>)
      requires Structure() && |nodes| > 0 && nodes[0] == root
      requires forall n :: n in nodes <==> n in Visible()
      requires |keys| == |nodes| && forall k :: 0 <= k < |nodes| ==> keys[k] == nodes[k].id
      requires Distinct(keys)
      ensures KeySet(keys) == Ids(Visible()) && |KeySet(keys)| == |nodes|
      ensures KeySet(keys[1..]) == KeySet(keys) - {root.id} && |KeySet(keys[1..])| == |nodes| - 1
    {
      DistinctCount(keys);
      DistinctCount(keys[1..]);
      forall k | k in KeySet(keys)
        ensures k in Ids(Visible())
      {
        var j :| 0 <= j < |keys| && keys[j] == k;
        assert nodes[j] in Visible();
      }
      forall n | n in Visible()
        ensures n.id in KeySet(keys)
      {
        var j :| 0 <= j < |nodes| && nodes[j] == n;
        assert keys[j] == n.id;
      }
      forall k | k in KeySet(keys) - {root.id}
        ensures k in KeySet(keys[1..])
      {
        var j :| 0 <= j < |keys| && keys[j] == k;
        assert keys[1..][j - 1] == k;
      }
    }

    /** The rest of `update(source)` on the drawing `before`, over the
        visible nodes `nodes`: lays them out, keys them by id (handing out
        ids to those that have none), joins them and their links against
        the keyed elements of the drawing, and saves their positions. */
    method Draw(nodes: seq<Node>, source: Node, layout: (seq<Node>, nat) -> real, before: Screen) returns (f: Frame)
      requires Valid() && source in Nodes
      requires |nodes| > 0 && nodes[0] == root && Distinct(nodes) && Layered(nodes)
      requires forall n :: n in nodes <==> n in Visible()
      modifies this`i, Nodes
      ensures f.nodes == nodes
      ensures Valid() && Synced(f.screen)
      ensures forall n {:trigger n.children} {:trigger n.hidden} :: n in Nodes ==>
                n.children == old(n.children) && n.hidden == old(n.hidden)
      ensures Visible() == old(Visible())
      ensures Drawn(f.nodes, layout) && forall n :: n in f.nodes <==> n in Visible()
      ensures forall n {:trigger n.id} {:trigger n.x} {:trigger n.y} {:trigger n.x0} {:trigger n.y0} ::
                n in Nodes && n !in Visible() ==>
                n.id == old(n.id) && n.x == old(n.x) && n.y == old(n.y) && n.x0 == old(n.x0) && n.y0 == old(n.y0)
      ensures i >= old(i)
      ensures forall n {:trigger n.id} :: n in Nodes ==>
                n.id == old(n.id) || (old(n.id) == 0 && n in Visible() && old(i) < n.id <= i)
      ensures |f.screen.nodes| == |f.nodes| && |f.screen.links| == |f.nodes| - 1
      ensures f.nodeJoin == Diff(before.nodes, f.screen.nodes)
      ensures f.linkJoin == Diff(before.links, f.screen.links)
      ensures f.enterFrom == Point(old(source.x0), old(source.y0))
      ensures f.exitTo == Point(source.x, source.y)
    {
      var enterFrom := Point(source.x0, source.y0);
      var keys := Arrange(nodes, layout);
      var screen := Screen(KeySet(keys), KeySet(keys[1..]));
      var nodeJoin := Diff(before.nodes, screen.nodes);
      var linkJoin := Diff(before.links, screen.links);
      Settle(nodes, screen);
      assert forall k :: 0 <= k < |nodes| ==> nodes[k].x == layout(nodes, k);
      assert forall k :: 0 <= k < |nodes| ==> nodes[k].y == nodes[k].depth * LevelSpacing;
      var exitTo := Point(source.x, source.y);
      f := Frame(nodes, nodeJoin, linkJoin, enterFrom, exitTo, screen);
    }

    /** `update(source)` on the drawing `before`: lists the visible nodes
        breadth-first and draws them. */
    method Update(source: Node, layout: (seq<Node>, nat) -> real, before: Screen) returns (f: Frame)
      requires Valid() && source in Nodes
      modifies this`i, Nodes
      ensures Valid() && Synced(f.screen)
      ensures forall n {:trigger n.children} {:trigger n.hidden} :: n in Nodes ==>
                n.children == old(n.children) && n.hidden == old(n.hidden)
      ensures Visible() == old(Visible())
      ensures Drawn(f.nodes, layout) && forall n :: n in f.nodes <==> n in Visible()
      ensures f.nodes == old(BreadthFirst())
      ensures forall n {:trigger n.id} {:trigger n.x} {:trigger n.y} {:trigger n.x0} {:trigger n.y0} ::
                n in Nodes && n !in Visible() ==>
                n.id == old(n.id) && n.x == old(n.x) && n.y == old(n.y) && n.x0 == old(n.x0) && n.y0 == old(n.y0)
      ensures i >= old(i)
      ensures forall n {:trigger n.id} :: n in Nodes ==>
                n.id == old(n.id) || (old(n.id) == 0 && n in Visible() && old(i) < n.id <= i)
      ensures |f.screen.nodes| == |f.nodes| && |f.screen.links| == |f.nodes| - 1
      ensures f.nodeJoin == Diff(before.nodes, f.screen.nodes)
      ensures f.linkJoin == Diff(before.links, f.screen.links)
      ensures f.enterFrom == Point(old(source.x0), old(source.y0))
      ensures f.exitTo == Point(source.x, source.y)
    {
      var nodes := Descendants();
      f := Draw(nodes, source, layout, before);
    }

    /** Changing anything but the child lists keeps the hierarchy and what
        is visible. */
    twostate lemma Unmoved()
      requires old(Structure())
      requires root == old(root) && Nodes == old(Nodes) && height == old(height)
      requires forall n :: n in Nodes ==> n.children == old(n.children) && n.hidden == old(n.hidden)
      ensures Structure() && Visible() == old(Visible())
    {
      forall n | n in Nodes
        ensures Linked(n, Nodes)
      {
        assert old(Linked(n, Nodes));
      }
      forall n | n in Nodes
        ensures Shown(root, n) == old(Shown(root, n))
      {
        PathInNodes(root, n);
        ShownFramed(Span(root, n));
      }
    }

    /** Nodes whose child lists are unchanged have unchanged children. */
    twostate lemma {:induction false} KidsKept(s: seq<Node>)
      requires forall n :: n in s ==> n.children == old(n.children)
      ensures Kids(s) == old(Kids(s))
      decreases |s|
    {
      if s != [] {
        KidsKept(s[..|s| - 1]);
      }
    }

    /** With the child lists unchanged, every level is unchanged, and so
        are the levels above it. */
    twostate lemma {:induction false} LevelKept(d: nat)
      requires old(Structure()) && Structure()
      requires root == old(root) && Nodes == old(Nodes) && height == old(height)
      requires forall n :: n in Nodes ==> n.children == old(n.children)
      ensures Level(d) == old(Level(d)) && Levels(d) == old(Levels(d))
    {
      if d > 0 {
        LevelKept(d - 1);
        KidsKept(Level(d - 1));
      }
    }

    /** With the child lists unchanged, the breadth-first order is too. */
    twostate lemma OrderKept()
      requires old(Structure()) && Structure()
      requires root == old(root) && Nodes == old(Nodes) && height == old(height)
      requires forall n :: n in Nodes ==> n.children == old(n.children)
      ensures BreadthFirst() == old(BreadthFirst())
    {
      LevelKept(height + 1);
    }

    /** `toggle(d)`: expands a collapsed node and collapses an expanded one;
        a leaf stays a leaf. Only the two lists of `d` change, so only what
        lies strictly below `d` can appear or disappear: collapsing hides,
        expanding shows. */
    method Toggle(d: Node)
      requires Valid() && d in Nodes
      modifies d`children, d`hidden
      ensures Valid()
      ensures d.children == old(d.hidden) && d.hidden == old(d.children)
      ensures forall n {:trigger n in Visible()} {:trigger n in old(Visible())} ::
                n in Nodes && !(Under(d, n) && n != d) ==> (n in Visible() <==> n in old(Visible()))
      ensures old(d.children) != [] ==> Visible() <= old(Visible())
      ensures old(d.children) == [] ==> old(Visible()) <= Visible()
    {
      if d.children != [] {
        d.children, d.hidden := [], d.children;
        VisibleOutside(d);
        HiddenBelow(d);
      } else {
        HiddenBelow(d);
        d.children, d.hidden := d.hidden, [];
        VisibleOutside(d);
      }
    }

    /** Nothing strictly below a node without expanded children is
        visible. */
    lemma {:induction false} HiddenBelow(d: Node)
      requires Structure() && d in Nodes && d.children == []
      ensures forall n {:trigger n in Visible()} :: n in Nodes && Under(d, n) && n != d ==> n !in Visible()
    {
      forall n | n in Nodes && Under(d, n) && n != d && n in Visible()
        ensures false
      {
        ShownThrough(root, d, n);
      }
    }

    /** When only the child lists of `d` changed, visibility changes only
        strictly below `d`. */
    twostate lemma {:induction false} VisibleOutside(d: Node)
      requires old(Structure()) && Structure()
      requires root == old(root) && Nodes == old(Nodes) && d in Nodes
      requires forall n :: n in Nodes && n != d ==> n.children == old(n.children)
      ensures forall n {:trigger n in Visible()} {:trigger n in old(Visible())} ::
                n in Nodes && !(Under(d, n) && n != d) ==> (n in Visible() <==> n in old(Visible()))
    {
      forall n | n in Nodes && !(Under(d, n) && n != d)
        ensures Shown(root, n) == old(Shown(root, n))
      {
        PathInNodes(root, n);
        if d in Path(root, n) {
          PathAbove(root, n, d);
        }
        ShownFramed(Span(root, n));
      }
    }

    /** The click handler of a node group: `toggle(d)`, then `update(d)`.
        Visibility changes only strictly below `d`: collapsing hides, and
        expanding shows. The pass then draws the new visible set, with
        entering elements starting where `d` was drawn before the click and
        exiting ones leaving towards where it is drawn now. */
    method Click(d: Node, layout: (seq<Node>, nat) -> real, before: Screen) returns (f: Frame)
      requires Valid() && d in Nodes
      modifies this`i, Nodes
      ensures Valid() && Synced(f.screen)
      ensures d.children == old(d.hidden) && d.hidden == old(d.children)
      ensures forall n {:trigger n.children} {:trigger n.hidden} :: n in Nodes && n != d ==>
                n.children == old(n.children) && n.hidden == old(n.hidden)
      ensures forall n {:trigger n in Visible()} {:trigger n in old(Visible())} ::
                n in Nodes && !(Under(d, n) && n != d) ==> (n in Visible() <==> n in old(Visible()))
      ensures old(d.children) != [] ==> Visible() <= old(Visible())
      ensures old(d.children) == [] ==> old(Visible()) <= Visible()
      ensures Drawn(f.nodes, layout) && forall n :: n in f.nodes <==> n in Visible()
      ensures |f.screen.nodes| == |f.nodes| && |f.screen.links| == |f.nodes| - 1
      ensures f.nodeJoin == Diff(before.nodes, f.screen.nodes)
      ensures f.linkJoin == Diff(before.links, f.screen.links)
      ensures f.enterFrom == Point(old(d.x0), old(d.y0)) && f.exitTo == Point(d.x, d.y)
      ensures i >= old(i)
      ensures forall n {:trigger n.id} :: n in Nodes ==>
                n.id == old(n.id) || (old(n.id) == 0 && n in Visible() && old(i) < n.id <= i)
    {
      Toggle(d);
      f := Update(d, layout, before);
    }
  }

  /** Start-up: the tree is built, collapsed below the root's children
      and drawn by `update(root)` on an empty canvas. The root and its
      children are drawn, one node per top-level record; every element
      enters, from the root's initial position; every deeper record waits
      in its parent's `_children`; each drawn node gets an id no larger
      than the counter. */
  method Mount(data: Datum, layout: (seq<Node>, nat) -> real) returns (t: OsintTree, f: Frame)
    ensures fresh(t) && t.Valid() && t.Synced(f.screen)
    ensures t.root.data == data && Records(t.root.children, data)
    ensures forall n :: n in t.Nodes && n != t.root ==> n.children == [] && Records(n.hidden, n.data)
    ensures forall n :: n in f.nodes <==> n in t.Nodes && (n == t.root || n.parent == t.root)
    ensures |f.nodes| == |data.children| + 1
    ensures f.nodeJoin == Join(f.screen.nodes, {}, {}) && f.linkJoin == Join(f.screen.links, {}, {})
    ensures |f.screen.nodes| == |f.nodes| && |f.screen.links| == |f.nodes| - 1
    ensures forall n :: n in f.nodes ==> 0 < n.id <= t.i
    ensures f.enterFrom == Point(Height as real / 2.0, 0)
    ensures t.Drawn(f.nodes, layout)
    ensures fresh(t.Nodes)
    ensures forall n :: n in t.Nodes && n !in f.nodes ==> n.id == 0
  {
    t := new OsintTree(data);
    f := t.Update(t.root, layout, Screen({}, {}));
    t.TopsCount(f.nodes);
    DiffFromEmpty(f.screen.nodes);
    DiffFromEmpty(f.screen.links);
  }
}
