// The node graph that d3.hierarchy builds from the chart's nested data, and
// the two relations the collapsible-tree engine reasons with: structural
// descent (fixed once the hierarchy is built) and visible descent (which
// depends on which child lists are currently expanded).

module Hierarchy {

  /** One record of the input data: a label and its ordered child records.
      The `type`/`url` fields of a record only feed presentation. */
  datatype Datum = Datum(name: string, children: seq<Datum>)

  /** A hierarchy node. `parent` and `depth` are fixed when the node is made;
      the child lists, the id and the coordinates are updated in place.
      An absent (null/undefined) child list is the empty sequence. */
  class Node {
    const data: Datum
    const parent: Node?
    const depth: nat
    var children: seq<Node>   // visible children (`children`)
    var hidden: seq<Node>     // collapsed children (`_children`)
    var id: nat               // 0 until the first render hands out an id
    var x: real               // cross-axis coordinate from the tree layout
    var y: int                // main-axis coordinate, depth * level spacing
    var x0: real              // coordinates saved at the end of the last render
    var y0: int

    constructor (data: Datum, parent: Node?)
      ensures this.data == data && this.parent == parent
      ensures depth == if parent == null then 0 else parent.depth + 1
      ensures children == [] && hidden == [] && id == 0
    {
      this.data := data;
      this.parent := parent;
      depth := if parent == null then 0 else parent.depth + 1;
      children := [];
      hidden := [];
      id := 0;
      x, y, x0, y0 := 0.0, 0, 0.0, 0;
    }
  }

  /** `n` is `a` or lies below it, following parent links (whatever is
      expanded). */
  ghost predicate Under(a: Node, n: Node)
    decreases n.depth
  {
    n == a || (n.depth > a.depth && n.parent != null && n.parent.depth < n.depth && Under(a, n.parent))
  }

  /** The ancestors of `n`, from its parent up to `a`: the nodes whose
      `children` decide whether `n` is visible from `a`. */
  ghost function Path(a: Node, n: Node): set<Node>
    decreases n.depth
  {
    if n == a || n.depth <= a.depth || n.parent == null || n.parent.depth >= n.depth then {}
    else {n.parent} + Path(a, n.parent)
  }

  /** `n` is `a` or is reached from `a` through visible `children` lists
      only: it is drawn when `a` is. */
  ghost predicate Shown(a: Node, n: Node)
    reads Path(a, n)`children
    decreases n.depth
  {
    n == a ||
    (n.depth > a.depth && n.parent != null && n.parent.depth < n.depth &&
     n in n.parent.children && Shown(a, n.parent))
  }

  lemma {:induction false} UnderDepth(a: Node, n: Node)
    requires Under(a, n)
    ensures a.depth <= n.depth
    decreases n.depth
  {
    if n != a {
      UnderDepth(a, n.parent);
    }
  }

  /** Two nodes at the same depth that both lie above `n` are the same node:
      subtrees of distinct siblings are disjoint. */
  lemma {:induction false} UnderUnique(a: Node, b: Node, n: Node)
    requires Under(a, n) && Under(b, n) && a.depth == b.depth
    ensures a == b
    decreases n.depth
  {
    if n != a && n != b {
      UnderUnique(a, b, n.parent);
    }
  }

  /** What lies below a child of `d` lies below `d`. */
  lemma {:induction false} UnderChild(d: Node, c: Node, n: Node)
    requires c.parent == d && c.depth == d.depth + 1 && Under(c, n)
    ensures Under(d, n)
    decreases n.depth
  {
    if n != c {
      UnderChild(d, c, n.parent);
      UnderDepth(c, n.parent);
    }
  }

  /** What is visible below `a` lies below `a`. */
  lemma {:induction false} ShownUnder(a: Node, n: Node)
    requires Shown(a, n)
    ensures Under(a, n)
    decreases n.depth
  {
    if n != a {
      ShownUnder(a, n.parent);
    }
  }

  /** Every node on the path from `a` down to `n` lies below `a`, above `n`. */
  lemma {:induction false} PathUnder(a: Node, n: Node, m: Node)
    requires Under(a, n) && m in Path(a, n)
    ensures Under(a, m) && m.depth < n.depth
    decreases n.depth
  {
    if m != n.parent {
      PathUnder(a, n.parent, m);
    }
  }

  /** The nodes on the path from `a` down to `n` are the ancestors of `n`. */
  lemma {:induction false} PathAbove(a: Node, n: Node, m: Node)
    requires m in Path(a, n)
    ensures Under(m, n) && m != n
    decreases n.depth
  {
    if m != n.parent {
      PathAbove(a, n.parent, m);
      UnderDepth(m, n.parent);
    }
  }

  /** A node visible from `a` that lies strictly below `d` (with `d` no
      higher than `a`) is reached through an expanded `d`. */
  lemma {:induction false} ShownThrough(a: Node, d: Node, n: Node)
    requires Shown(a, n) && Under(d, n) && n != d && a.depth <= d.depth
    ensures d.children != []
    decreases n.depth
  {
    if n.parent != d {
      ShownThrough(a, d, n.parent);
    }
  }

  /** The stretch of the tree from `top` down to `bottom`. */
  datatype Span = Span(top: Node, bottom: Node)

  /** Visibility of `s.bottom` below `s.top` depends only on the `children`
      of the nodes between them. (Walks up from the bottom.) */
  twostate lemma ShownFramed(s: Span)
    requires forall m :: m in Path(s.top, s.bottom) && old(allocated(m)) ==> m.children == old(m.children)
    ensures old(Shown(s.top, s.bottom)) == Shown(s.top, s.bottom)
  {
    var a, cur: Node := s.top, s.bottom;
    var linked := true;
    while cur != a && cur.depth > a.depth && cur.parent != null && cur.parent.depth < cur.depth
      invariant old(allocated(cur)) && Path(a, cur) <= Path(a, s.bottom)
      invariant Shown(a, s.bottom) == (linked && Shown(a, cur))
      invariant old(Shown(a, s.bottom)) == (linked && old(Shown(a, cur)))
      decreases cur.depth
    {
      linked := linked && cur in cur.parent.children;
      cur := cur.parent;
    }
  }

  /** When no `children` list changed, nothing became visible or hidden. */
  twostate lemma ShownKept()
    requires forall m: Node :: old(allocated(m)) ==> m.children == old(m.children)
    ensures forall a: Node, n: Node :: old(allocated(a)) && old(allocated(n)) ==>
              old(Shown(a, n)) == Shown(a, n)
  {
    forall a: Node, n: Node | old(allocated(a)) && old(allocated(n))
      ensures old(Shown(a, n)) == Shown(a, n)
    {
      ShownFramed(Span(a, n));
    }
  }

  /** What was visible below `s.top` in the earlier state lies below it. */
  twostate lemma OldShownUnder(s: Span)
    ensures old(Shown(s.top, s.bottom)) ==> Under(s.top, s.bottom)
  {
    var a, cur: Node := s.top, s.bottom;
    while cur != a && cur.depth > a.depth && cur.parent != null && cur.parent.depth < cur.depth
      invariant old(allocated(cur))
      invariant old(Shown(a, s.bottom)) ==> old(Shown(a, cur))
      invariant Under(a, cur) ==> Under(a, s.bottom)
      decreases cur.depth
    {
      cur := cur.parent;
    }
  }

  /** A node visible below `d`, other than `d`, is visible below some
      expanded child of `d`. */
  lemma {:induction false} ShownSplit(d: Node, n: Node)
    requires Shown(d, n) && n != d
    ensures exists j :: 0 <= j < |d.children| && Shown(d.children[j], n)
    decreases n.depth
  {
    if n.parent == d {
      var j :| 0 <= j < |d.children| && d.children[j] == n;
      assert Shown(d.children[j], n);
    } else {
      ShownSplit(d, n.parent);
      var j :| 0 <= j < |d.children| && Shown(d.children[j], n.parent);
      ShownUnder(d.children[j], n.parent);
      UnderDepth(d.children[j], n.parent);
      assert Shown(d.children[j], n);
    }
  }

  /** What is visible below an expanded child of `d` is visible below `d`. */
  lemma {:induction false} ShownJoin(d: Node, c: Node, n: Node)
    requires c in d.children && c.parent == d && c.depth == d.depth + 1
    requires Shown(c, n)
    ensures Shown(d, n)
    decreases n.depth
  {
    if n != c {
      ShownJoin(d, c, n.parent);
      ShownUnder(c, n.parent);
      UnderDepth(c, n.parent);
    }
  }

  /** A visible node whose parent chain up to `a` runs through nodes of `s`
      is in `s`, when `s` holds `a` and every expanded child of its members. */
  lemma {:induction false} ShownClosed(a: Node, s: seq<Node>, n: Node)
    requires a in s
    requires forall m, j :: m in s && 0 <= j < |m.children| ==> m.children[j] in s
    requires Shown(a, n)
    ensures n in s
    decreases n.depth
  {
    if n != a {
      ShownClosed(a, s, n.parent);
      var j :| 0 <= j < |n.parent.children| && n.parent.children[j] == n;
    }
  }

  /** Below `a`, a node sitting in its parent's expanded list, with every
      ancestor up to `a` doing the same, is visible. */
  lemma {:induction false} ShownLinked(a: Node, sub: set<Node>, n: Node)
    requires a in sub && n in sub && Under(a, n)
    requires forall m :: m in sub && m != a ==>
               m.parent != null && m.parent in sub && m in m.parent.children && m.depth == m.parent.depth + 1
    ensures Shown(a, n)
    decreases n.depth
  {
    if n != a {
      ShownLinked(a, sub, n.parent);
    }
  }

  /** Both child lists of `n` hold distinct nodes of `nodes` whose parent
      is `n`. */
  ghost predicate Linked(n: Node, nodes: set<Node>)
    reads n`children, n`hidden
  {
    (forall k :: 0 <= k < |n.children| ==> n.children[k] in nodes && n.children[k].parent == n) &&
    (forall k :: 0 <= k < |n.hidden| ==> n.hidden[k] in nodes && n.hidden[k].parent == n) &&
    (forall j, k :: 0 <= j < k < |n.children| ==> n.children[j] != n.children[k]) &&
    (forall j, k :: 0 <= j < k < |n.hidden| ==> n.hidden[j] != n.hidden[k])
  }

  /** `n` is expanded, collapsed or a leaf: it never has both lists. */
  ghost predicate OneList(n: Node)
    reads n`children, n`hidden
  {
    n.children == [] || n.hidden == []
  }

  /** What `collapse` leaves in `_children`: the old `children` when there
      were any, else whatever `_children` already held. */
  function Folded(children: seq<Node>, hidden: seq<Node>): seq<Node>
  {
    if children != [] then children else hidden
  }

  /** `kids` are nodes made from the child records of `datum`, one each,
      in record order. */
  ghost predicate Records(kids: seq<Node>, datum: Datum)
  {
    |kids| == |datum.children| && forall k :: 0 <= k < |kids| ==> kids[k].data == datum.children[k]
  }

  /** A freshly built subtree: child lists are linked within it, nothing is
      collapsed and no id is handed out. */
  ghost predicate JustBuilt(sub: set<Node>)
    reads sub`children, sub`hidden, sub`id
  {
    forall m :: m in sub ==> Linked(m, sub) && m.hidden == [] && m.id == 0
  }

  /** d3.hierarchy: one node per record, children in record order, every
      child list expanded. Returns the new node, the set of nodes made and
      the height of the subtree. */
  method Build(datum: Datum, parent: Node?) returns (n: Node, ghost sub: set<Node>, ghost h: nat)
    ensures fresh(sub) && n in sub && JustBuilt(sub)
    ensures n.data == datum && n.parent == parent
    ensures n.depth == if parent == null then 0 else parent.depth + 1
    ensures Records(n.children, datum)
    ensures forall m :: m in sub ==> Records(m.children, m.data)
    ensures forall m :: m in sub ==> Under(n, m) && m.depth <= n.depth + h
    ensures forall m :: m in sub && m != n ==>
              m.parent != null && m.parent in sub && m in m.parent.children && m.depth == m.parent.depth + 1
    decreases datum, 1
  {
    n := new Node(datum, parent);
    var kids; ghost var below;
    kids, below, h := BuildChildren(n, datum);
    n.children := kids;
    sub := {n} + below;
  }

  /** The subtrees of the child records of `datum`, in order, each built
      below `n`: the nodes made, the roots of the subtrees and the height
      below `n`. */
  method BuildChildren(n: Node, datum: Datum) returns (kids: seq<Node>, ghost below: set<Node>, ghost h: nat)
    ensures fresh(below) && JustBuilt(below)
    ensures |kids| == |datum.children|
    ensures forall j :: 0 <= j < |kids| ==> kids[j] in below && kids[j].parent == n && kids[j].data == datum.children[j]
    ensures forall i, j :: 0 <= i < j < |kids| ==> kids[i] != kids[j]
    ensures forall m :: m in below ==> Records(m.children, m.data)
    ensures forall m :: m in below ==> Under(n, m) && m.depth <= n.depth + h
    ensures forall m :: m in below ==>
              m.parent != null && m.depth == m.parent.depth + 1 &&
              (if m.parent == n then m in kids else m.parent in below && m in m.parent.children)
    decreases datum, 0
  {
    kids, below, h := [], {}, 0;
    var k := 0;
    while k < |datum.children|
      invariant 0 <= k <= |datum.children| && |kids| == k
      invariant fresh(below) && JustBuilt(below)
      invariant forall j :: 0 <= j < k ==> kids[j] in below && kids[j].parent == n && kids[j].data == datum.children[j]
      invariant forall i, j :: 0 <= i < j < k ==> kids[i] != kids[j]
      invariant forall m :: m in below ==> Records(m.children, m.data)
      invariant forall m :: m in below ==> Under(n, m) && m.depth <= n.depth + h
      invariant forall m :: m in below ==>
                  m.parent != null && m.depth == m.parent.depth + 1 &&
                  (if m.parent == n then m in kids else m.parent in below && m in m.parent.children)
    {
      var c, csub, ch := Build(datum.children[k], n);
      assert forall j :: 0 <= j < k ==> kids[j] != c;
      forall m | m in csub
        ensures Under(n, m)
      {
        UnderChild(n, c, m);
      }
      kids := kids + [c];
      below := below + csub;
      if ch + 1 > h {
        h := ch + 1;
      }
      k := k + 1;
    }
  }

}
