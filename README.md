# OSINT collapsible tree — a Dafny model

This project models the collapsible-tree engine of the `OsintTree` chart component (`src/OsintGraph.jsx`).

**Start-up.** The component turns the nested chart data into a d3 hierarchy of nodes. It places the root at the middle of the left edge and collapses every child of the root.

**Render pass.** Then `update(root)` runs. Each pass of `update(source)` does the following:

- lays out the visible nodes: the cross axis comes from the tidy-tree layout, and the main axis is `depth * 180`;
- keys every node by an id handed out lazily from a counter;
- keys every link by its target node's id;
- joins both against what is already drawn, splitting them into entering, updating and exiting elements;
- records where entering elements start and where exiting ones go;
- saves every drawn node's position for the next pass.

**Click.** Clicking a node runs `toggle` on it and then `update` from it.

**Modules.** The model keeps the source's imperative form:

- `Hierarchy` (`hierarchy.dfy`):
  - nodes are objects whose `children`, `hidden` (the source's `_children`), `id` and coordinates are updated in place;
  - `parent` and `depth` are fixed when the node is made;
  - `Build` plays the part of `d3.hierarchy`;
  - two relations describe the tree: `Under` (structural descent) and `Shown` (descent through expanded child lists only).
- `OsintGraph` (`osint_tree.dfy`):
  - a class `OsintTree` holds the root, the id counter `i` and the ghost set of all nodes;
  - its methods are start-up (the constructor: the hierarchy, the root's position and the initial collapse), `collapse`, `toggle`, the breadth-first `descendants()` walk, layout, id assignment, the position snapshot, `update` (the walk followed by `Draw`) and the click handler;
  - `Mount` is the whole start-up sequence: the constructor followed by `update(root)`.
- `KeyedJoin` (`join.dfy`): the keyed enter/update/exit split as a pure function over key sets.

**Drawing state.** What is on screen is modelled as a `Screen` value: the keys of the node groups and of the link paths. `Synced(s)` says that `s` holds exactly the ids of the visible nodes, plus one link key per visible node other than the root. Every pass leaves the drawing `Synced`.

**Start-up visibility.** The comment at src/OsintGraph.jsx:31 reads as if every child list is collapsed at start-up. The statement under it, `root.children?.forEach(collapse)` (line 32), collapses each *child* of the root and leaves the root itself expanded. So after start-up the root and its direct children are shown. The model follows the statement: see `OsintGraph.OsintTree.constructor` and `OsintGraph.Mount`.

**Toggle is its own inverse.** `OsintGraph.OsintTree.Toggle` swaps `children` and `hidden` and changes no other node's lists. Toggling twice therefore restores both lists of the node, and every other node's lists are unchanged. A leaf has neither list, so it stays childless.

## Model

| member | source | states |
|---|---|---|
| KeyedJoin.Diff | src/OsintGraph.jsx:56-61 | the entering and updating keys together are the keys bound now; the updating and exiting keys together are the keys drawn before; entering keys were not drawn and exiting keys are not bound; the three selections are pairwise disjoint |
| KeyedJoin.DiffUnique | src/OsintGraph.jsx:56-61 | any split of two key sets with those covering and separation properties is the one `Diff` returns, so the contract of `Diff` fully determines the join |
| KeyedJoin.DiffFromEmpty | src/OsintGraph.jsx:36 | the first render, on an empty drawing, enters every key and updates and removes none |
| KeyedJoin.DiffSame | src/OsintGraph.jsx:115-116 | a pass whose key set equals the drawn one enters nothing and removes nothing; every key updates |
| KeyedJoin.DiffBack | src/OsintGraph.jsx:133-148 | joining back from the new key set to the old one swaps entering and exiting and keeps the updating keys: what a collapse removes, the following expand brings back |
| KeyedJoin.DistinctCount | src/OsintGraph.jsx:58 | a sequence without repeats has as many distinct elements as entries, so no two bound nodes share a drawn element |
| Hierarchy.Node.constructor | src/OsintGraph.jsx:27 | a new hierarchy node sits one level below its parent (the root at depth 0), with no child lists and no id yet |
| Hierarchy.Build | src/OsintGraph.jsx:27 | `d3.hierarchy` makes a fresh node per record: every node made has one child per child record of its own record, in record order, all expanded; nothing is collapsed and no id is given; every node made lies below the new node, one level below its parent, and sits in its parent's child list |
| Hierarchy.BuildChildren | src/OsintGraph.jsx:27 | the child records become distinct fresh subtrees, in order, each one level below the node and linked to it, and every node in them holds the nodes of its own child records, in order |
| Hierarchy.UnderDepth | src/OsintGraph.jsx:27 | a descendant is never shallower than its ancestor |
| Hierarchy.UnderUnique | src/OsintGraph.jsx:27 | two ancestors of the same node at the same depth are one node: the subtrees of distinct siblings are disjoint |
| Hierarchy.UnderChild | src/OsintGraph.jsx:27 | what lies below a child lies below its parent |
| Hierarchy.ShownUnder | src/OsintGraph.jsx:50 | a node visible below `a` is a structural descendant of `a` |
| Hierarchy.PathUnder | src/OsintGraph.jsx:50 | every node whose list decides a descendant's visibility lies between the two |
| Hierarchy.PathAbove | src/OsintGraph.jsx:50 | every node whose list decides a node's visibility is a proper ancestor of it |
| Hierarchy.ShownThrough | src/OsintGraph.jsx:50 | a visible node strictly below `d` can only be reached through a non-empty `children` list of `d` |
| Hierarchy.ShownFramed | src/OsintGraph.jsx:50 | whether a node is visible below another depends only on the `children` lists of the nodes between them |
| Hierarchy.ShownKept | src/OsintGraph.jsx:41 | if no `children` list changed, no node became visible or hidden |
| Hierarchy.OldShownUnder | src/OsintGraph.jsx:50 | what was visible below a node in an earlier state is a structural descendant of it |
| Hierarchy.ShownSplit | src/OsintGraph.jsx:41 | a node visible strictly below `d` is visible below one of the expanded children of `d` |
| Hierarchy.ShownJoin | src/OsintGraph.jsx:41 | what is visible below an expanded child of `d` is visible below `d` |
| Hierarchy.ShownClosed | src/OsintGraph.jsx:50 | a list that holds `a` and every expanded child of its members holds every node visible below `a` |
| Hierarchy.ShownLinked | src/OsintGraph.jsx:32 | when every node sits in its parent's expanded list, every descendant of `a` is visible below `a` |
| OsintGraph.WithinStep | src/OsintGraph.jsx:50 | within one level, taking the head of the queue outputs the level's next node and queues its expanded children after those already queued |
| OsintGraph.AppendLayer | src/OsintGraph.jsx:50 | one breadth-first step, moving the head of the queue out and queueing its children, keeps the walk free of repeats and non-decreasing in depth |
| OsintGraph.OsintTree.Layout | src/OsintGraph.jsx:49-53 | every visible node gets its tidy-tree cross-axis position and `y == depth * 180`; ids, child lists, saved positions and all other nodes stay as they were |
| OsintGraph.OsintTree.SavePositions | src/OsintGraph.jsx:158-161 | every drawn node gets `x0 == x` and `y0 == y`; nothing else changes |
| OsintGraph.OsintTree.AssignIds | src/OsintGraph.jsx:58 | every bound node ends with a non-zero id and the keys are pairwise distinct; a node keeps any id it had; a node without one gets a number above the old counter and not above the new one; the counter never decreases and all ids stay distinct and within it |
| OsintGraph.OsintTree.PathInNodes | src/OsintGraph.jsx:27 | the ancestors of a tree node are tree nodes |
| OsintGraph.OsintTree.ShownBelowChildren | src/OsintGraph.jsx:41 | the nodes visible strictly below `d` are exactly those visible below its expanded children |
| OsintGraph.OsintTree.TopsCover | src/OsintGraph.jsx:32 | in the freshly built tree, every node other than the root lies below some child of the root, and the root lies below none of them |
| OsintGraph.OsintTree.TopsApart | src/OsintGraph.jsx:32 | no node lies below two different children of the root, so the subtrees that `forEach(collapse)` folds one after the other are disjoint |
| OsintGraph.OsintTree.TopsCount | src/OsintGraph.jsx:50 | when exactly the root and its children are visible, the visible list has one entry more than the root has children |
| OsintGraph.OsintTree.TopsVisible | src/OsintGraph.jsx:32 | once every node but the root is collapsed, the visible nodes are exactly the root and its direct children |
| OsintGraph.OsintTree.constructor | src/OsintGraph.jsx:27-32 | the tree of the data is built and collapsed below the root's children. The root holds `data` and shows one child per top-level record, in order. Every other node shows no children and holds one node per child record of its own record in `_children`, in order, so expanding it shows them. The root is at `(height/2, 0)` = `(380, 0)`; no id is handed out yet; the visible nodes are exactly the root and its children; the tree is well formed and no node has both lists |
| OsintGraph.OsintTree.CollapseTops | src/OsintGraph.jsx:32 | after `root.children?.forEach(collapse)` the root keeps its children; every other node has its former `children` in `_children` and none visible; only the root and its children are visible |
| OsintGraph.OsintTree.Collapse | src/OsintGraph.jsx:38-44 | every node visible below `d`, `d` included, ends with no visible children; its former non-empty `children` list is now its `_children`, same order and contents; a node that was already collapsed keeps its `_children`; every other node is untouched; the hierarchy stays well formed |
| OsintGraph.OsintTree.CollapseEach | src/OsintGraph.jsx:41 | `forEach(collapse)` over a child list collapses exactly what each child shows, as `Collapse` does, and touches nothing else |
| OsintGraph.OsintTree.HeadFresh | src/OsintGraph.jsx:50 | in the breadth-first walk the node taken from the queue has not been output yet, and its expanded children are new to the walk and one level deeper |
| OsintGraph.OsintTree.CoveredStep | src/OsintGraph.jsx:50 | outputting the head of the queue and queueing its expanded children keeps every walked node visible, parents before children, with no expanded child missed |
| OsintGraph.OsintTree.Level | src/OsintGraph.jsx:50 | the level-`d` list holds tree nodes of depth `d` only |
| OsintGraph.OsintTree.KidsBelow | src/OsintGraph.jsx:50 | the expanded children of depth-`d` tree nodes are tree nodes of depth `d + 1` |
| OsintGraph.OsintTree.LevelsEnd | src/OsintGraph.jsx:50 | below an empty level every level is empty, so the levels above any deeper depth are the same list |
| OsintGraph.OsintTree.NextLevel | src/OsintGraph.jsx:50 | once a level is fully output, the queue is exactly the next level, and the output is the levels above it |
| OsintGraph.OsintTree.OrderStep | src/OsintGraph.jsx:50 | one step of the walk keeps the output a prefix of the level-order list and the queue the rest of the current level followed by the children queued so far |
| OsintGraph.OsintTree.OrderEnd | src/OsintGraph.jsx:50 | when the queue runs empty, the output is exactly the level-order list `BreadthFirst()` |
| OsintGraph.OsintTree.WalkStart | src/OsintGraph.jsx:50 | the walk that starts with only the root queued satisfies the walk invariant |
| OsintGraph.OsintTree.WalkStep | src/OsintGraph.jsx:50 | one step of the walk takes a node not output before and keeps the walk invariant: visible nodes only, parents first, no repeats, layered, in level order |
| OsintGraph.OsintTree.WalkEnd | src/OsintGraph.jsx:50 | a finished walk has output the level-order list, which holds exactly the visible nodes, each once, root first, depth never decreasing |
| OsintGraph.OsintTree.Descendants | src/OsintGraph.jsx:50 | `root.descendants()` lists exactly the visible nodes, each once, in breadth-first order: level after level, each level in its parents' order and then in child-list order (`BreadthFirst()`), so the list depends on the tree alone; the root comes first and depth never decreases; nothing changes |
| OsintGraph.OsintTree.Arrange | src/OsintGraph.jsx:49-58 | after layout and keying, the node keys are exactly the ids of the visible nodes, one per node, and the link keys are those ids without the root's; positions are as `Layout` states and ids as `AssignIds` states; the tree and what is visible are unchanged |
| OsintGraph.OsintTree.Settle | src/OsintGraph.jsx:158-161 | the snapshot gives every drawn node `x0 == x`, `y0 == y`; it moves nothing and leaves the tree, ids, visibility and the drawing in sync |
| OsintGraph.OsintTree.KeysOfVisible | src/OsintGraph.jsx:126 | the distinct keys bound in a pass are the ids of the visible nodes; the link keys, one per non-root visible node, are those ids without the root's |
| OsintGraph.OsintTree.Draw | src/OsintGraph.jsx:49-162 | given the visible nodes listed root first, without repeats and layered, the rest of the pass draws exactly that list: the same drawing, joins, positions, snapshot and ids as `Update` states, and the child lists, and so the breadth-first order, are unchanged |
| OsintGraph.OsintTree.Update | src/OsintGraph.jsx:46-162 | `update(source)` lists the visible nodes in the breadth-first order of the tree (`BreadthFirst()` before the pass), so two passes over the same tree list, place and number the nodes alike. It leaves the drawing holding exactly the visible nodes' ids and one link per non-root visible node, with the node and link joins against the previous drawing as `Diff` states. Visible nodes are listed root first by depth, at their layout positions with `y == depth * 180`, and snapshot with `x0 == x`, `y0 == y`. Entering elements start at `source`'s saved position from before the pass; exiting ones go to its new position. Ids are kept or newly handed out above the old counter. Collapse state, visibility and the hidden nodes' ids and positions are unchanged |
| OsintGraph.OsintTree.Unmoved | src/OsintGraph.jsx:49-53 | changing anything but the child lists leaves the hierarchy well formed and the visible set unchanged |
| OsintGraph.OsintTree.Toggle | src/OsintGraph.jsx:164-172 | `children` and `_children` of `d` swap, so toggling twice restores them and a leaf stays childless; no other node changes; visibility changes only strictly below `d`: collapsing only hides, expanding only shows; the tree stays well formed with one list per node |
| OsintGraph.OsintTree.HiddenBelow | src/OsintGraph.jsx:164-172 | nothing strictly below a node without visible children is visible |
| OsintGraph.OsintTree.KidsKept | src/OsintGraph.jsx:50 | nodes whose child lists are unchanged have the same expanded children |
| OsintGraph.OsintTree.LevelKept | src/OsintGraph.jsx:50 | with no child list changed, every level and the levels above it are unchanged |
| OsintGraph.OsintTree.OrderKept | src/OsintGraph.jsx:50 | with no child list changed, the breadth-first order is unchanged |
| OsintGraph.OsintTree.VisibleOutside | src/OsintGraph.jsx:164-172 | when only the lists of `d` change, no node outside the strict subtree of `d` appears or disappears |
| OsintGraph.OsintTree.Click | src/OsintGraph.jsx:65-68 | a click toggles `d` as `Toggle` states, then redraws. The drawing holds exactly the new visible set, with the node and link joins as `Diff` states and one link per non-root node. The visible nodes are listed root first by depth, at their layout positions with `y == depth * 180`, and snapshot. Entering elements start at `d`'s position from before the click; exiting ones go to its new position. Ids are kept or newly handed out, never changed |
| OsintGraph.Mount | src/OsintGraph.jsx:27-36 | start-up from `data` draws exactly the root and its direct children on an empty canvas: `1 + |data.children|` nodes, the root holding `data`, listed root first by depth at their layout positions with `y == depth * 180` and snapshot with `x0 == x`, `y0 == y` (`Drawn`); every deeper record waits, in order, in its parent's `_children`; every element enters and none updates or exits, starting from `(380, 0)`; there is one link per drawn non-root node, and every drawn node has an id between 1 and the counter; every node of the tree is newly built, and every node not drawn keeps id 0, because d3 numbers a node only when it first enters |

## Left out

- The cross-axis position from `d3.tree().size([height, width])` is a parameter `layout` of the visible node list and the index. That list is the tree's breadth-first order, so the position depends on the tree alone. The tidy-tree algorithm and its floating-point arithmetic are a foreign library. `x`/`x0` are `real`.
- SVG/DOM construction and styling are not modelled. This covers circles, text, URL anchors, fill colours, opacity and the margin transform. It is presentation only.
- Transitions and the 750 ms duration are not modelled. An exiting element is treated as gone once the pass ends, so the drawing after a pass is the new key set. The enter origin and the exit target are recorded as values: the saved position before the pass and the new position after layout, as the attribute callbacks read them.
- Path strings from `d3.linkHorizontal` are a foreign call.
- The React lifecycle and the JSON import are framework plumbing. This covers `useEffect`, `useRef`, clearing the SVG and the data import. The data is a parameter of `Mount`.
- `src/App.jsx` is not part of this model: it is a static page shell.
- The `type`/`url` fields of a record only choose how a label is drawn, so a `Datum` carries only a name and its children.
- A missing (`null`/`undefined`) child list is the empty sequence. d3 never leaves an empty array behind here, so `if (d.children)` is `children != []`.
- A missing id is `0`, as `d.id ||` treats it. The counter starts at 0 and pre-increments, so real ids start at 1.
- OsintGraph.OsintTree.Collapse: it does not promise that every descendant of `d` ends without visible children. `collapse` only walks through `children`, so a node below an already collapsed one keeps whatever was expanded under it. The contract states exactly that.
- OsintGraph.OsintTree.Click: it does not state which keys enter or exit. Those are given only through `Diff` of the drawing before and after, and the visibility change that `Toggle` states. It also does not repeat `Update`'s promise that nodes hidden after the click keep their coordinates and saved positions, because that frame over three heaps is too costly to prove. Nor does it restate that the drawn list is the breadth-first order of the tree after the toggle; `Update` states that for the tree it starts from.
- OsintGraph.Mount: it states that the ids are non-zero, distinct and within the counter, not that they are exactly `1..n`. It does not restate the breadth-first order of the drawn list; `Update` states it.
