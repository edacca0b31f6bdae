/** The treemap renderer (`nodeToItem`, `buildTreemap`) and the glue that
    feeds it (`processGraph` in the routes package). */
module Treemap {
  import opened Model
  import Builder
  import opened Breadcrumb

  /** `TreemapItem`. A child slot is `None` where Go leaves a nil pointer;
      `value` is 0 where Go leaves the field unset. */
  datatype TreemapItem = TreemapItem(children: seq<Option<TreemapItem>>, name: string, colName: string, value: int)

  /** Column label of a depth: none at the top level, `level<depth>` below. */
  function ColName(depth: int): (r: string)
    ensures depth <= 1 ==> r == ""
    ensures depth > 1 ==>
              && |r| > 5 && r[..5] == "level"
              && (forall i | 5 <= i < |r| :: IsDigit(r[i]))
              && DigitsValue(r[5..]) == depth
  {
    if depth > 1 then
      var r := "level" + NatToString(depth);
      assert r[5..] == NatToString(depth);
      r
    else ""
  }

  /** `nodeToItem(maxDepth, depth, node)`. */
  function NodeToItem(maxDepth: int, depth: int, t: Tree): (r: TreemapItem)
    decreases t
    ensures r.name == t.data.tag
    ensures r.colName == ColName(depth)
    ensures |r.children| == |t.children|
    ensures forall i | 0 <= i < |r.children| :: r.children[i].Some? <==> depth < maxDepth
    ensures forall i | 0 <= i < |r.children| && r.children[i].Some? ::
              r.children[i].value.name == t.children[i].data.tag
    ensures r.value == 1 <==> |t.children| == 0
    ensures r.value == 0 || r.value == 1
  {
    var slots := if depth < maxDepth then ChildItems(maxDepth, depth + 1, t.children) else Nils(|t.children|);
    TreemapItem(slots, t.data.tag, ColName(depth), if |slots| == 0 then 1 else 0)
  }

  /** The filled slots: one rendered item per child, in child order. */
  function ChildItems(maxDepth: int, depth: int, ts: seq<Tree>): (r: seq<Option<TreemapItem>>)
    decreases ts
    ensures |r| == |ts|
    ensures forall i | 0 <= i < |ts| :: r[i].Some? && r[i].value.name == ts[i].data.tag
  {
    if |ts| == 0 then [] else [Some(NodeToItem(maxDepth, depth, ts[0]))] + ChildItems(maxDepth, depth, ts[1..])
  }

  /** The item reached from `item` by following the slots at `path`, or
      `None` when a position is out of range or its slot is nil. */
  function ItemAt(item: TreemapItem, path: seq<int>): Option<TreemapItem>
    decreases |path|
  {
    if |path| == 0 then Some(item)
    else if 0 <= path[0] < |item.children| && item.children[path[0]].Some? then
      ItemAt(item.children[path[0]].value, path[1..])
    else None
  }

  /** Slot i holds child i rendered one level down. */
  lemma {:induction false} ChildItemsAre(maxDepth: int, depth: int, ts: seq<Tree>)
    ensures forall i | 0 <= i < |ts| :: ChildItems(maxDepth, depth, ts)[i] == Some(NodeToItem(maxDepth, depth, ts[i]))
    decreases ts
  {
    if |ts| > 0 {
      var r := ChildItems(maxDepth, depth, ts);
      var rest := ChildItems(maxDepth, depth, ts[1..]);
      assert r == [Some(NodeToItem(maxDepth, depth, ts[0]))] + rest;
      ChildItemsAre(maxDepth, depth, ts[1..]);
      forall i | 1 <= i < |ts|
        ensures r[i] == Some(NodeToItem(maxDepth, depth, ts[i]))
      {
        assert r[i] == rest[i - 1] && ts[1..][i - 1] == ts[i];
      }
    }
  }

  /** `it` is the item of `node` rendered at `depth`, as far as the item
      itself goes: tag, column label, slot count and leaf mark. */
  ghost predicate RenderedAs(it: Option<TreemapItem>, node: Tree, depth: int)
  {
    && it.Some?
    && it.value.name == node.data.tag
    && it.value.colName == ColName(depth)
    && |it.value.children| == |node.children|
    && (it.value.value == 1 <==> |node.children| == 0)
  }

  /** Every node within the depth limit is rendered: the item at a path is
      the node's own item at its depth, with the node's tag, the column
      label of that depth, one slot per child, and `Value` 1 exactly when
      the node has no children. */
  lemma {:induction false} NodeToItemAt(maxDepth: int, depth: int, t: Tree, path: seq<int>)
    requires IsPath(t, path)
    requires |path| == 0 || depth + |path| - 1 < maxDepth
    ensures RenderedAs(ItemAt(NodeToItem(maxDepth, depth, t), path), Subtree(t, path), depth + |path|)
    decreases |path|
  {
    var item := NodeToItem(maxDepth, depth, t);
    if |path| == 0 {
      assert ItemAt(item, path) == Some(item) && Subtree(t, path) == t;
    } else {
      var i := path[0];
      var c := t.children[i];
      var ci := NodeToItem(maxDepth, depth + 1, c);
      assert item.children[i] == Some(ci) by {
        ChildItemsAre(maxDepth, depth + 1, t.children);
      }
      ItemAtStep(item, path);
      SubtreeStep(t, path);
      NodeToItemAt(maxDepth, depth + 1, c, path[1..]);
      assert depth + 1 + |path[1..]| == depth + |path|;
    }
  }

  lemma ItemAtStep(item: TreemapItem, path: seq<int>)
    requires |path| > 0 && 0 <= path[0] < |item.children| && item.children[path[0]].Some?
    ensures ItemAt(item, path) == ItemAt(item.children[path[0]].value, path[1..])
  {
  }

  /** `make([]*TreemapItem, n)`: n nil slots. */
  function Nils(n: nat): (r: seq<Option<TreemapItem>>)
    ensures |r| == n && forall i | 0 <= i < n :: r[i] == None
  {
    seq(n, _ => None)
  }

  /** `buildTreemap`: render from the root at depth 1. */
  function BuildTreemap(g: Graph, maxDepth: int): (r: TreemapItem)
    ensures r.name == g.root.data.tag && r.colName == ""
    ensures |r.children| == |g.root.children|
    ensures Levels(r) == if 1 < maxDepth then Min(Height(g.root), maxDepth) else 1
  {
    TreemapLevels(maxDepth, 1, g.root);
    NodeToItem(maxDepth, 1, g.root)
  }

  // ---------------------------------------------------------------------
  // Depth truncation.

  /** Levels actually rendered: 1 for the item, plus the deepest filled slot. */
  function Levels(item: TreemapItem): nat
    decreases item
  {
    1 + MaxLevels(item.children)
  }

  function MaxLevels(slots: seq<Option<TreemapItem>>): nat
    decreases slots
  {
    if |slots| == 0 then 0
    else
      match slots[0]
      case None => MaxLevels(slots[1..])
      case Some(item) =>
        assert item < slots[0];
        Max(Levels(item), MaxLevels(slots[1..]))
  }

  lemma {:induction false} NilsHaveNoLevels(n: nat)
    ensures MaxLevels(Nils(n)) == 0
  {
    if n > 0 {
      assert Nils(n)[1..] == Nils(n - 1);
      NilsHaveNoLevels(n - 1);
    }
  }

  /** The rendered item goes as deep as the tree, but no deeper than the
      levels from `depth` to `maxDepth`; one level when `depth >= maxDepth`. */
  lemma {:induction false} TreemapLevels(maxDepth: int, depth: int, t: Tree)
    ensures Levels(NodeToItem(maxDepth, depth, t)) == if depth < maxDepth then Min(Height(t), maxDepth - depth + 1) else 1
    decreases t
  {
    if depth < maxDepth {
      ChildItemsLevels(maxDepth, depth + 1, t.children);
    } else {
      NilsHaveNoLevels(|t.children|);
    }
  }

  lemma {:induction false} ChildItemsLevels(maxDepth: int, depth: int, ts: seq<Tree>)
    requires depth <= maxDepth
    ensures MaxLevels(ChildItems(maxDepth, depth, ts)) == Min(MaxHeight(ts), maxDepth - depth + 1)
    decreases ts
  {
    if |ts| > 0 {
      TreemapLevels(maxDepth, depth, ts[0]);
      ChildItemsLevels(maxDepth, depth, ts[1..]);
      assert ChildItems(maxDepth, depth, ts)[1..] == ChildItems(maxDepth, depth, ts[1..]);
    }
  }

  /** A tree that fits within the depth limit is rendered completely: no
      slot anywhere is left nil. */
  ghost predicate Complete(item: TreemapItem)
    decreases item
  {
    forall i | 0 <= i < |item.children| :: item.children[i].Some? && Complete(item.children[i].value)
  }

  lemma {:induction false} TreemapCompleteWhenShallow(maxDepth: int, depth: int, t: Tree)
    requires Height(t) <= maxDepth - depth + 1
    ensures Complete(NodeToItem(maxDepth, depth, t))
    decreases t
  {
    if depth < maxDepth {
      ChildItemsComplete(maxDepth, depth + 1, t.children);
      assert NodeToItem(maxDepth, depth, t).children == ChildItems(maxDepth, depth + 1, t.children);
    } else {
      LowTreeIsLeaf(t);
    }
  }

  lemma {:induction false} ChildItemsComplete(maxDepth: int, depth: int, ts: seq<Tree>)
    requires MaxHeight(ts) <= maxDepth - depth + 1
    ensures var r := ChildItems(maxDepth, depth, ts);
            forall i | 0 <= i < |r| :: Complete(r[i].value)
    decreases ts
  {
    if |ts| > 0 {
      TreemapCompleteWhenShallow(maxDepth, depth, ts[0]);
      ChildItemsComplete(maxDepth, depth, ts[1..]);
      var r := ChildItems(maxDepth, depth, ts);
      assert r[1..] == ChildItems(maxDepth, depth, ts[1..]);
      forall i | 0 <= i < |r|
        ensures Complete(r[i].value)
      {
        if i > 0 {
          assert r[i] == r[1..][i - 1];
        }
      }
    }
  }

  /** A depth limit of 1 renders the root alone: every slot nil, and the
      root marked as a leaf only when it has no children. */
  lemma TreemapDepthOne(g: Graph)
    ensures var r := BuildTreemap(g, 1);
            && r.name == g.root.data.tag && r.colName == ""
            && |r.children| == |g.root.children|
            && (forall i | 0 <= i < |r.children| :: r.children[i] == None)
            && (r.value == 1 <==> |g.root.children| == 0)
  {
  }

  /** A node with children that the depth limit cuts off keeps one nil slot
      per child and, its slice not being empty, gets no `Value`: it is
      marked neither as a leaf nor by any rendered child. */
  lemma TruncatedInteriorHasNoValue(maxDepth: int, depth: int, t: Tree)
    requires depth >= maxDepth && |t.children| > 0
    ensures var r := NodeToItem(maxDepth, depth, t);
            && |r.children| == |t.children|
            && (forall i | 0 <= i < |r.children| :: r.children[i] == None)
            && r.value == 0
  {
  }

  /** The smallest such input: a root with one childless child, limit 1. */
  lemma TruncatedRootExample()
    ensures var r := BuildTreemap(Graph("", Node("", Blank, [Node("", Blank, [])])), 1);
            r.children == [None] && r.value == 0
  {
    TruncatedInteriorHasNoValue(1, 1, Node("", Blank, [Node("", Blank, [])]));
  }

  // ---------------------------------------------------------------------
  // The evident intent: a truncated node renders as a leaf.

  /** `nodeToItem` with the children list left empty at the depth limit
      instead of filled with nil slots. */
  function NodeToItemPruned(maxDepth: int, depth: int, t: Tree): (r: TreemapItem)
    decreases t
    ensures r.name == t.data.tag
    ensures r.colName == ColName(depth)
    ensures depth < maxDepth ==> |r.children| == |t.children|
    ensures depth >= maxDepth ==> |r.children| == 0
    ensures forall i | 0 <= i < |r.children| :: r.children[i].Some?
    ensures r.value == 1 <==> |r.children| == 0
    ensures r.value == 0 || r.value == 1
  {
    var slots := if depth < maxDepth then PrunedChildItems(maxDepth, depth + 1, t.children) else [];
    TreemapItem(slots, t.data.tag, ColName(depth), if |slots| == 0 then 1 else 0)
  }

  function PrunedChildItems(maxDepth: int, depth: int, ts: seq<Tree>): (r: seq<Option<TreemapItem>>)
    decreases ts
    ensures |r| == |ts|
    ensures forall i | 0 <= i < |ts| :: r[i].Some?
  {
    if |ts| == 0 then [] else [Some(NodeToItemPruned(maxDepth, depth, ts[0]))] + PrunedChildItems(maxDepth, depth, ts[1..])
  }

  /** `buildTreemap` over the corrected renderer. */
  function BuildTreemapPruned(g: Graph, maxDepth: int): (r: TreemapItem)
    ensures LeafMarked(r)
    ensures Height(g.root) <= maxDepth ==> r == BuildTreemap(g, maxDepth)
  {
    var r := NodeToItemPruned(maxDepth, 1, g.root);
    PrunedIsLeafMarked(maxDepth, 1, g.root);
    assert Height(g.root) <= maxDepth ==> r == BuildTreemap(g, maxDepth) by {
      if Height(g.root) <= maxDepth {
        PrunedAgreesWhenShallow(maxDepth, 1, g.root);
      }
    }
    r
  }

  /** Pruned items never carry a nil slot, and an item is marked as a leaf
      exactly when nothing is rendered below it. */
  ghost predicate LeafMarked(item: TreemapItem)
    decreases item
  {
    && (item.value == 1 <==> |item.children| == 0)
    && forall i | 0 <= i < |item.children| :: item.children[i].Some? && LeafMarked(item.children[i].value)
  }

  lemma {:induction false} PrunedIsLeafMarked(maxDepth: int, depth: int, t: Tree)
    ensures LeafMarked(NodeToItemPruned(maxDepth, depth, t))
    decreases t
  {
    if depth < maxDepth {
      PrunedChildrenLeafMarked(maxDepth, depth + 1, t.children);
      assert NodeToItemPruned(maxDepth, depth, t).children == PrunedChildItems(maxDepth, depth + 1, t.children);
    }
  }

  lemma {:induction false} PrunedChildrenLeafMarked(maxDepth: int, depth: int, ts: seq<Tree>)
    ensures var r := PrunedChildItems(maxDepth, depth, ts);
            forall i | 0 <= i < |r| :: LeafMarked(r[i].value)
    decreases ts
  {
    if |ts| > 0 {
      PrunedIsLeafMarked(maxDepth, depth, ts[0]);
      PrunedChildrenLeafMarked(maxDepth, depth, ts[1..]);
      var r := PrunedChildItems(maxDepth, depth, ts);
      assert r[1..] == PrunedChildItems(maxDepth, depth, ts[1..]);
      forall i | 0 <= i < |r|
        ensures LeafMarked(r[i].value)
      {
        if i > 0 {
          assert r[i] == r[1..][i - 1];
        }
      }
    }
  }

  /** Where the tree fits within the limit, the two renderings agree. */
  lemma {:induction false} PrunedAgreesWhenShallow(maxDepth: int, depth: int, t: Tree)
    requires Height(t) <= maxDepth - depth + 1
    ensures NodeToItemPruned(maxDepth, depth, t) == NodeToItem(maxDepth, depth, t)
    decreases t
  {
    if depth < maxDepth {
      PrunedChildrenAgree(maxDepth, depth + 1, t.children);
    } else {
      LowTreeIsLeaf(t);
      assert Nils(0) == [];
    }
  }

  lemma {:induction false} PrunedChildrenAgree(maxDepth: int, depth: int, ts: seq<Tree>)
    requires MaxHeight(ts) <= maxDepth - depth + 1
    ensures PrunedChildItems(maxDepth, depth, ts) == ChildItems(maxDepth, depth, ts)
    decreases ts
  {
    if |ts| > 0 {
      PrunedAgreesWhenShallow(maxDepth, depth, ts[0]);
      PrunedChildrenAgree(maxDepth, depth, ts[1..]);
    }
  }

  // ---------------------------------------------------------------------
  // `processGraph` (routes package).

  /** Resolve breadcrumbs with "/" from the node under "" and keep the first
      node listed, which is the first child of that node. Go indexes `[0]`
      of the list, so the node under "" must exist and have a child. */
  function ProcessGraph(url: string, a: Builder.Arena): (g: Graph)
    requires Builder.HasWalkableRoot(a) && |a.nodes[a.index[""]].children| > 0
    ensures g.url == url
    ensures var first := Builder.Extract(a, Builder.Child(a, a.index[""], 0));
            && g.root == BuildBreadCrumb(Some("/"), first, "/", []).tree
            && Strip(g.root) == Strip(first)
    ensures g.root.data.fullName == "/" + g.root.data.tag + "/"
  {
    var root := Builder.RootTree(a);
    var crumbs := BuildBreadCrumb(None, root, "/", []);
    FirstProcessedIsFirstChild(root, "/");
    assert crumbs.tree.children == ResolveChildren("/", root.children, "/").trees;
    ChildrenAreResolved("/", root.children, "/");
    assert root.children[0] == Builder.Extract(a, Builder.Child(a, a.index[""], 0));
    BreadCrumbKeepsShape(Some("/"), root.children[0], "/", []);
    Graph(url, crumbs.processed[0])
  }

  /** Every crawl whose first page has a parent other than itself and where
      no page has the empty URL can be handed to `processGraph`; later pages
      may name themselves as parent. */
  lemma ProcessGraphDefinedAfterCrawl(pages: seq<Proposition>)
    requires |pages| > 0 && pages[0].url != pages[0].parentUrl
    requires forall i | 0 <= i < |pages| :: pages[i].url != ""
    ensures var a := Builder.Build(pages);
            && Builder.HasWalkableRoot(a) && |a.nodes[a.index[""]].children| > 0
  {
    Builder.BuildWalkable(pages);
    Builder.BuildRootHasChild(pages);
  }
}
