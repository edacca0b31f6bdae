/** The treegraph renderer (`nodeToGraphItem`, `buildTreeGraph`) and the
    glue that feeds it (`processTreegraph`).

    Go threads one shared `ids` map through the whole walk; here the set is
    passed in and the updated set handed back, left to right. */
module Treegraph {
  import opened Model
  import Builder
  import opened Breadcrumb

  /** `TreeGraphItem`; `value` is 0 where Go leaves the field unset. */
  datatype TreeGraphItem = TreeGraphItem(id: string, value: int)

  datatype TreeGraph = TreeGraph(items: seq<TreeGraphItem>)

  /** The items a walk emitted, and the `ids` set once it is done. */
  datatype Walk = Walk(items: seq<TreeGraphItem>, ids: set<string>)

  /** Every node the walk reaches has a non-empty name, as Go's
      `FullName[:len(FullName)-1]` demands. */
  ghost predicate Named(t: Tree, depth: int, maxDepth: int)
    decreases t
  {
    && |t.data.fullName| > 0
    && (depth < maxDepth ==> forall i | 0 <= i < |t.children| :: Named(t.children[i], depth + 1, maxDepth))
  }

  /** The item for a name: the name without its final separator, marked as a
      leaf or not. */
  function ItemOf(fullName: string, leaf: bool): (it: TreeGraphItem)
    requires |fullName| > 0
    ensures it.id + [fullName[|fullName| - 1]] == fullName
    ensures it.value == 1 <==> leaf
    ensures it.value == 0 || it.value == 1
  {
    TreeGraphItem(fullName[..|fullName| - 1], if leaf then 1 else 0)
  }

  /** `nodeToGraphItem(ids, maxDepth, depth, node)`. */
  function NodeToGraphItem(ids: set<string>, maxDepth: int, depth: int, t: Tree): (r: Walk)
    requires Named(t, depth, maxDepth)
    decreases t
    ensures ids + {t.data.fullName} <= r.ids
    ensures t.data.fullName !in ids ==> |r.items| > 0 && r.items[0] == ItemOf(t.data.fullName, |t.children| == 0)
    ensures depth >= maxDepth ==>
              && r.ids == ids + {t.data.fullName}
              && r.items == if t.data.fullName in ids then [] else [ItemOf(t.data.fullName, |t.children| == 0)]
  {
    var name := t.data.fullName;
    var item := ItemOf(name, |t.children| == 0);
    var own := if name in ids then [] else [item];
    var seen := ids + {name};
    var kids := if depth < maxDepth then ChildrenToGraphItems(seen, maxDepth, depth + 1, t.children) else Walk([], seen);
    Walk(own + kids.items, kids.ids)
  }

  /** The `for _, c := range node.Neighbours` loop, `ids` threaded through. */
  function ChildrenToGraphItems(ids: set<string>, maxDepth: int, depth: int, ts: seq<Tree>): (r: Walk)
    requires forall i | 0 <= i < |ts| :: Named(ts[i], depth, maxDepth)
    decreases ts
    ensures ids <= r.ids
  {
    if |ts| == 0 then Walk([], ids)
    else
      var first := NodeToGraphItem(ids, maxDepth, depth, ts[0]);
      var rest := ChildrenToGraphItems(first.ids, maxDepth, depth, ts[1..]);
      Walk(first.items + rest.items, rest.ids)
  }

  /** `buildTreeGraph`: walk from the root at depth 1 with no name seen. */
  function BuildTreeGraph(g: Graph, maxDepth: int): (r: TreeGraph)
    requires Named(g.root, 1, maxDepth)
    ensures var vs := Visits(g.root, 1, maxDepth);
            NamesNonEmpty(vs) && r.items == Render(Firsts({}, vs))
  {
    WalkIsFirstVisits({}, maxDepth, 1, g.root);
    TreeGraph(NodeToGraphItem({}, maxDepth, 1, g.root).items)
  }

  // ---------------------------------------------------------------------
  // Reference: filter the depth-limited pre-order for first occurrences.

  /** A node reached by the walk: its name, whether it has no children, and
      its depth. */
  datatype Visit = Visit(fullName: string, leaf: bool, depth: int)

  /** The nodes reached from `t` at `depth`, in pre-order, children entered
      only while `depth < maxDepth`. */
  function Visits(t: Tree, depth: int, maxDepth: int): seq<Visit>
    decreases t
  {
    [Visit(t.data.fullName, |t.children| == 0, depth)]
      + (if depth < maxDepth then VisitsOf(t.children, depth + 1, maxDepth) else [])
  }

  function VisitsOf(ts: seq<Tree>, depth: int, maxDepth: int): seq<Visit>
    decreases ts
  {
    if |ts| == 0 then [] else Visits(ts[0], depth, maxDepth) + VisitsOf(ts[1..], depth, maxDepth)
  }

  function Names(vs: seq<Visit>): set<string>
  {
    if |vs| == 0 then {} else {vs[0].fullName} + Names(vs[1..])
  }

  /** The visits whose name is neither in `ids` nor taken by an earlier visit. */
  function Firsts(ids: set<string>, vs: seq<Visit>): (r: seq<Visit>)
    decreases |vs|
    ensures forall v | v in r :: v in vs
  {
    if |vs| == 0 then []
    else if vs[0].fullName in ids then Firsts(ids, vs[1..])
    else [vs[0]] + Firsts(ids + {vs[0].fullName}, vs[1..])
  }

  ghost predicate NamesNonEmpty(vs: seq<Visit>)
  {
    forall v | v in vs :: |v.fullName| > 0
  }

  function Render(vs: seq<Visit>): (r: seq<TreeGraphItem>)
    requires NamesNonEmpty(vs)
    ensures |r| == |vs|
    ensures forall i | 0 <= i < |vs| :: r[i] == ItemOf(vs[i].fullName, vs[i].leaf)
  {
    if |vs| == 0 then [] else [ItemOf(vs[0].fullName, vs[0].leaf)] + Render(vs[1..])
  }

  lemma {:induction false} NamesAppend(a: seq<Visit>, b: seq<Visit>)
    ensures Names(a + b) == Names(a) + Names(b)
  {
    if |a| > 0 {
      assert (a + b)[1..] == a[1..] + b;
      NamesAppend(a[1..], b);
    } else {
      assert a + b == b;
    }
  }

  lemma RenderAppend(a: seq<Visit>, b: seq<Visit>)
    requires NamesNonEmpty(a) && NamesNonEmpty(b)
    ensures NamesNonEmpty(a + b) && Render(a + b) == Render(a) + Render(b)
  {
  }

  lemma {:induction false} FirstsAppend(ids: set<string>, a: seq<Visit>, b: seq<Visit>)
    ensures Firsts(ids, a + b) == Firsts(ids, a) + Firsts(ids + Names(a), b)
    decreases |a|
  {
    if |a| == 0 {
      assert a + b == b;
      assert Firsts(ids, a) == [] && Names(a) == {};
      assert ids + Names(a) == ids;
    } else {
      assert (a + b)[1..] == a[1..] + b;
      var n := a[0].fullName;
      if n in ids {
        FirstsAppend(ids, a[1..], b);
        assert ids + Names(a[1..]) == ids + Names(a);
      } else {
        FirstsAppend(ids + {n}, a[1..], b);
        assert ids + {n} + Names(a[1..]) == ids + Names(a);
      }
    }
  }

  lemma {:induction false} VisitsNamed(t: Tree, depth: int, maxDepth: int)
    requires Named(t, depth, maxDepth)
    ensures NamesNonEmpty(Visits(t, depth, maxDepth))
    decreases t
  {
    if depth < maxDepth {
      VisitsOfNamed(t.children, depth + 1, maxDepth);
    }
  }

  lemma {:induction false} VisitsOfNamed(ts: seq<Tree>, depth: int, maxDepth: int)
    requires forall i | 0 <= i < |ts| :: Named(ts[i], depth, maxDepth)
    ensures NamesNonEmpty(VisitsOf(ts, depth, maxDepth))
    decreases ts
  {
    if |ts| > 0 {
      VisitsNamed(ts[0], depth, maxDepth);
      VisitsOfNamed(ts[1..], depth, maxDepth);
    }
  }

  /** The threaded walk emits, in order, the item of every node it reaches
      whose name was not seen before (not in `ids`, not emitted earlier in
      the walk), and hands back `ids` with every name it reached, emitted or
      not. A suppressed node's children are still walked. */
  lemma {:induction false} WalkIsFirstVisits(ids: set<string>, maxDepth: int, depth: int, t: Tree)
    requires Named(t, depth, maxDepth)
    ensures NamesNonEmpty(Visits(t, depth, maxDepth))
    ensures var vs := Visits(t, depth, maxDepth);
            NodeToGraphItem(ids, maxDepth, depth, t) == Walk(Render(Firsts(ids, vs)), ids + Names(vs))
    decreases t
  {
    VisitsNamed(t, depth, maxDepth);
    var name := t.data.fullName;
    var seen := ids + {name};
    var v := Visit(name, |t.children| == 0, depth);
    var rest := if depth < maxDepth then VisitsOf(t.children, depth + 1, maxDepth) else [];
    var vs := Visits(t, depth, maxDepth);
    assert vs == [v] + rest;
    var kids := if depth < maxDepth then ChildrenToGraphItems(seen, maxDepth, depth + 1, t.children) else Walk([], seen);
    if depth < maxDepth {
      ChildrenWalkIsFirstVisits(seen, maxDepth, depth + 1, t.children);
    } else {
      assert Firsts(seen, rest) == [] && Names(rest) == {};
    }
    var f := Firsts(seen, rest);
    assert kids == Walk(Render(f), seen + Names(rest));
    FirstsCons(ids, v, rest);
    NamesCons(v, rest);
    var own: seq<Visit> := if name in ids then [] else [v];
    RenderAppend(own, f);
  }

  lemma FirstsCons(ids: set<string>, v: Visit, rest: seq<Visit>)
    ensures Firsts(ids, [v] + rest) == (if v.fullName in ids then [] else [v]) + Firsts(ids + {v.fullName}, rest)
  {
    var vs := [v] + rest;
    assert vs[0] == v && vs[1..] == rest;
    if v.fullName in ids {
      assert ids + {v.fullName} == ids;
    }
  }

  lemma NamesCons(v: Visit, rest: seq<Visit>)
    ensures Names([v] + rest) == {v.fullName} + Names(rest)
  {
    var vs := [v] + rest;
    assert vs[0] == v && vs[1..] == rest;
  }

  lemma {:induction false} ChildrenWalkIsFirstVisits(ids: set<string>, maxDepth: int, depth: int, ts: seq<Tree>)
    requires forall i | 0 <= i < |ts| :: Named(ts[i], depth, maxDepth)
    ensures NamesNonEmpty(VisitsOf(ts, depth, maxDepth))
    ensures var vs := VisitsOf(ts, depth, maxDepth);
            ChildrenToGraphItems(ids, maxDepth, depth, ts) == Walk(Render(Firsts(ids, vs)), ids + Names(vs))
    decreases ts
  {
    VisitsOfNamed(ts, depth, maxDepth);
    if |ts| > 0 {
      var a := Visits(ts[0], depth, maxDepth);
      var b := VisitsOf(ts[1..], depth, maxDepth);
      WalkIsFirstVisits(ids, maxDepth, depth, ts[0]);
      ChildrenWalkIsFirstVisits(ids + Names(a), maxDepth, depth, ts[1..]);
      FirstsAppend(ids, a, b);
      NamesAppend(a, b);
      RenderAppend(Firsts(ids, a), Firsts(ids + Names(a), b));
    }
  }

  // ---------------------------------------------------------------------
  // Consequences: depth bound, no repeated names, coverage.

  /** Every node reached lies between `depth` and `max(depth, maxDepth)`. */
  lemma {:induction false} VisitDepths(t: Tree, depth: int, maxDepth: int)
    ensures forall v | v in Visits(t, depth, maxDepth) :: depth <= v.depth <= Max(depth, maxDepth)
    decreases t
  {
    if depth < maxDepth {
      VisitsOfDepths(t.children, depth + 1, maxDepth);
    }
  }

  lemma {:induction false} VisitsOfDepths(ts: seq<Tree>, depth: int, maxDepth: int)
    requires depth <= maxDepth
    ensures forall v | v in VisitsOf(ts, depth, maxDepth) :: depth <= v.depth <= maxDepth
    decreases ts
  {
    if |ts| > 0 {
      VisitDepths(ts[0], depth, maxDepth);
      VisitsOfDepths(ts[1..], depth, maxDepth);
    }
  }

  /** First occurrences carry pairwise distinct names, none of them already
      in `ids`, and between them every name reached outside `ids`. */
  lemma {:induction false} FirstsDistinct(ids: set<string>, vs: seq<Visit>)
    ensures var r := Firsts(ids, vs);
            && (forall i | 0 <= i < |r| :: r[i].fullName !in ids)
            && (forall i, j | 0 <= i < j < |r| :: r[i].fullName != r[j].fullName)
            && Names(r) == Names(vs) - ids
    decreases |vs|
  {
    if |vs| > 0 {
      var n := vs[0].fullName;
      if n in ids {
        FirstsDistinct(ids, vs[1..]);
      } else {
        FirstsDistinct(ids + {n}, vs[1..]);
        var r := Firsts(ids, vs);
        assert r[1..] == Firsts(ids + {n}, vs[1..]);
        forall i, j | 0 <= i < j < |r|
          ensures r[i].fullName != r[j].fullName
        {
          if i > 0 {
            assert r[i] == r[1..][i - 1] && r[j] == r[1..][j - 1];
          } else {
            assert r[j] == r[1..][j - 1];
          }
        }
      }
    }
  }

  /** A depth limit covering the whole tree reaches every node once. */
  lemma {:induction false} VisitsAll(t: Tree, depth: int, maxDepth: int)
    requires Height(t) <= maxDepth - depth + 1
    ensures |Visits(t, depth, maxDepth)| == Size(t)
    decreases t
  {
    if depth < maxDepth {
      VisitsOfAll(t.children, depth + 1, maxDepth);
    } else {
      LowTreeIsLeaf(t);
    }
  }

  lemma {:induction false} VisitsOfAll(ts: seq<Tree>, depth: int, maxDepth: int)
    requires MaxHeight(ts) <= maxDepth - depth + 1
    ensures |VisitsOf(ts, depth, maxDepth)| == SizeOf(ts)
    decreases ts
  {
    if |ts| > 0 {
      VisitsAll(ts[0], depth, maxDepth);
      VisitsOfAll(ts[1..], depth, maxDepth);
    }
  }

  /** `buildTreeGraph` in one statement: the first occurrences among the
      nodes reached from the root at depth 1, none deeper than
      `max(1, maxDepth)`, each name emitted once. */
  lemma BuildTreeGraphFirstVisits(g: Graph, maxDepth: int)
    requires Named(g.root, 1, maxDepth)
    ensures var vs := Visits(g.root, 1, maxDepth);
            && NamesNonEmpty(vs)
            && BuildTreeGraph(g, maxDepth).items == Render(Firsts({}, vs))
            && (forall v | v in vs :: 1 <= v.depth <= Max(1, maxDepth))
            && (forall i, j | 0 <= i < j < |Firsts({}, vs)| :: Firsts({}, vs)[i].fullName != Firsts({}, vs)[j].fullName)
            && Names(Firsts({}, vs)) == Names(vs)
  {
    WalkIsFirstVisits({}, maxDepth, 1, g.root);
    VisitDepths(g.root, 1, maxDepth);
    FirstsDistinct({}, Visits(g.root, 1, maxDepth));
  }

  // ---------------------------------------------------------------------
  // `processTreegraph`.

  /** The record `processTreegraph` gives the root. */
  function HomeData(url: string): Proposition
  {
    Blank.(url := url, id := url, fullName := "HOME.")
  }

  /** Rename the node under "" to the site URL with breadcrumb "HOME.", then
      resolve each child subtree below it with separator ".". */
  function ProcessTreegraph(url: string, a: Builder.Arena): (g: Graph)
    requires Builder.HasWalkableRoot(a)
    ensures g.url == url && g.root.key == url && g.root.data == HomeData(url)
    ensures var old_ := Builder.RootTree(a).children;
            && |g.root.children| == |old_|
            && forall i | 0 <= i < |old_| ::
                 && g.root.children[i] == BuildBreadCrumb(Some("HOME."), old_[i], ".", []).tree
                 && Strip(g.root.children[i]) == Strip(old_[i])
                 && g.root.children[i].data.fullName == "HOME." + old_[i].data.tag + "."
    ensures Framed(g.root, "HOME.", ".")
  {
    var root := Builder.RootTree(a);
    var kids := ResolveUnderHome(root.children);
    var g := Graph(url, Node(url, HomeData(url), kids));
    assert "HOME."[|"HOME."| - 1..] == ".";
    g
  }

  /** `root.Neighbours[i] = buildBreadCrumb(root, c, ".", [])[0]`. */
  function ResolveUnderHome(ts: seq<Tree>): (r: seq<Tree>)
    ensures |r| == |ts|
    ensures forall i | 0 <= i < |ts| ::
              && r[i] == BuildBreadCrumb(Some("HOME."), ts[i], ".", []).tree
              && Strip(r[i]) == Strip(ts[i])
              && r[i].data.fullName == "HOME." + ts[i].data.tag + "."
              && Framed(r[i], "HOME.", ".")
  {
    var r := seq(|ts|, i requires 0 <= i < |ts| => BuildBreadCrumb(Some("HOME."), ts[i], ".", []).processed[0]);
    assert forall i | 0 <= i < |ts| :: Strip(r[i]) == Strip(ts[i]) && Framed(r[i], "HOME.", ".") by {
      forall i | 0 <= i < |ts|
        ensures Strip(r[i]) == Strip(ts[i]) && Framed(r[i], "HOME.", ".")
      {
        BreadCrumbKeepsShape(Some("HOME."), ts[i], ".", []);
        BreadCrumbFramed(Some("HOME."), ts[i], ".", []);
      }
    }
    r
  }

  lemma {:induction false} FramedIsNamed(t: Tree, prefix: string, sep: string, depth: int, maxDepth: int)
    requires Framed(t, prefix, sep) && |sep| > 0
    ensures Named(t, depth, maxDepth)
    decreases t
  {
    forall i | 0 <= i < |t.children|
      ensures Named(t.children[i], depth + 1, maxDepth)
    {
      FramedIsNamed(t.children[i], prefix, sep, depth + 1, maxDepth);
    }
  }

  lemma {:induction false} FramedVisits(t: Tree, prefix: string, sep: string, depth: int, maxDepth: int)
    requires Framed(t, prefix, sep)
    ensures forall v | v in Visits(t, depth, maxDepth) ::
              |sep| <= |v.fullName| && v.fullName[|v.fullName| - |sep|..] == sep
    decreases t
  {
    if depth < maxDepth {
      FramedVisitsOf(t.children, prefix, sep, depth + 1, maxDepth);
    }
  }

  lemma {:induction false} FramedVisitsOf(ts: seq<Tree>, prefix: string, sep: string, depth: int, maxDepth: int)
    requires forall i | 0 <= i < |ts| :: Framed(ts[i], prefix, sep)
    ensures forall v | v in VisitsOf(ts, depth, maxDepth) ::
              |sep| <= |v.fullName| && v.fullName[|v.fullName| - |sep|..] == sep
    decreases ts
  {
    if |ts| > 0 {
      FramedVisits(ts[0], prefix, sep, depth, maxDepth);
      FramedVisitsOf(ts[1..], prefix, sep, depth, maxDepth);
    }
  }

  /** The treegraph served for a crawl is defined for every depth limit, and
      no two of its items share an id: names are only emitted once, and all
      of them end in ".", so stripping that last character keeps them apart. */
  lemma TreegraphIdsUnique(url: string, a: Builder.Arena, maxDepth: int)
    requires Builder.HasWalkableRoot(a)
    ensures var g := ProcessTreegraph(url, a);
            && Named(g.root, 1, maxDepth)
            && var items := BuildTreeGraph(g, maxDepth).items;
               forall i, j | 0 <= i < j < |items| :: items[i].id != items[j].id
  {
    FramedIdsUnique(ProcessTreegraph(url, a), "HOME.", maxDepth);
  }

  /** The same for any graph whose names all end in ".". */
  lemma FramedIdsUnique(g: Graph, prefix: string, maxDepth: int)
    requires Framed(g.root, prefix, ".")
    ensures && Named(g.root, 1, maxDepth)
            && var items := BuildTreeGraph(g, maxDepth).items;
               forall i, j | 0 <= i < j < |items| :: items[i].id != items[j].id
  {
    FramedIsNamed(g.root, prefix, ".", 1, maxDepth);
    BuildTreeGraphFirstVisits(g, maxDepth);
    FramedVisits(g.root, prefix, ".", 1, maxDepth);
    var vs := Visits(g.root, 1, maxDepth);
    var fs := Firsts({}, vs);
    var items := BuildTreeGraph(g, maxDepth).items;
    forall i, j | 0 <= i < j < |items|
      ensures items[i].id != items[j].id
    {
      assert fs[i] in vs && fs[j] in vs;
      assert items[i].id + "." == fs[i].fullName;
      assert items[j].id + "." == fs[j].fullName;
    }
  }
}
