/** The breadcrumb resolver (`buildBreadCrumb`): a pre-order walk that gives
    every node its full hierarchical name and lists the non-root nodes it
    visited.

    Go writes `FullName` into the shared node and appends the node pointer to
    `alreadyProcessed`. Every pointee is final once the walk returns (each
    node is written once, before its children), so the list is modelled by
    the final values of the nodes it points to, and the walk returns the
    resolved tree beside the list. The list is only ever appended to, so the
    model resolves the children first and then writes `acc + [me] + theirs`. */
module Breadcrumb {
  import opened Model

  /** Result of a walk: the resolved subtree and the list of visited nodes. */
  datatype Crumbs = Crumbs(tree: Tree, processed: seq<Tree>)

  /** Result of walking a child list: the resolved children and, in order,
      every node visited below them. */
  datatype Forest = Forest(trees: seq<Tree>, visited: seq<Tree>)

  /** The name a node receives: the separator alone for the root (no
      parent), otherwise the parent's name, the node's tag and the separator.
      `parent` is the parent's full name, the only thing read from it. */
  function NameFor(parent: Option<string>, tag: string, sep: string): string
  {
    match parent
    case None => sep
    case Some(pf) => pf + tag + sep
  }

  /** `buildBreadCrumb(parent, current, separator, alreadyProcessed)`. */
  function BuildBreadCrumb(parent: Option<string>, current: Tree, sep: string, acc: seq<Tree>): (r: Crumbs)
    decreases current
    ensures r.tree.data.fullName == NameFor(parent, current.data.tag, sep)
    ensures r.tree.key == current.key && r.tree.data == current.data.(fullName := r.tree.data.fullName)
    ensures |r.tree.children| == |current.children|
    ensures |r.processed| == |acc| + Size(current) - (if parent.None? then 1 else 0)
    ensures r.processed[..|acc|] == acc
    ensures parent.Some? ==> r.processed[|acc|] == r.tree
  {
    var name := NameFor(parent, current.data.tag, sep);
    var kids := ResolveChildren(name, current.children, sep);
    var me := Node(current.key, current.data.(fullName := name), kids.trees);
    var processed := if parent.None? then acc + kids.visited else acc + [me] + kids.visited;
    assert processed[..|acc|] == acc;
    Crumbs(me, processed)
  }

  /** The `for _, c := range current.Neighbours` loop: each child resolved
      under the parent's name, results concatenated in child order. */
  function ResolveChildren(parentName: string, ts: seq<Tree>, sep: string): (r: Forest)
    decreases ts
    ensures |r.trees| == |ts|
    ensures |r.visited| == SizeOf(ts)
  {
    if |ts| == 0 then Forest([], [])
    else
      var first := BuildBreadCrumb(Some(parentName), ts[0], sep, []);
      var rest := ResolveChildren(parentName, ts[1..], sep);
      Forest([first.tree] + rest.trees, first.processed + rest.visited)
  }

  // ---------------------------------------------------------------------
  // The visited list is the pre-order of the resolved tree.

  lemma {:induction false} ChildrenAreResolved(parentName: string, ts: seq<Tree>, sep: string)
    ensures forall i | 0 <= i < |ts| ::
              ResolveChildren(parentName, ts, sep).trees[i] == BuildBreadCrumb(Some(parentName), ts[i], sep, []).tree
    decreases ts
  {
    if |ts| > 0 {
      ChildrenAreResolved(parentName, ts[1..], sep);
      var r := ResolveChildren(parentName, ts, sep);
      forall i | 0 <= i < |ts|
        ensures r.trees[i] == BuildBreadCrumb(Some(parentName), ts[i], sep, []).tree
      {
        if i > 0 {
          assert ts[1..][i - 1] == ts[i];
        }
      }
    }
  }

  /** `buildBreadCrumb` returns `acc` followed by the resolved nodes in
      pre-order, the root itself left out when it has no parent. */
  lemma {:induction false} BreadCrumbPreOrder(parent: Option<string>, t: Tree, sep: string, acc: seq<Tree>)
    ensures var r := BuildBreadCrumb(parent, t, sep, acc);
            r.processed == acc + (if parent.None? then PreOrder(r.tree)[1..] else PreOrder(r.tree))
    decreases t
  {
    var name := NameFor(parent, t.data.tag, sep);
    var kids := ResolveChildren(name, t.children, sep);
    var me := Node(t.key, t.data.(fullName := name), kids.trees);
    assert kids.visited == PreOrderOf(kids.trees) by {
      ResolveChildrenPreOrder(name, t.children, sep);
    }
    assert BuildBreadCrumb(parent, t, sep, acc)
             == Crumbs(me, if parent.None? then acc + kids.visited else acc + [me] + kids.visited) by {
      BreadCrumbUnfold(parent, t, sep, acc);
    }
    assert PreOrder(me) == [me] + kids.visited;
    if parent.None? {
      assert PreOrder(me)[1..] == kids.visited;
    } else {
      assert acc + [me] + kids.visited == acc + PreOrder(me);
    }
  }

  /** One step of the walk, spelled out. */
  lemma BreadCrumbUnfold(parent: Option<string>, t: Tree, sep: string, acc: seq<Tree>)
    ensures var name := NameFor(parent, t.data.tag, sep);
            var kids := ResolveChildren(name, t.children, sep);
            var me := Node(t.key, t.data.(fullName := name), kids.trees);
            BuildBreadCrumb(parent, t, sep, acc)
              == Crumbs(me, if parent.None? then acc + kids.visited else acc + [me] + kids.visited)
  {
  }

  lemma {:induction false} ResolveChildrenPreOrder(parentName: string, ts: seq<Tree>, sep: string)
    ensures var r := ResolveChildren(parentName, ts, sep);
            r.visited == PreOrderOf(r.trees)
    decreases ts
  {
    if |ts| > 0 {
      BreadCrumbPreOrder(Some(parentName), ts[0], sep, []);
      ResolveChildrenPreOrder(parentName, ts[1..], sep);
      var r := ResolveChildren(parentName, ts, sep);
      assert r.trees[1..] == ResolveChildren(parentName, ts[1..], sep).trees;
    }
  }

  /** With no parent, the first node listed is the resolved first child of
      the root. */
  lemma FirstProcessedIsFirstChild(t: Tree, sep: string)
    requires |t.children| > 0
    ensures var r := BuildBreadCrumb(None, t, sep, []);
            |r.processed| > 0 && r.processed[0] == r.tree.children[0]
  {
    var r := BuildBreadCrumb(None, t, sep, []);
    BreadCrumbPreOrder(None, t, sep, []);
    var kids := r.tree.children;
    assert PreOrderOf(kids) == PreOrder(kids[0]) + PreOrderOf(kids[1..]);
    assert PreOrder(r.tree)[1..] == PreOrderOf(kids);
  }

  // ---------------------------------------------------------------------
  // Only `fullName` changes, and it is recomputed from scratch.

  /** The walk changes nothing but the breadcrumbs. */
  lemma {:induction false} BreadCrumbKeepsShape(parent: Option<string>, t: Tree, sep: string, acc: seq<Tree>)
    ensures Strip(BuildBreadCrumb(parent, t, sep, acc).tree) == Strip(t)
    decreases t
  {
    var name := NameFor(parent, t.data.tag, sep);
    ResolveChildrenKeepShape(name, t.children, sep);
  }

  lemma {:induction false} ResolveChildrenKeepShape(parentName: string, ts: seq<Tree>, sep: string)
    ensures StripAll(ResolveChildren(parentName, ts, sep).trees) == StripAll(ts)
    decreases ts
  {
    if |ts| > 0 {
      BreadCrumbKeepsShape(Some(parentName), ts[0], sep, []);
      ResolveChildrenKeepShape(parentName, ts[1..], sep);
      var r := ResolveChildren(parentName, ts, sep);
      assert r.trees[1..] == ResolveChildren(parentName, ts[1..], sep).trees;
    }
  }

  /** Earlier breadcrumbs are never read: trees that differ only in their
      breadcrumbs resolve alike. */
  lemma {:induction false} BreadCrumbIgnoresOldNames(parent: Option<string>, t1: Tree, t2: Tree, sep: string, acc: seq<Tree>)
    requires Strip(t1) == Strip(t2)
    ensures BuildBreadCrumb(parent, t1, sep, acc) == BuildBreadCrumb(parent, t2, sep, acc)
    decreases t1
  {
    assert t1.data.tag == Strip(t1).data.tag;
    var name := NameFor(parent, t1.data.tag, sep);
    ResolveChildrenIgnoreOldNames(name, t1.children, t2.children, sep);
    assert t1.data.(fullName := name) == Strip(t1).data.(fullName := name);
  }

  lemma {:induction false} ResolveChildrenIgnoreOldNames(parentName: string, ts1: seq<Tree>, ts2: seq<Tree>, sep: string)
    requires StripAll(ts1) == StripAll(ts2)
    ensures ResolveChildren(parentName, ts1, sep) == ResolveChildren(parentName, ts2, sep)
    decreases ts1
  {
    if |ts1| > 0 {
      assert Strip(ts1[0]) == StripAll(ts1)[0];
      assert StripAll(ts1[1..]) == StripAll(ts1)[1..];
      assert StripAll(ts2[1..]) == StripAll(ts2)[1..];
      BreadCrumbIgnoresOldNames(Some(parentName), ts1[0], ts2[0], sep, []);
      ResolveChildrenIgnoreOldNames(parentName, ts1[1..], ts2[1..], sep);
    }
  }

  /** Resolving an already resolved tree again with the same separator
      yields the same names. */
  lemma BreadCrumbIdempotent(parent: Option<string>, t: Tree, sep: string, acc: seq<Tree>)
    ensures var once := BuildBreadCrumb(parent, t, sep, acc);
            BuildBreadCrumb(parent, once.tree, sep, acc) == once
  {
    BreadCrumbKeepsShape(parent, t, sep, acc);
    BreadCrumbIgnoresOldNames(parent, BuildBreadCrumb(parent, t, sep, acc).tree, t, sep, acc);
  }

  // ---------------------------------------------------------------------
  // What the names spell.

  /** Each tag followed by the separator. */
  function Trail(tags: seq<string>, sep: string): string
  {
    if |tags| == 0 then "" else tags[0] + sep + Trail(tags[1..], sep)
  }

  /** `path` leads from `t` to one of its nodes by child positions. */
  ghost predicate IsPath(t: Tree, path: seq<int>)
    decreases |path|
  {
    |path| == 0 || (0 <= path[0] < |t.children| && IsPath(t.children[path[0]], path[1..]))
  }

  function Subtree(t: Tree, path: seq<int>): Tree
    requires IsPath(t, path)
    decreases |path|
  {
    if |path| == 0 then t else Subtree(t.children[path[0]], path[1..])
  }

  /** The tags of the nodes along `path`, `t` itself excluded. */
  function TagsAlong(t: Tree, path: seq<int>): seq<string>
    requires IsPath(t, path)
    decreases |path|
  {
    if |path| == 0 then []
    else [t.children[path[0]].data.tag] + TagsAlong(t.children[path[0]], path[1..])
  }

  /** The node at `path` is named by the name of the walk's start followed by
      every tag on the way down, each followed by the separator. For the
      root that is `sep + tag1 + sep + ... + tagk + sep`. */
  lemma {:induction false} BreadCrumbSpellsPath(parent: Option<string>, t: Tree, sep: string, acc: seq<Tree>, path: seq<int>)
    requires IsPath(t, path)
    ensures var r := BuildBreadCrumb(parent, t, sep, acc).tree;
            && IsPath(r, path)
            && Subtree(r, path).data.fullName == NameFor(parent, t.data.tag, sep) + Trail(TagsAlong(t, path), sep)
    decreases |path|
  {
    var name := NameFor(parent, t.data.tag, sep);
    var r := BuildBreadCrumb(parent, t, sep, acc).tree;
    if |path| > 0 {
      var i := path[0];
      var c := t.children[i];
      var rc := BuildBreadCrumb(Some(name), c, sep, []).tree;
      assert 0 <= i < |r.children| && r.children[i] == rc by {
        BreadCrumbUnfold(parent, t, sep, acc);
        ChildrenAreResolved(name, t.children, sep);
      }
      var later := Trail(TagsAlong(c, path[1..]), sep);
      assert IsPath(rc, path[1..]) && Subtree(rc, path[1..]).data.fullName == name + c.data.tag + sep + later by {
        BreadCrumbSpellsPath(Some(name), c, sep, [], path[1..]);
      }
      SubtreeStep(r, path);
      TrailStep(t, path, sep);
      ConcatAssoc(name, c.data.tag, sep, later);
    } else {
      assert r.data.fullName == name;
      ConcatEmpty(name);
    }
  }

  lemma SubtreeStep(r: Tree, path: seq<int>)
    requires |path| > 0 && 0 <= path[0] < |r.children| && IsPath(r.children[path[0]], path[1..])
    ensures IsPath(r, path) && Subtree(r, path) == Subtree(r.children[path[0]], path[1..])
  {
  }

  lemma ConcatAssoc(a: string, b: string, c: string, d: string)
    ensures a + b + c + d == a + (b + c + d)
  {
  }

  lemma ConcatEmpty(a: string)
    ensures a + "" == a
  {
  }

  lemma TrailStep(t: Tree, path: seq<int>, sep: string)
    requires IsPath(t, path) && |path| > 0
    ensures var c := t.children[path[0]];
            Trail(TagsAlong(t, path), sep) == c.data.tag + sep + Trail(TagsAlong(c, path[1..]), sep)
  {
    var tags := TagsAlong(t, path);
    assert tags[0] == t.children[path[0]].data.tag && tags[1..] == TagsAlong(t.children[path[0]], path[1..]);
  }

  /** Every name in the tree starts with `prefix` and ends with `sep`. */
  ghost predicate Framed(t: Tree, prefix: string, sep: string)
    decreases t
  {
    && prefix <= t.data.fullName
    && |sep| <= |t.data.fullName| && t.data.fullName[|t.data.fullName| - |sep|..] == sep
    && forall i | 0 <= i < |t.children| :: Framed(t.children[i], prefix, sep)
  }

  /** Below a named parent every name extends the parent's; with no parent
      every name starts with the separator. All end with the separator. */
  lemma {:induction false} BreadCrumbFramed(parent: Option<string>, t: Tree, sep: string, acc: seq<Tree>)
    ensures Framed(BuildBreadCrumb(parent, t, sep, acc).tree, if parent.None? then sep else parent.value, sep)
    decreases t
  {
    var name := NameFor(parent, t.data.tag, sep);
    var prefix := if parent.None? then sep else parent.value;
    var r := BuildBreadCrumb(parent, t, sep, acc).tree;
    assert r.data.fullName == name;
    assert prefix <= name && name[|name| - |sep|..] == sep;
    ChildrenAreResolved(name, t.children, sep);
    forall i | 0 <= i < |r.children|
      ensures Framed(r.children[i], prefix, sep)
    {
      var c := BuildBreadCrumb(Some(name), t.children[i], sep, []).tree;
      assert r.children[i] == c;
      BreadCrumbFramed(Some(name), t.children[i], sep, []);
      FramedWeaken(c, name, prefix, sep);
    }
  }

  lemma {:induction false} FramedWeaken(t: Tree, longer: string, prefix: string, sep: string)
    requires Framed(t, longer, sep) && prefix <= longer
    ensures Framed(t, prefix, sep)
    decreases t
  {
    forall i | 0 <= i < |t.children|
      ensures Framed(t.children[i], prefix, sep)
    {
      FramedWeaken(t.children[i], longer, prefix, sep);
    }
  }
}
