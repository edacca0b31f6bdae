/** The older command-line pipeline in the main package: breadcrumbs with a
    fixed "/" separator collected as page records, and the rows of the CSV
    report. Its `addNode` is the same function as the routes one and is
    modelled by `Builder.AddNode`. */
module Legacy {
  import opened Model
  import Builder
  import Breadcrumb

  /** The main package's `buildBreadCrumb(parent, current, alreadyProcessed)`:
      the routes walk with separator "/", keeping each visited node's
      record rather than the node. */
  function BuildBreadCrumb(parent: Option<string>, current: Tree, acc: seq<Proposition>): (r: seq<Proposition>)
    ensures |r| == |acc| + Size(current) - (if parent.None? then 1 else 0)
    ensures r[..|acc|] == acc
    ensures parent.Some? ==> r[|acc|] == current.data.(fullName := parent.value + current.data.tag + "/")
  {
    var walk := Breadcrumb.BuildBreadCrumb(parent, current, "/", []);
    var r := acc + DataOf(walk.processed);
    assert r[..|acc|] == acc;
    r
  }

  function DataOf(ts: seq<Tree>): (r: seq<Proposition>)
    ensures |r| == |ts| && forall i | 0 <= i < |ts| :: r[i] == ts[i].data
  {
    seq(|ts|, i requires 0 <= i < |ts| => ts[i].data)
  }

  /** The records listed are those of the resolved nodes in pre-order, the
      root's left out when it has no parent; each is the page's own record
      with only its breadcrumb filled in. */
  lemma BuildBreadCrumbPreOrder(parent: Option<string>, t: Tree, acc: seq<Proposition>)
    ensures var resolved := Breadcrumb.BuildBreadCrumb(parent, t, "/", []).tree;
            && BuildBreadCrumb(parent, t, acc)
                 == acc + DataOf(if parent.None? then PreOrder(resolved)[1..] else PreOrder(resolved))
            && Strip(resolved) == Strip(t)
  {
    Breadcrumb.BreadCrumbPreOrder(parent, t, "/", []);
    Breadcrumb.BreadCrumbKeepsShape(parent, t, "/", []);
  }

  /** The main package's `processGraph`: the records of every node below
      the node stored under "", in pre-order. Go dereferences `nodes[""]`,
      so the key must be present. */
  function ProcessGraph(a: Builder.Arena): (r: seq<Proposition>)
    requires Builder.HasWalkableRoot(a)
    ensures |r| == Size(Builder.RootTree(a)) - 1
  {
    BuildBreadCrumb(None, Builder.RootTree(a), [])
  }

  /** The records come out in pre-order of the tree below "", that node's
      own record left out, each named by the "/" walk from "". */
  lemma ProcessGraphPreOrder(a: Builder.Arena)
    requires Builder.HasWalkableRoot(a)
    ensures var resolved := Breadcrumb.BuildBreadCrumb(None, Builder.RootTree(a), "/", []).tree;
            && ProcessGraph(a) == DataOf(PreOrder(resolved)[1..])
            && resolved.data.fullName == "/"
            && Strip(resolved) == Strip(Builder.RootTree(a))
  {
    BuildBreadCrumbPreOrder(None, Builder.RootTree(a), []);
  }

  /** The rows `outputData` hands to the CSV writer: the header, then one
      row per record in input order, each `[ID, FullName, Tag, Code, URL]`. */
  method OutputRows(props: seq<Proposition>) returns (rows: seq<seq<string>>)
    ensures |rows| == |props| + 1
    ensures rows[0] == Header
    ensures forall i | 0 <= i < |props| ::
              rows[i + 1] == [props[i].id, props[i].fullName, props[i].tag, props[i].code, props[i].url]
    ensures forall i | 0 <= i < |rows| :: |rows[i]| == |Header|
  {
    rows := [Header];
    for i := 0 to |props|
      invariant |rows| == i + 1
      invariant rows[0] == Header
      invariant forall j | 0 <= j < i :: rows[j + 1] == ToPropertySlice(props[j])
      invariant forall j | 0 <= j < |rows| :: |rows[j]| == |Header|
    {
      rows := rows + [ToPropertySlice(props[i])];
    }
  }
}
