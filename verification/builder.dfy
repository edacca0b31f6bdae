/** The graph builder (`addNode`): folds page records, one per crawled page,
    into a URL-keyed collection of nodes.

    Go shares `*Node` pointers between the map and the child lists. Here the
    nodes live in an arena, a sequence of slots addressed by position; a
    child list holds positions and the map sends a key to a position. */
module Builder {
  import opened Model

  /** One `Node`: its key, its page record and the positions of its children. */
  datatype Slot = Slot(key: string, data: Proposition, children: seq<nat>)

  /** The `map[string]*Node` together with every node ever allocated. */
  datatype Arena = Arena(nodes: seq<Slot>, index: map<string, nat>)

  const Empty: Arena := Arena([], map[])

  /** Every position the map or a child list mentions is allocated: the
      arena counterpart of Go pointers never dangling. */
  ghost predicate Valid(a: Arena)
  {
    && (forall k | k in a.index :: a.index[k] < |a.nodes|)
    && (forall i, j | 0 <= i < |a.nodes| && 0 <= j < |a.nodes[i].children| ::
          a.nodes[i].children[j] < |a.nodes|)
  }

  /** Every child was allocated after its parent, so the links form no cycle. */
  ghost predicate Ordered(a: Arena)
  {
    forall i, j | 0 <= i < |a.nodes| && 0 <= j < |a.nodes[i].children| ::
      i < a.nodes[i].children[j]
  }

  /** A node sits in at most one child list, at most once: the links form a
      forest. */
  ghost predicate OneParent(a: Arena)
  {
    forall i1, j1, i2, j2 |
      && 0 <= i1 < |a.nodes| && 0 <= j1 < |a.nodes[i1].children|
      && 0 <= i2 < |a.nodes| && 0 <= j2 < |a.nodes[i2].children|
      && a.nodes[i1].children[j1] == a.nodes[i2].children[j2]
      :: i1 == i2 && j1 == j2
  }

  /** The node the map stores under a key carries that key. */
  ghost predicate KeysMatch(a: Arena)
  {
    forall k | k in a.index && a.index[k] < |a.nodes| :: a.nodes[a.index[k]].key == k
  }

  /** A child hangs under the page its record names as parent, or else under
      a synthetic root. */
  ghost predicate Provenance(a: Arena)
  {
    forall i, j | 0 <= i < |a.nodes| && 0 <= j < |a.nodes[i].children| && a.nodes[i].children[j] < |a.nodes| ::
      || a.nodes[i].key == a.nodes[a.nodes[i].children[j]].data.parentUrl
      || (a.nodes[i].key == "" && a.nodes[i].data == Blank)
  }

  ghost predicate WellFormed(a: Arena)
  {
    Valid(a) && Ordered(a) && OneParent(a) && KeysMatch(a) && Provenance(a)
  }

  /** True when `addNode` finds a parent for `p`: the lookup runs after `p`'s
      own node is stored, so a record naming itself as parent finds itself. */
  predicate FindsParent(a: Arena, p: Proposition)
  {
    p.parentUrl == p.url || p.parentUrl in a.index
  }

  /** Position of the node `AddNode(a, p)` creates. When a placeholder is
      needed it takes the first free position, so that in the arena every
      parent precedes its children. */
  function NewPos(a: Arena, p: Proposition): nat
  {
    if FindsParent(a, p) then |a.nodes| else |a.nodes| + 1
  }

  /** `addNode`: store a fresh childless node for `p` under `p.url`, then
      append it to the node stored under `p.parentUrl`, or to a fresh
      placeholder stored under "" when there is none. */
  function AddNode(a: Arena, p: Proposition): (r: Arena)
    requires Valid(a)
    ensures Valid(r)
    // the new node
    ensures |r.nodes| == |a.nodes| + (if FindsParent(a, p) then 1 else 2)
    ensures r.nodes[NewPos(a, p)].key == p.url && r.nodes[NewPos(a, p)].data == p
    ensures r.nodes[NewPos(a, p)].children == (if p.parentUrl == p.url then [NewPos(a, p)] else [])
    // the map
    ensures FindsParent(a, p) ==> r.index.Keys == a.index.Keys + {p.url}
    ensures !FindsParent(a, p) ==> r.index.Keys == a.index.Keys + {p.url, ""}
    ensures (FindsParent(a, p) || p.url != "") ==> r.index[p.url] == NewPos(a, p)
    ensures forall k | k in a.index && k != p.url && (FindsParent(a, p) || k != "") ::
              r.index[k] == a.index[k]
    // parent found: appended as its last child, every other node untouched
    ensures FindsParent(a, p) && p.parentUrl != p.url ==>
              var q := a.index[p.parentUrl];
              && r.nodes[q] == a.nodes[q].(children := a.nodes[q].children + [|a.nodes|])
              && forall i | 0 <= i < |a.nodes| && i != q :: r.nodes[i] == a.nodes[i]
    ensures p.parentUrl == p.url ==> r.nodes[..|a.nodes|] == a.nodes
    // no parent: the only child of a fresh placeholder stored under ""
    ensures !FindsParent(a, p) ==>
              && r.index[""] == |a.nodes|
              && r.nodes[|a.nodes|] == Slot("", Blank, [|a.nodes| + 1])
              && r.nodes[..|a.nodes|] == a.nodes
  {
    var n := |a.nodes|;
    var node := Slot(p.url, p, []);
    if FindsParent(a, p) then
      // the lookup of p.parentUrl sees p's own entry
      var nodes := a.nodes + [node];
      var index := a.index[p.url := n];
      var q := index[p.parentUrl];
      Arena(nodes[q := nodes[q].(children := nodes[q].children + [n])], index)
    else
      Arena(a.nodes + [Slot("", Blank, [n + 1]), node], a.index[p.url := n + 1]["" := n])
  }

  /** The collection after the crawl has reported `pages`, in order. */
  function Build(pages: seq<Proposition>): (r: Arena)
    ensures Valid(r)
  {
    if |pages| == 0 then Empty
    else AddNode(Build(pages[..|pages| - 1]), pages[|pages| - 1])
  }

  // ---------------------------------------------------------------------
  // Invariants that `addNode` keeps.

  lemma AddNodeOrdered(a: Arena, p: Proposition)
    requires Valid(a) && Ordered(a)
    requires p.url != p.parentUrl
    ensures Ordered(AddNode(a, p))
  {
    var r := AddNode(a, p);
    var n := |a.nodes|;
    forall i, j | 0 <= i < |r.nodes| && 0 <= j < |r.nodes[i].children|
      ensures i < r.nodes[i].children[j]
    {
      if i < n && j < |a.nodes[i].children| {
        assert r.nodes[i].children[j] == a.nodes[i].children[j];
      }
    }
  }

  /** Holds for every page, a self-parented one included: its node sits in
      its own child list only, once. */
  lemma AddNodeOneParent(a: Arena, p: Proposition)
    requires Valid(a) && OneParent(a)
    ensures OneParent(AddNode(a, p))
  {
    var r := AddNode(a, p);
    var n := |a.nodes|;
    // Every entry of a child list is either an old entry at the same place,
    // or the new node, which appears exactly once.
    forall i, j | 0 <= i < |r.nodes| && 0 <= j < |r.nodes[i].children|
      ensures r.nodes[i].children[j] == NewPos(a, p) <==> IsNewLink(a, p, i, j)
      ensures !IsNewLink(a, p, i, j) ==>
                i < n && j < |a.nodes[i].children| && r.nodes[i].children[j] == a.nodes[i].children[j]
    {
      if FindsParent(a, p) && p.parentUrl != p.url {
        var q := a.index[p.parentUrl];
        if i == q {
          assert r.nodes[q].children == a.nodes[q].children + [n];
        } else if i < n {
          assert r.nodes[i] == a.nodes[i];
        }
      } else if i < n {
        assert r.nodes[i] == a.nodes[i];
      }
    }
  }

  /** Position (i, j) of the link to the node that `AddNode(a, p)` creates. */
  ghost predicate IsNewLink(a: Arena, p: Proposition, i: int, j: int)
    requires Valid(a)
  {
    if FindsParent(a, p) && p.parentUrl != p.url then
      i == a.index[p.parentUrl] && j == |a.nodes[i].children|
    else
      i == |a.nodes| && j == 0
  }

  lemma AddNodeKeysMatch(a: Arena, p: Proposition)
    requires Valid(a) && KeysMatch(a)
    ensures KeysMatch(AddNode(a, p))
  {
    var r := AddNode(a, p);
    forall k | k in r.index && r.index[k] < |r.nodes|
      ensures r.nodes[r.index[k]].key == k
    {
      if k in a.index && k != p.url && (FindsParent(a, p) || k != "") {
        var i := a.index[k];
        if FindsParent(a, p) && p.parentUrl != p.url && i == a.index[p.parentUrl] {
        } else {
          assert r.nodes[i] == a.nodes[i];
        }
      }
    }
  }

  lemma AddNodeProvenance(a: Arena, p: Proposition)
    requires Valid(a) && KeysMatch(a) && Provenance(a)
    ensures Provenance(AddNode(a, p))
  {
    var r := AddNode(a, p);
    var n := |a.nodes|;
    forall i, j | 0 <= i < |r.nodes| && 0 <= j < |r.nodes[i].children| && r.nodes[i].children[j] < |r.nodes|
      ensures || r.nodes[i].key == r.nodes[r.nodes[i].children[j]].data.parentUrl
              || (r.nodes[i].key == "" && r.nodes[i].data == Blank)
    {
      var c := r.nodes[i].children[j];
      if c == NewPos(a, p) {
        if FindsParent(a, p) && p.parentUrl != p.url {
          var q := a.index[p.parentUrl];
          if i == q {
            assert r.nodes[i].key == a.nodes[q].key == p.parentUrl;
          }
        }
      } else if i < n && j < |a.nodes[i].children| {
        assert a.nodes[i].children[j] == c;
        assert r.nodes[c] == a.nodes[c].(children := r.nodes[c].children);
      }
    }
  }

  /** `addNode` keeps the collection a forest whose links follow page
      provenance, provided no page names itself as its own parent. */
  lemma AddNodeWellFormed(a: Arena, p: Proposition)
    requires WellFormed(a)
    requires p.url != p.parentUrl
    ensures WellFormed(AddNode(a, p))
  {
    AddNodeOrdered(a, p);
    AddNodeOneParent(a, p);
    AddNodeKeysMatch(a, p);
    AddNodeProvenance(a, p);
  }

  /** A page naming itself as parent becomes its own child: the only way
      `addNode` can close a cycle. */
  lemma SelfParentMakesLoop(a: Arena, p: Proposition)
    requires Valid(a)
    requires p.url == p.parentUrl
    ensures !Ordered(AddNode(a, p))
  {
    var r := AddNode(a, p);
    assert r.nodes[NewPos(a, p)].children[0] == NewPos(a, p);
  }

  lemma {:induction false} BuildWellFormed(pages: seq<Proposition>)
    requires forall i | 0 <= i < |pages| :: pages[i].url != pages[i].parentUrl
    ensures WellFormed(Build(pages))
  {
    if |pages| > 0 {
      BuildWellFormed(pages[..|pages| - 1]);
      AddNodeWellFormed(Build(pages[..|pages| - 1]), pages[|pages| - 1]);
    }
  }

  /** Every crawl, self-parented pages included, yields a forest. */
  lemma {:induction false} BuildOneParent(pages: seq<Proposition>)
    ensures OneParent(Build(pages))
  {
    if |pages| > 0 {
      BuildOneParent(pages[..|pages| - 1]);
      AddNodeOneParent(Build(pages[..|pages| - 1]), pages[|pages| - 1]);
    }
  }

  /** Once a crawl has reported a first page that does not name itself as
      parent, the key "" exists: that page finds no parent in the empty
      collection, and keys are never removed. */
  lemma {:induction false} BuildHasRoot(pages: seq<Proposition>)
    requires |pages| > 0 && pages[0].url != pages[0].parentUrl
    ensures "" in Build(pages).index
  {
    if |pages| == 1 {
      assert Build(pages[..0]) == Empty;
    } else {
      BuildHasRoot(pages[..|pages| - 1]);
    }
  }

  /** While moreover no page has the empty URL, the node under "" has at
      least one child: it is never replaced by a childless page's node. */
  lemma {:induction false} BuildRootHasChild(pages: seq<Proposition>)
    requires |pages| > 0 && pages[0].url != pages[0].parentUrl
    requires forall i | 0 <= i < |pages| :: pages[i].url != ""
    ensures "" in Build(pages).index
    ensures |Build(pages).nodes[Build(pages).index[""]].children| > 0
  {
    var a := Build(pages[..|pages| - 1]);
    var p := pages[|pages| - 1];
    if |pages| == 1 {
      assert a == Empty;
    } else {
      BuildRootHasChild(pages[..|pages| - 1]);
      var r := AddNode(a, p);
      var q := a.index[""];
      if FindsParent(a, p) && p.parentUrl != p.url && q == a.index[p.parentUrl] {
      } else if FindsParent(a, p) {
        assert r.nodes[q] == a.nodes[q];
      }
    }
  }

  // ---------------------------------------------------------------------
  // What every crawl keeps, self-parented pages included.

  /** Every link points to its own node or to a later one. */
  ghost predicate Forward(a: Arena)
  {
    forall i, j | 0 <= i < |a.nodes| && 0 <= j < |a.nodes[i].children| ::
      i <= a.nodes[i].children[j]
  }

  /** No node stored under "" is its own child. */
  ghost predicate NoEmptySelfLoop(a: Arena)
  {
    forall i, j | 0 <= i < |a.nodes| && 0 <= j < |a.nodes[i].children| && a.nodes[i].children[j] == i ::
      a.nodes[i].key != ""
  }

  lemma AddNodeForward(a: Arena, p: Proposition)
    requires Valid(a) && Forward(a)
    ensures Forward(AddNode(a, p))
  {
    var r := AddNode(a, p);
    var n := |a.nodes|;
    forall i, j | 0 <= i < |r.nodes| && 0 <= j < |r.nodes[i].children|
      ensures i <= r.nodes[i].children[j]
    {
      if i < n && j < |a.nodes[i].children| {
        assert r.nodes[i].children[j] == a.nodes[i].children[j];
      }
    }
  }

  /** Only a page whose URL and parent URL are both empty can be a node
      stored under "" that is its own child. */
  lemma AddNodeNoEmptySelfLoop(a: Arena, p: Proposition)
    requires Valid(a) && NoEmptySelfLoop(a)
    requires !(p.url == "" && p.parentUrl == "")
    ensures NoEmptySelfLoop(AddNode(a, p))
  {
    var r := AddNode(a, p);
    var n := |a.nodes|;
    forall i, j | 0 <= i < |r.nodes| && 0 <= j < |r.nodes[i].children| && r.nodes[i].children[j] == i
      ensures r.nodes[i].key != ""
    {
      if FindsParent(a, p) && p.parentUrl != p.url {
        var q := a.index[p.parentUrl];
        if i == q {
          assert r.nodes[q].children == a.nodes[q].children + [n];
          assert j < |a.nodes[q].children| && a.nodes[q].children[j] == q;
        } else if i < n {
          assert r.nodes[i] == a.nodes[i];
        }
      } else if i < n {
        assert r.nodes[i] == a.nodes[i];
      } else if FindsParent(a, p) {
        assert r.nodes[i].key == p.url;
      }
    }
  }

  lemma {:induction false} BuildForward(pages: seq<Proposition>)
    ensures Forward(Build(pages))
  {
    if |pages| > 0 {
      BuildForward(pages[..|pages| - 1]);
      AddNodeForward(Build(pages[..|pages| - 1]), pages[|pages| - 1]);
    }
  }

  lemma {:induction false} BuildKeysMatch(pages: seq<Proposition>)
    ensures KeysMatch(Build(pages))
  {
    if |pages| > 0 {
      BuildKeysMatch(pages[..|pages| - 1]);
      AddNodeKeysMatch(Build(pages[..|pages| - 1]), pages[|pages| - 1]);
    }
  }

  lemma {:induction false} BuildNoEmptySelfLoop(pages: seq<Proposition>)
    requires forall i | 0 <= i < |pages| :: !(pages[i].url == "" && pages[i].parentUrl == "")
    ensures NoEmptySelfLoop(Build(pages))
  {
    if |pages| > 0 {
      BuildNoEmptySelfLoop(pages[..|pages| - 1]);
      AddNodeNoEmptySelfLoop(Build(pages[..|pages| - 1]), pages[|pages| - 1]);
    }
  }

  // ---------------------------------------------------------------------
  // Reading the tree out of the arena.

  /** The walk from position `i` ends: links point forward, every node has
      at most one parent, and `i` is not its own child. A node that is its
      own child then sits in no other list, so no cycle is reachable from
      `i`. */
  ghost predicate Walkable(a: Arena, i: nat)
  {
    && Valid(a) && Forward(a) && OneParent(a)
    && i < |a.nodes| && i !in a.nodes[i].children
  }

  /** `nodes[""]` exists and the walk from it ends. */
  ghost predicate HasWalkableRoot(a: Arena)
  {
    "" in a.index && Walkable(a, a.index[""])
  }

  /** Child `j` of a walkable node: a later position, itself walkable. */
  function Child(a: Arena, i: nat, j: nat): (c: nat)
    requires Walkable(a, i) && j < |a.nodes[i].children|
    ensures c == a.nodes[i].children[j]
    ensures i < c && Walkable(a, c)
  {
    var c := a.nodes[i].children[j];
    assert c !in a.nodes[c].children by {
      forall k | 0 <= k < |a.nodes[c].children|
        ensures a.nodes[c].children[k] != c
      {
        assert a.nodes[i].children[j] == c;
      }
    }
    c
  }

  /** Every well-formed collection can be walked from any position. */
  lemma OrderedIsWalkable(a: Arena, i: nat)
    requires WellFormed(a) && i < |a.nodes|
    ensures Walkable(a, i)
  {
    forall j | 0 <= j < |a.nodes[i].children|
      ensures a.nodes[i].children[j] != i
    {
      assert i < a.nodes[i].children[j];
    }
  }

  /** The walk from "" ends for every crawl whose first page is not
      self-parented and in which no page has both an empty URL and an
      empty parent URL. Self-parented pages elsewhere are allowed. */
  lemma BuildWalkable(pages: seq<Proposition>)
    requires |pages| > 0 && pages[0].url != pages[0].parentUrl
    requires forall i | 0 <= i < |pages| :: !(pages[i].url == "" && pages[i].parentUrl == "")
    ensures HasWalkableRoot(Build(pages))
  {
    var a := Build(pages);
    BuildHasRoot(pages);
    BuildForward(pages);
    BuildOneParent(pages);
    BuildKeysMatch(pages);
    BuildNoEmptySelfLoop(pages);
    var q := a.index[""];
    assert a.nodes[q].key == "";
  }

  /** The subtree rooted at position `i`, with every child pointer followed. */
  function Extract(a: Arena, i: nat): (t: Tree)
    requires Walkable(a, i)
    decreases |a.nodes| - i
    ensures t.key == a.nodes[i].key && t.data == a.nodes[i].data
    ensures |t.children| == |a.nodes[i].children|
  {
    var s := a.nodes[i];
    Node(s.key, s.data, seq(|s.children|, j requires 0 <= j < |s.children| => Extract(a, Child(a, i, j))))
  }

  /** The node stored under "" (`nodes[""]`). */
  function RootTree(a: Arena): (t: Tree)
    requires HasWalkableRoot(a)
  {
    Extract(a, a.index[""])
  }
}
