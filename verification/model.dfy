/** Shared vocabulary of the crawl pipeline: the page record, the resolved
    tree that the renderers consume, and a few measures over that tree. */
module Model {

  datatype Option<+T> = None | Some(value: T)

  /** One crawled page (the Go `Proposition`). `fullName` is the breadcrumb
      path, empty until the breadcrumb pass has run. */
  datatype Proposition = Proposition(
    id: string,
    fullName: string,
    tag: string,
    code: string,
    url: string,
    key: string,
    potentialTags: seq<string>,
    parentUrl: string)

  /** The zero value `&Proposition{}` carried by a synthetic root. */
  const Blank: Proposition := Proposition("", "", "", "", "", "", [], "")

  /** A node reachable from a root, with its children in discovery order. */
  datatype Tree = Node(key: string, data: Proposition, children: seq<Tree>)

  /** A source URL paired with the root node to render. */
  datatype Graph = Graph(url: string, root: Tree)

  /** Number of nodes in a tree. */
  function Size(t: Tree): nat
    decreases t
  {
    1 + SizeOf(t.children)
  }

  function SizeOf(ts: seq<Tree>): nat
    decreases ts
  {
    if |ts| == 0 then 0 else Size(ts[0]) + SizeOf(ts[1..])
  }

  /** Number of levels of a tree; a lone node has height 1. */
  function Height(t: Tree): nat
    decreases t
  {
    1 + MaxHeight(t.children)
  }

  function MaxHeight(ts: seq<Tree>): nat
    decreases ts
  {
    if |ts| == 0 then 0 else Max(Height(ts[0]), MaxHeight(ts[1..]))
  }

  /** Only a childless node has height 1. */
  lemma LowTreeIsLeaf(t: Tree)
    ensures Height(t) == 1 <==> |t.children| == 0
  {
    if |t.children| > 0 {
      assert MaxHeight(t.children) >= Height(t.children[0]);
    }
  }

  function Max(a: int, b: int): int { if a < b then b else a }

  function Min(a: int, b: int): int { if a < b then a else b }

  /** Every node of a tree, parent before its descendants, siblings in
      child order. */
  function PreOrder(t: Tree): seq<Tree>
    decreases t
  {
    [t] + PreOrderOf(t.children)
  }

  function PreOrderOf(ts: seq<Tree>): seq<Tree>
    decreases ts
  {
    if |ts| == 0 then [] else PreOrder(ts[0]) + PreOrderOf(ts[1..])
  }

  lemma {:induction false} PreOrderSize(t: Tree)
    ensures |PreOrder(t)| == Size(t)
    decreases t
  {
    PreOrderOfSize(t.children);
  }

  lemma {:induction false} PreOrderOfSize(ts: seq<Tree>)
    ensures |PreOrderOf(ts)| == SizeOf(ts)
    decreases ts
  {
    if |ts| > 0 {
      PreOrderSize(ts[0]);
      PreOrderOfSize(ts[1..]);
    }
  }

  /** The tree with every breadcrumb erased: what the crawl itself produced,
      independent of any earlier breadcrumb pass. */
  function Strip(t: Tree): Tree
    decreases t
  {
    Node(t.key, t.data.(fullName := ""), StripAll(t.children))
  }

  function StripAll(ts: seq<Tree>): (r: seq<Tree>)
    decreases ts
    ensures |r| == |ts|
  {
    if |ts| == 0 then [] else [Strip(ts[0])] + StripAll(ts[1..])
  }

  // ---------------------------------------------------------------------
  // Decimal rendering of depths (Go's `%d` verb on a non-negative int).

  predicate IsDigit(c: char) { '0' <= c <= '9' }

  /** The number a string of decimal digits denotes. */
  function DigitsValue(s: string): nat
    requires forall i | 0 <= i < |s| :: IsDigit(s[i])
  {
    if |s| == 0 then 0
    else
      assert IsDigit(s[|s| - 1]);
      DigitsValue(s[..|s| - 1]) * 10 + (s[|s| - 1] as int - '0' as int)
  }

  function DigitChar(d: nat): (c: char)
    requires d < 10
    ensures IsDigit(c) && c as int - '0' as int == d
  {
    ['0', '1', '2', '3', '4', '5', '6', '7', '8', '9'][d]
  }

  /** Shortest decimal spelling of `n`. */
  function NatToString(n: nat): (r: string)
    ensures |r| > 0
    ensures forall i | 0 <= i < |r| :: IsDigit(r[i])
    ensures DigitsValue(r) == n
    ensures |r| == 1 || r[0] != '0'
  {
    if n < 10 then [DigitChar(n)]
    else
      var front := NatToString(n / 10);
      var r := front + [DigitChar(n % 10)];
      assert r[..|r| - 1] == front;
      r
  }

  /** Header row of the CSV report. */
  const Header: seq<string> := ["Proposition ID", "Proposition Full Name", "Proposition", "Proposition Code", "URL"]

  /** The field of `p` that the report column titled `title` is meant to hold. */
  function Column(p: Proposition, title: string): Option<string>
  {
    if title == "Proposition ID" then Some(p.id)
    else if title == "Proposition Full Name" then Some(p.fullName)
    else if title == "Proposition" then Some(p.tag)
    else if title == "Proposition Code" then Some(p.code)
    else if title == "URL" then Some(p.url)
    else None
  }

  /** The CSV columns of a proposition (`ToPropertySlice`): one per header
      title, each holding the field its title names. */
  function ToPropertySlice(p: Proposition): (r: seq<string>)
    ensures |r| == |Header|
    ensures forall i | 0 <= i < |Header| :: Column(p, Header[i]) == Some(r[i])
  {
    [p.id, p.fullName, p.tag, p.code, p.url]
  }
}
