# Site crawl tree pipeline, modelled in Dafny

This project models the pure part of the proposition crawler. This part runs
after the crawler has visited the pages of a site:

- **Graph builder** (`addNode`). Each page record (a `Proposition`) is folded into a map
  from URL to node. The page is attached under the node of its parent URL.
  When there is no such node, it goes under a synthetic root stored under `""`.
- **Breadcrumb resolver** (`buildBreadCrumb`). A pre-order walk gives every
  node its `FullName`. The root gets the separator. Every other node gets its
  parent's name, then its own tag, then the separator.
- **Treemap renderer** (`nodeToItem` / `buildTreemap`). It builds a nested, depth-limited
  item tree for the treemap view. Its glue is the routes package's `processGraph`.
- **Treegraph renderer** (`nodeToGraphItem` / `buildTreeGraph`). It builds a flat,
  depth-limited list of path ids with no repeated ids. Its glue is `processTreegraph`.
- **Main-package variants**: the older `buildBreadCrumb` with the fixed separator
  `"/"`, its `processGraph`, and the rows `outputData` writes to CSV.
  The main package's `addNode` (main.go:169-188) is the same code as the routes one,
  line for line. `Builder.AddNode` models both.

Go shares `*Node` pointers between the map and the child lists. The model keeps
the nodes in an arena: a sequence of slots, whose child lists hold positions,
plus a `map<string, nat>` from key to position. `addNode` is a pure update of the
arena. `Builder.Extract` reads the tree below a position out of the arena as a value of the
inductive `Model.Tree`. The walks and renderers are pure recursive functions over
that tree. Go mutates nodes in place. So `buildBreadCrumb` returns the resolved tree
together with the list of visited nodes. The list holds the nodes' final values,
which is what the Go pointers see once the walk has returned. In the treegraph walk,
the shared `ids` map becomes a set that is passed in and handed back, left to right.

Go panics become preconditions:

- `nodes[""]` must exist wherever it is dereferenced.
- `[0]` of the routes `processGraph` list needs a child under `""`.
- `FullName[:len-1]` needs a non-empty name on every node the treegraph walk reaches.

Reading the arena as a tree value is exact only when the part below `""` is a tree.
So every member that walks the arena demands `Builder.HasWalkableRoot`, which has three parts:

- `Builder.Forward`: every link points to its own node or to a later one.
- `Builder.OneParent`: every node sits in at most one child list, once.
- The node under `""` is not its own child.

Without `OneParent`, Go would reach one shared node object twice, and that node would keep
only the name written last. A tree value instead holds two copies with different names.
Under the three parts, a node that is its own child sits in no other list, so the walk from `""`
meets no cycle (`Builder.Child`).

Every crawl meets `Forward` and `OneParent` (`Builder.BuildForward`, `Builder.BuildOneParent`),
self-parented pages included. The node under `""` is its own child only when it is a page whose
URL and parent URL are both empty. Go's walk then recurses forever, so the demand excludes no
crawl that Go handles. `Builder.BuildWalkable` shows that the demand holds for every other crawl
whose first page is not self-parented, which is what `Builder.BuildHasRoot` needs for `nodes[""]`
to exist at all.

Two behaviours of the code worth noting:

- With a depth limit of 1, the treemap root has `Value` set only when the root has no
  children. Its child slots are still allocated, one per child, and left nil.
- Treegraph ids come from `processTreegraph`, so they start with `HOME` and use the
  separator `.`. The root's id is `HOME`, and a child tagged `A` has the id `HOME.A`.

## Model

| member | source | states |
|---|---|---|
| `Model.ToPropertySlice` | api/routes/links.go:81-90 | one column per report header title, each holding the record field its title names (ID, full name, tag, code, URL); main.go:41-49 is the same code |
| `Model.NatToString` | api/routes/links.go:60 | the `%d` spelling of a depth is a non-empty digit string with no leading zero that reads back as the same number |
| `Builder.AddNode` | api/routes/links.go:183-202 | a fresh childless node for the page is stored under its URL, replacing any earlier entry; if the parent URL is then found (the page's own entry included), the node becomes that node's last child and every other node and key is untouched; otherwise a fresh blank placeholder stored under `""` gets it as only child, and the keys grow by exactly `{URL, ""}` |
| `Builder.AddNodeOrdered` | api/routes/links.go:189-199 | when a page does not name itself as parent, every link still points from an older node to a newer one |
| `Builder.AddNodeOneParent` | api/routes/links.go:189-199 | for every page, a self-parented one included, every node still sits in at most one child list, once |
| `Builder.AddNodeKeysMatch` | api/routes/links.go:184-197 | the node stored under a key always carries that key |
| `Builder.AddNodeProvenance` | api/routes/links.go:190-199 | every child hangs under the node keyed by its parent URL or under a blank placeholder keyed `""` |
| `Builder.AddNodeWellFormed` | api/routes/links.go:183-202 | the four invariants above together: the collection stays a forest whose links follow page provenance |
| `Builder.SelfParentMakesLoop` | api/routes/links.go:189-190 | a page whose parent URL equals its URL becomes its own child, so the links are no longer acyclic |
| `Builder.BuildWellFormed` | api/routes/links.go:148-151 | any crawl in which no page names itself as parent yields a well-formed forest |
| `Builder.BuildOneParent` | api/routes/links.go:148-151 | every crawl, whatever its pages, yields a collection in which every node sits in at most one child list |
| `Builder.AddNodeForward` | api/routes/links.go:189-199 | for every page, every link still points to its own node or to a later one |
| `Builder.AddNodeNoEmptySelfLoop` | api/routes/links.go:189-199 | unless the page's URL and parent URL are both empty, no node keyed `""` becomes its own child |
| `Builder.BuildForward` | api/routes/links.go:148-151 | every crawl yields links that point to their own node or to a later one |
| `Builder.BuildKeysMatch` | api/routes/links.go:148-151 | every crawl yields a map whose every key points at a node carrying that key |
| `Builder.BuildNoEmptySelfLoop` | api/routes/links.go:148-151 | a crawl in which no page has both URLs empty yields no node keyed `""` that is its own child |
| `Builder.Child` | api/routes/links.go:176-177 | following a link from a walkable node leads to a later, again walkable node, so the walk ends |
| `Builder.OrderedIsWalkable` | api/routes/links.go:176-177 | a well-formed collection can be walked from every position |
| `Builder.BuildWalkable` | api/routes/links.go:159-161 | after a crawl whose first page is not self-parented and in which no page has both URLs empty, `nodes[""]` exists and the walk from it ends |
| `Builder.BuildHasRoot` | api/routes/links.go:190-199 | after a first page that does not name itself as parent, the key `""` exists, whatever the later pages |
| `Builder.BuildRootHasChild` | api/routes/links.go:190-199 | if moreover no page has the empty URL, the node under `""` has at least one child |
| `Breadcrumb.BuildBreadCrumb` | api/routes/links.go:168-181 | the root gets the separator as name, any other node parent name + tag + separator; nothing else in the node changes; the list keeps `alreadyProcessed` as its prefix, grows by the subtree size (minus one for the root), and with a parent its next element is the node itself |
| `Breadcrumb.ResolveChildren` | api/routes/links.go:176-178 | one resolved tree per child, and as many visited nodes as the children's subtrees hold |
| `Breadcrumb.ChildrenAreResolved` | api/routes/links.go:176-178 | the i-th resolved child is child i walked under the parent's name |
| `Breadcrumb.BreadCrumbPreOrder` | api/routes/links.go:171-180 | the returned list is `alreadyProcessed` followed by the pre-order of the resolved tree, its root left out when it has no parent |
| `Breadcrumb.FirstProcessedIsFirstChild` | api/routes/links.go:161 | from the root, element 0 of the list is the resolved first child, not the root |
| `Breadcrumb.BreadCrumbKeepsShape` | api/routes/links.go:168-181 | apart from names, the resolved tree equals the input tree |
| `Breadcrumb.BreadCrumbIgnoresOldNames` | api/routes/links.go:169-173 | names already present are never read: trees differing only in names resolve identically |
| `Breadcrumb.BreadCrumbIdempotent` | api/routes/links.go:168-181 | resolving a resolved tree again with the same separator changes nothing |
| `Breadcrumb.BreadCrumbSpellsPath` | api/routes/links.go:169-173 | the node at any path is named by the start name followed by each tag on the path, each followed by the separator |
| `Breadcrumb.BreadCrumbFramed` | api/routes/links.go:169-173 | every name starts with the parent's name (the separator at the root) and ends with the separator |
| `Treemap.ColName` | api/routes/links.go:58-61 | no column label at depth 1 or less; below, `level` followed by digits that read back as the depth |
| `Treemap.NodeToItem` | api/routes/links.go:57-79 | item name is the tag, the column label is the depth's, there is one slot per child, slots are filled exactly when `depth < maxDepth` (with the child's tag), and `Value` is 1 exactly when the node has no children |
| `Treemap.ChildItems` | api/routes/links.go:68-72 | one filled slot per child, in child order |
| `Treemap.ChildItemsAre` | api/routes/links.go:69-71 | slot i holds exactly child i rendered at the next depth |
| `Treemap.NodeToItemAt` | api/routes/links.go:57-79 | every node within the depth limit, at any path below the starting node, is rendered at that path with its own tag, the column label of its depth, one slot per child, and `Value` 1 exactly when it has no children |
| `Treemap.Nils` | api/routes/links.go:65 | a freshly made child slice holds only nil slots |
| `Treemap.TreemapLevels` | api/routes/links.go:68-72 | the rendered item is as deep as the tree but no deeper than the levels from `depth` to `maxDepth`, and one level when `depth >= maxDepth` |
| `Treemap.TreemapCompleteWhenShallow` | api/routes/links.go:68-72 | a tree that fits within the depth limit is rendered with no nil slot anywhere |
| `Treemap.TreemapDepthOne` | api/routes/links.go:53-55 | with a limit of 1 the root is rendered alone, all slots nil, marked a leaf only when it has no children |
| `Treemap.BuildTreemap` | api/routes/links.go:53-55 | the root item carries the root's tag, no column label and one slot per child, and it is as deep as the tree but no deeper than `maxDepth` (one level when `maxDepth <= 1`) |
| `Treemap.TruncatedInteriorHasNoValue` | api/routes/links.go:65-76 | a node with children at or past the depth limit has a nil slot per child and no `Value` |
| `Treemap.TruncatedRootExample` | api/routes/links.go:53-76 | a root with one childless child, at limit 1, renders as `[nil]` children with no `Value` |
| `Treemap.NodeToItemPruned` | api/routes/links.go:57-79 | corrected renderer: children are left empty at the limit, no slot is nil, and `Value` is 1 exactly when nothing is rendered below |
| `Treemap.PrunedIsLeafMarked` | api/routes/links.go:68-76 | throughout the corrected item tree, no slot is nil and leaves are marked exactly where nothing is rendered below |
| `Treemap.PrunedAgreesWhenShallow` | api/routes/links.go:57-79 | where the tree fits within the limit, the corrected and the as-written rendering coincide |
| `Treemap.BuildTreemapPruned` | api/routes/links.go:53-55 | the corrected `buildTreemap` output is leaf-marked throughout and equals the as-written output when the tree fits |
| `Treemap.ProcessGraph` | api/routes/links.go:159-166 | the graph keeps the URL, and its root is exactly the first child of the node under `""` walked with `"/"` below a parent named `"/"`: unchanged but for names, itself named `"/" + tag + "/"` |
| `Treemap.ProcessGraphDefinedAfterCrawl` | api/routes/links.go:159-161 | a crawl whose first page is not self-parented and in which no page has the empty URL meets the preconditions of `processGraph`, later self-parented pages included |
| `Treegraph.ItemOf` | api/routes/treegraph.go:27-39 | the id is the name with its last character removed, and `Value` is 1 exactly for a node without children |
| `Treegraph.NodeToGraphItem` | api/routes/treegraph.go:26-49 | afterwards `ids` holds its old names and the node's name; an unseen node's item comes first; at or past the limit the node's item is all that is emitted |
| `Treegraph.ChildrenToGraphItems` | api/routes/treegraph.go:41-46 | threading through the children only adds names to `ids` |
| `Treegraph.WalkIsFirstVisits` | api/routes/treegraph.go:26-49 | the walk emits, in pre-order, the items of the first occurrences of names not in `ids` among the nodes it reaches (children only while `depth < maxDepth`, suppressed nodes still descended), and returns `ids` plus every name reached |
| `Treegraph.ChildrenWalkIsFirstVisits` | api/routes/treegraph.go:43-45 | the same for a child list: sibling outputs concatenated in order with `ids` threaded left to right |
| `Treegraph.VisitDepths` | api/routes/treegraph.go:42-46 | every node reached from depth d lies between d and `max(d, maxDepth)` |
| `Treegraph.FirstsDistinct` | api/routes/treegraph.go:32-35 | first occurrences have pairwise distinct names, none already in `ids`, and cover every reached name outside `ids` |
| `Treegraph.VisitsAll` | api/routes/treegraph.go:42-46 | with a limit covering the tree's height, every node is reached once |
| `Treegraph.BuildTreeGraph` | api/routes/treegraph.go:22-24 | the items are those of the first occurrences of names among the nodes reached from the root at depth 1, in pre-order |
| `Treegraph.BuildTreeGraphFirstVisits` | api/routes/treegraph.go:22-24 | `buildTreeGraph` emits the first occurrences among the nodes reached from depth 1, none deeper than `max(1, maxDepth)`, each name once |
| `Treegraph.ProcessTreegraph` | api/routes/treegraph.go:92-109 | the root's key becomes the URL and its record is exactly `{URL, ID: url, FullName: "HOME."}`; child i is exactly old child i walked with `"."` below a parent named `HOME.`, so it keeps its content and is named `"HOME." + tag + "."`; every name in the tree starts with `HOME.` and ends with `.` |
| `Treegraph.ResolveUnderHome` | api/routes/treegraph.go:101-103 | each child is exactly the child walked with `"."` below `HOME.`; it keeps its content and every name in it is framed by `HOME.` and `.` |
| `Treegraph.FramedIsNamed` | api/routes/treegraph.go:28 | a tree whose names all end in a non-empty separator meets the non-empty-name demand at every depth |
| `Treegraph.TreegraphIdsUnique` | api/routes/treegraph.go:92-109 | the treegraph of any walkable arena, so of any crawl `Builder.BuildWalkable` covers, is defined at every depth limit and no two of its items share an id |
| `Legacy.BuildBreadCrumb` | main.go:154-167 | the list keeps `alreadyProcessed` as prefix, grows by the subtree size (minus one for the root), and with a parent the next record is the current record itself, named parent name + tag + `"/"` |
| `Legacy.BuildBreadCrumbPreOrder` | main.go:155-166 | the records listed are those of the `"/"`-resolved nodes in pre-order, root left out, each otherwise unchanged |
| `Legacy.ProcessGraph` | main.go:149-152 | one record per node strictly below the node under `""` |
| `Legacy.ProcessGraphPreOrder` | main.go:149-152 | those records are the descendants' in pre-order, named by the `"/"` walk from a root named `"/"` |
| `Legacy.OutputRows` | main.go:190-194 | a 5-column header row, then one row `[ID, FullName, Tag, Code, URL]` per record in input order, every row five wide |

## Left out

- Crawling is not modelled: `buildNodes`, `generate`, the colly callbacks, the queue and how the parent URL is passed along. This is asynchronous I/O inside an external library. `Builder.Build` stands for the sequence of `addNode` calls it makes.
- `processLink`, `getLabels` and `createID` are not modelled. They read colly responses, draw random UUIDs and trim Unicode space. The page record is taken as input.
- The HTTP handlers, the host allow-list, `getPostParameters`, `handleJSON` and `handleError` are not modelled. These are request and response I/O and JSON encoding. The `omitempty` rule that hides a zero `Value` or an empty `ColName` is shown only as the value 0 or the empty string.
- CSV encoding and file writing in `outputData` are not modelled. Only the rows are (`Legacy.OutputRows`).
- Configuration loading, reading the allowed-sites file, and server, signal and route wiring are not modelled.
- The TypeScript front end is UI code and is not part of this model.
- The arena's `Valid` precondition on `Builder.AddNode` is not a demand of the Go code. It states that the arena stands for live pointers.
- Go strings are bytes and model strings are characters. `Treegraph.ItemOf` drops the last character, while Go drops the last byte. The two agree whenever the name ends in a one-byte character, and every name `processTreegraph` produces ends in `.`.
- The in-place effects of the walks on the arena (the renamed root under `""`, names written into nodes) are not modelled. The arena is discarded after rendering, so only the returned graph is kept.
- `Builder.AddNodeOrdered`: its precondition rules out a page whose parent URL equals its own URL. `Builder.SelfParentMakesLoop` shows what happens then.

## Findings

| source | as written | input that shows it | evidently intended | confidence | as-written member | corrected member |
|---|---|---|---|---|---|---|
| api/routes/links.go:65-76 | the child slice is sized to the node's child count even when the depth limit stops the recursion, so a truncated interior item carries nil slots and, its slice not being empty, no `Value` | a root with one childless child, `maxDepth = 1`: the item has children `[nil]` and no `Value` (the d3 hierarchy in the front end then meets a null child) | a node cut off by the limit is rendered as a leaf: empty children and `Value = 1` | medium, not executed | `Treemap.TruncatedInteriorHasNoValue` | `Treemap.NodeToItemPruned` |
