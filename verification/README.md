# openEO process-graph compiler — a Dafny model

An openEO process graph is a JSON document of nested processes. Each
process names a `process_id`, holds `arguments`, and refers to other
processes by `from_node`, `from_parameter` or `from_argument`
references. Processes such as reducers embed a sub-process graph, which
is called a callback. The compiler turns such a document into a graph
of nodes and edges. It resolves every reference and binds each callback
argument to the result node below it. It also validates the graph
against a process catalogue and a collection catalogue, and it orders
the nodes for execution.

The model covers three generations of the compiler:

- **Current generation** (`src/openeo_pg_parser`):
  - the recursive walk that numbers nodes (module Walk);
  - the node and graph store with its queries (modules Graph and Adjacency);
  - the sorting by dependency and by depth (module Sorting);
  - the three linking passes and the top-level `translate_process_graph` (module Translate);
  - the catalogue definitions (module Definitions);
  - the JSON path helpers and in-memory loaders (module Utils);
  - validation (module Validate).
- **Legacy generation** (`src/openeo_pg_parser_python`):
  - its graph store, where edges are kept per node (module LegacyGraph);
  - the random-id walk (module LegacyTranslate);
  - the `from_node`, `from_argument` and callback passes and `translate_graph` (module LegacyLink);
  - the key-path walk `walk_pg_arguments` (module KeyWalk).
- **v04 processing container** (`src/processing_container_v04`):
  - its graph store additions (module V04Graph);
  - `create_links`, `from_node`, the id formats, and `update_sub_graphs` (module V04Translate);
  - `walkdict` (module KeyWalk).

The dependency ordering that both older generations share is in module
Ordering.

Some modules hold the shared foundations:

- Results holds the error catalogue and the Option and Result types.
- Seqs, Strs and Dicts give Python's list, string and insertion-ordered
  dictionary semantics.
- Json models documents as `json.load` returns them.

A Python exception is an `Err` that carries the kind of exception the
source raises at that point. Each pass is a pure function from graph to
graph or error. Where the source mutates node contents in place, the
model returns the rewritten graph.

Several passes are parameterised by a `Version`:

- `AsWritten` follows the source as written, within the limits listed under "## Left out".
- `AsIntended` is the evidently intended behaviour.

The two differ only where the source does not do what it evidently
means (see "## Findings"). Every property about a correct result is
proved about the intended reading. For each discrepancy, the as-written
reading comes with a lemma that exhibits it.

## Model

| member | source | states |
|---|---|---|
| Utils.Keys2StrConcat | src/openeo_pg_parser/utils.py:151-157 | `keys2str` of a concatenated path is the concatenation of the two renderings |
| Utils.Step | src/openeo_pg_parser/utils.py:176-177 | one indexing step reads a dictionary key iff the key is present, and a list position iff it lies in `-len..len-1` |
| Utils.GetPathConcat | src/openeo_pg_parser/utils.py:159-177 | reading along `p + q` is reading along `p` and then along `q` from the element reached, with the first error kept |
| Utils.StepSet | src/openeo_pg_parser/utils.py:199-201 | after a successful assignment the key reads back the assigned value, and the container never shrinks |
| Utils.SetPath | src/openeo_pg_parser/utils.py:180-201 | with an empty path the object comes back unchanged |
| Utils.GetAfterSet | src/openeo_pg_parser/utils.py:180-201 | reading back at the path just written gives the written value |
| Utils.StrReachesStr | src/openeo_pg_parser/utils.py:176-177 | indexing into a string can only reach strings |
| Utils.NotThroughStr | src/openeo_pg_parser/utils.py:176-177 | a path that reaches a dictionary or list does not start at a string |
| Utils.SetWhereReadable | src/openeo_pg_parser/utils.py:199-201 | an assignment succeeds at every readable path whose last container is a dictionary or list |
| Utils.ReadBelowKey | src/openeo_pg_parser/utils.py:176-177 | a value read below a string key sits in a dictionary |
| Utils.ReadContainer | src/openeo_pg_parser/utils.py:176-177 | a dictionary or list read at a nonempty path sits in a dictionary or list |
| Utils.SetLeavesOthers | src/openeo_pg_parser/utils.py:199-201 | writing at one path leaves every path that parts ways with it unchanged |
| Utils.StepSetOther | src/openeo_pg_parser/utils.py:199-201 | assigning one key leaves any other plain key alone |
| Utils.Splice | src/openeo_pg_parser/utils.py:200 | the text `str(value)` is evaluated again: non-strings reproduce themselves; a string comes back only as the body of a single-quoted literal, and raises NameError exactly when it is a name bound nowhere |
| Utils.SpliceQuoted | src/openeo_pg_parser/utils.py:200 | a string with no quote, backslash, line break or NUL, wrapped in single quotes, survives the splice |
| Utils.UnderHas | src/openeo_pg_parser_python/translate_process_graph.py:107-109 | a path is listed under the argument key iff it starts with that key and continues with one of the paths found inside the argument |
| Utils.EndingIn | src/openeo_pg_parser_python/translate_process_graph.py:108 | keeps exactly those paths whose last key is the reference kind |
| Utils.IndexById | src/openeo_pg_parser/utils.py:85-87 | the id-keyed map has unique keys |
| Utils.IndexByIdOk | src/openeo_pg_parser/utils.py:85-87 | indexing fails exactly when some definition has no string `id` |
| Utils.IndexByIdAbsent | src/openeo_pg_parser/utils.py:85-87 | an id that no definition carries is not filed |
| Utils.IndexByIdLastWins | src/openeo_pg_parser/utils.py:85-87 | a filed id maps to the last definition carrying it, so a later duplicate wins |
| Utils.LoadProcessesOk | src/openeo_pg_parser/utils.py:68-89 | a source loads iff it is a dictionary, or a list whose every definition has a string `id` (`load_collections`, lines 113-133, is the same function) |
| Utils.LoadProcessesFinds | src/openeo_pg_parser/utils.py:84-89 | in a loaded list an id finds the last definition carrying it, and nothing when no definition carries it |
| Definitions.FromName | src/openeo_pg_parser/definitions.py:69-75 | succeeds iff the name is a catalogue key; the result wraps exactly that entry; an unknown name gives UnknownProcess |
| Definitions.GetOrNull | src/openeo_pg_parser/definitions.py:109-122 | the optional metadata (returns, exceptions, process_graph, and likewise description) reads as null when absent and as the stored value otherwise |
| Definitions.IsOptional | src/openeo_pg_parser/definitions.py:151-154 | `optional` reads as false when absent or null, and otherwise as the stored value |
| Definitions.DefaultValue | src/openeo_pg_parser/definitions.py:157-159 | `default` reads as null when absent, and otherwise as the stored value |
| Definitions.Declaration | src/openeo_pg_parser/definitions.py:95-99 | one definition yields a parameter iff it has a string `name` and a `schema` that supports `in`; the parameter wraps the definition under its name, is required iff the catalogue says so, and nests iff its schema mentions `parameters` |
| Definitions.DeclaredFrom | src/openeo_pg_parser/definitions.py:94-100 | declaring into a map with unique keys leaves a map with unique keys |
| Definitions.Parameters | src/openeo_pg_parser/definitions.py:88-102 | the name-keyed parameter map has unique keys |
| Definitions.DeclaredAbsent | src/openeo_pg_parser/definitions.py:94-98 | a name no remaining definition declares keeps its earlier entry, so it is absent from a fresh `parameters` |
| Definitions.DeclaredLastWins | src/openeo_pg_parser/definitions.py:94-98 | a declared name maps to its last declaration, so a later duplicate wins |
| Definitions.DeclaredNamed | src/openeo_pg_parser/definitions.py:94-97 | if every entry so far is filed under the name its definition declares, with the catalogue's required flag, every entry afterwards is too |
| Definitions.ParametersNamed | src/openeo_pg_parser/definitions.py:96-97 | the same, for each entry of `parameters` |
| Definitions.SubProcessAbsent | src/openeo_pg_parser/definitions.py:94-100 | without a further schema that mentions `parameters`, `sub_process` keeps its value, so it stays None from a fresh start |
| Definitions.SubProcessIsLastNesting | src/openeo_pg_parser/definitions.py:99-100 | `sub_process` is the schema of the last parameter whose schema mentions `parameters` |
| Definitions.IsReducer | src/openeo_pg_parser/definitions.py:105-107 | holds iff a non-null `categories` entry contains "reducer"; a missing entry gives false |
| Adjacency.AddEdge | src/openeo_pg_parser/graph.py:231-239 | the edge is listed afterwards; an equal edge (same ordered endpoints and kind) already listed leaves the list unchanged; otherwise the edge is appended; a duplicate-free list stays duplicate-free |
| Adjacency.AddEdgeAt | src/openeo_pg_parser/graph.py:217-239 | `add_edge` changes only the one node's list |
| Adjacency.CreateEdge | src/openeo_pg_parser/graph.py:22-47 | the edge `<from>_<to>` is listed on both endpoints, no other node's list changes, and lists only grow by that edge |
| Adjacency.PushEdge | src/openeo_pg_parser/graph.py:638-640 | one edge is added to each endpoint other than the node itself; lists only grow, and only by that edge |
| Adjacency.PushEdges | src/openeo_pg_parser/graph.py:637-640 | every edge of the node is listed on its other endpoints, the node's own list is unchanged, and lists grow only by those edges |
| Adjacency.Update | src/openeo_pg_parser/graph.py:626-642 | `update` only appends edges |
| Adjacency.PushedSettles | src/openeo_pg_parser/graph.py:637-640 | after a node pushed its edges, each of them is listed on both endpoints |
| Adjacency.UpdateStep | src/openeo_pg_parser/graph.py:636-640 | each further node of the pass keeps settled edges settled and settles its own edges and the ones it appends |
| Adjacency.UpdateSettles | src/openeo_pg_parser/graph.py:636-642 | after the pass, every edge of a visited node and every appended edge is on both endpoints |
| Adjacency.UpdateSymmetric | src/openeo_pg_parser/graph.py:636-642 | when every node with edges is visited, every listed edge ends up listed on both endpoints |
| Adjacency.AddEdgeAtNoOp | src/openeo_pg_parser/graph.py:231-237 | adding an edge that is already listed changes nothing |
| Adjacency.PushEdgesNoOp | src/openeo_pg_parser/graph.py:637-640 | on a store where every edge is on both endpoints, pushing a node's edges changes nothing |
| Adjacency.UpdateNoOp | src/openeo_pg_parser/graph.py:636-642 | on a store where every edge is on both endpoints, `update` changes nothing |
| Adjacency.UpdateIdempotent | src/openeo_pg_parser/graph.py:636-642 | `update` only appends edges, and running it twice equals running it once |
| Adjacency.UpdateClosed | src/openeo_pg_parser/graph.py:636-642 | on a store whose endpoints all have entries, `update` adds no node and keeps that property |
| Adjacency.UpdateEndsIn | src/openeo_pg_parser/graph.py:636-642 | `update` copies only listed edges, so all endpoints stay inside any set that held them |
| Adjacency.UpdateKeys | src/openeo_pg_parser/graph.py:636-642 | `update` adds node entries only for endpoints of listed edges |
| Graph.FromList | src/openeo_pg_parser/graph.py:333-351 | the result has no repeated id and holds exactly the listed ids |
| Graph.Along | src/openeo_pg_parser/graph.py:116-128 | a node is a relative iff some matching edge leads to it |
| Graph.Relatives | src/openeo_pg_parser/graph.py:99-130 | with `ancestor` the relatives are the `nodes[0]` of the edges whose `nodes[1]` is this node (the reverse otherwise), filtered by kind only when `link` is given |
| Graph.Single | src/openeo_pg_parser/graph.py:132-183 | `parent`/`child`: none iff no edge matches; the one relative when all matching edges lead to one node; the given error iff two matching edges lead to different nodes |
| Graph.NodeByName | src/openeo_pg_parser/graph.py:395-413 | none iff no node has the name; otherwise a node with that name, and no earlier node has it |
| Graph.GetItem | src/openeo_pg_parser/graph.py:357-383 | a node id is taken first; then an integer position (negative counts from the end, out of range fails); then the first node with that name; otherwise KeyError |
| Graph.ExpandMembers | src/openeo_pg_parser/graph.py:438-439 | one round of `lineage` collects exactly the relatives of the current nodes |
| Graph.LineageLoop | src/openeo_pg_parser/graph.py:436-446 | the collected nodes only grow |
| Graph.Lineage | src/openeo_pg_parser/graph.py:415-448 | the lineage is a duplicate-free selection over the same arena |
| Graph.FrontierIsWalks | src/openeo_pg_parser/graph.py:436-446 | the nodes of round `k` are exactly the ends of the walks of `k` relatives steps from the start |
| Graph.LoopCollects | src/openeo_pg_parser/graph.py:436-446 | the loop collects exactly the nodes of all later rounds |
| Graph.LineageWf | src/openeo_pg_parser/graph.py:415-448 | a lineage over a consistent arena is consistent |
| Graph.LineageIsReach | src/openeo_pg_parser/graph.py:434-448 | the start node is in the lineage iff `include_node`; every other member is the end of a walk of one or more relatives steps, and every such end is a member |
| Graph.DivergesHasLongWalk | src/openeo_pg_parser/graph.py:436-446 | when the model stops the loop, some walk from the node is longer than the number of nodes with edges |
| Graph.Peers | src/openeo_pg_parser/graph.py:468-476 | the scan succeeds iff every other node's parent (or child) can be taken; it keeps exactly the other nodes with the same one, or none when this node has none |
| Graph.SameLevel | src/openeo_pg_parser/graph.py:450-514 | `find_siblings`/`find_partners`: another node is kept iff it has the same parent (child) id, or both have none; the node itself is kept iff `include_node`; the result is duplicate-free |
| Graph.Update | src/openeo_pg_parser/graph.py:626-642 | `update` keeps nodes and order, only appends edges, and leaves every edge on both endpoints |
| Graph.UpdateWf | src/openeo_pg_parser/graph.py:626-642 | `update` keeps the arena consistent |
| Graph.Arguments | src/openeo_pg_parser/graph.py:795-803 | the node needs stored `arguments` and declared parameters; every stored argument keeps its value, every declared parameter it lacks holds its default, and no other key appears; the declared parameters are read first, so their error wins when both lookups fail |
| Graph.WithDefaults | src/openeo_pg_parser/graph.py:799-804 | stored arguments keep their values; every declared parameter they lack gets its default; no other key appears |
| Graph.FirstWithParameters | src/openeo_pg_parser/graph.py:808-818 | the first argument (defaults included) that is a dictionary with `parameters` decides; its definitions are read from the stored content, and a KeyError follows when that argument is only a filled-in default; with no such argument the node has no parameters |
| Graph.ParentProcess | src/openeo_pg_parser/graph.py:838-855 | none iff no callback edge leaves the node; otherwise the one node all its callback edges lead to; several such nodes raise |
| Graph.ChildProcesses | src/openeo_pg_parser/graph.py:858-871 | exactly the sources of the callback edges into the node, without repeats |
| Graph.ResultProcesses | src/openeo_pg_parser/graph.py:874-887 | exactly the child processes marked as result, without repeats |
| Graph.Filter | src/openeo_pg_parser/graph.py:886 | keeps exactly the listed nodes marked as result |
| Graph.Dimension | src/openeo_pg_parser/graph.py:952-958 | a non-reducer has no dimension; a reducer with its own `dimension` argument has that value |
| Graph.DimensionFromParent | src/openeo_pg_parser/graph.py:955-958 | a reducer without its own `dimension` argument has its parent process's dimension |
| Graph.ParentInGraph | src/openeo_pg_parser/graph.py:838-855 | the parent process of a node of a consistent graph is a node of the graph |
| Sorting.AllEdges | src/openeo_pg_parser/graph.py:536-540 | exactly the edges listed on the given nodes |
| Sorting.Collect | src/openeo_pg_parser/graph.py:536-540 | appends only non-callback edges of the input, no repeated edge, and every non-callback edge of the input is present |
| Sorting.CollectEdges | src/openeo_pg_parser/graph.py:536-540 | every non-callback edge of the graph, each equal edge once, and nothing else |
| Sorting.MarkerPair | src/openeo_pg_parser/graph.py:542-567 | a dependency always runs from the edge's source node to its target node |
| Sorting.MarkerPairs | src/openeo_pg_parser/graph.py:542-567 | exactly the dependencies of the listed edges |
| Sorting.Arcs | src/openeo_pg_parser/graph.py:569-570 | one arc per dependency, between the vertex names of its markers |
| Sorting.Vertices | src/openeo_pg_parser/graph.py:569-570 | each arc end once, and nothing else |
| Sorting.PlaceReady | src/openeo_pg_parser/graph.py:571 | placing a vertex whose dependencies are all placed keeps the order topological |
| Sorting.FirstReady | src/openeo_pg_parser/graph.py:571 | the first remaining vertex whose dependencies are all placed, or none when no remaining vertex is ready |
| Sorting.Kahn | src/openeo_pg_parser/graph.py:571 | a topological order without repeats that extends the placed vertices and adds only remaining ones; every remaining vertex it leaves out still waits on an unplaced dependency |
| Sorting.KahnStuckStep | src/openeo_pg_parser/graph.py:571 | a vertex left out of the order after a placement is still blocked |
| Sorting.KahnPlacesRanked | src/openeo_pg_parser/graph.py:571 | when a numbering of the vertices climbs along every arc (no cycle), every remaining vertex is placed |
| Sorting.Collapse | src/openeo_pg_parser/graph.py:573-585 | every node id in the order comes from one of the vertex names |
| Sorting.Keep | src/openeo_pg_parser/graph.py:575-583 | a kept marker stands for its own node |
| Sorting.CollapseIn | src/openeo_pg_parser/graph.py:575-580 | for an id ending in a digit, `<id>_in` becomes `<id>` when entries are kept and is dropped otherwise |
| Sorting.CollapseOut | src/openeo_pg_parser/graph.py:575-583 | for an id ending in a digit, `<id>_out` becomes `<id>` when exits are kept and is dropped otherwise |
| Sorting.CollapseMarker | src/openeo_pg_parser/graph.py:573-585 | for an id ending in a digit, stripping the tag characters gives back exactly the kept id |
| Sorting.CollapseOrder | src/openeo_pg_parser/graph.py:573-585 | collapsing keeps the relative order of the kept ids |
| Sorting.CollapsePrefix | src/openeo_pg_parser/graph.py:573-585 | the collapsed order of a prefix of the names is a prefix of the collapsed order |
| Sorting.CollectedEnds | src/openeo_pg_parser/graph.py:536-540 | in a consistent graph the collected edges join nodes of the graph |
| Sorting.ArcOfEdge | src/openeo_pg_parser/graph.py:542-570 | every dependency comes from a collected edge |
| Sorting.EdgeArc | src/openeo_pg_parser/graph.py:542-570 | the dependency of each collected edge is an arc |
| Sorting.Order | src/openeo_pg_parser/graph.py:569-571 | a topological order of the dependency graph without repeats, over its vertices only |
| Sorting.OrderComplete | src/openeo_pg_parser/graph.py:569-571 | on a dependency graph without a cycle the order holds every vertex |
| Sorting.OrderVertex | src/openeo_pg_parser/graph.py:542-571 | every vertex of the order is the name of one marker of a collected edge's dependency |
| Sorting.LinearSortingEnds | src/openeo_pg_parser/graph.py:516-585 | every sorted node is kept by a marker of a collected non-callback edge's dependency, so a node without such edges is absent |
| Sorting.VertexEnds | src/openeo_pg_parser/graph.py:573-585 | the node one vertex of the order contributes is the one its marker keeps, an end of a collected edge |
| Sorting.KeptName | src/openeo_pg_parser/graph.py:575-583 | a node id that a marker name contributes is the id the marker keeps |
| Sorting.LinearSortingHasEnds | src/openeo_pg_parser/graph.py:516-585 | without a cycle, every kept marker of a collected edge's dependency puts its node into the order |
| Sorting.LinearSortingOrder | src/openeo_pg_parser/graph.py:516-585 | without a cycle, when an edge makes one node a dependency of another and both markers are kept, the dependency comes first in the linear order |
| Sorting.InsertByDepth | src/openeo_pg_parser/graph.py:616-619 | inserting into a depth-sorted list keeps it depth-sorted and adds exactly the one node |
| Sorting.SortByDepth | src/openeo_pg_parser/graph.py:616-619 | a permutation of the input with depth never decreasing |
| Sorting.LookUpAll | src/openeo_pg_parser/graph.py:608-615 | fails iff some id cannot be looked up; otherwise one looked-up node per id, in order, all in the graph |
| Sorting.SortByDependency | src/openeo_pg_parser/graph.py:608-617 | the nodes and edges are kept and only graph nodes are listed; with every node listed and ids ending in a digit it lists exactly the collapsed order, de-duplicated |
| Sorting.SortGraphByDepth | src/openeo_pg_parser/graph.py:616-619 | the ids are permuted shallow first; nodes and edges are kept |
| Sorting.Sort | src/openeo_pg_parser/graph.py:587-624 | an unknown strategy is a ValueError; `depth` always succeeds with a permutation sorted by depth; with every node listed and numbered, `dependency` lists the entry order and `result` the exit order; nodes and edges never change |
| Sorting.LookUpListed | src/openeo_pg_parser/graph.py:608-615 | looking up listed ids gives them back unchanged |
| Sorting.LinearSortingListed | src/openeo_pg_parser/graph.py:608-615 | with every node listed and ids ending in a digit, every id of the collapsed order looks up itself |
| Walk.NodeIdInjective | src/openeo_pg_parser/translate.py:57-58 | `<key>_<counter>` ids with different counters differ, whatever the keys |
| Walk.LastId | src/openeo_pg_parser/translate.py:62-64 | the last non-empty entry of the id stack, with none after it; an IndexError iff every entry is empty |
| Walk.FreshId | src/openeo_pg_parser/translate.py:57-58 | numbering by the count of existing nodes gives an id not yet used |
| Walk.EnclosingSnoc | src/openeo_pg_parser/graph.py:159-183 | an edge that does not leave a node leaves that node's callback targets unchanged |
| Walk.CallbackEdge | src/openeo_pg_parser/translate.py:66 | the callback edge of a new node gives it exactly its enclosing node as target and changes no other node's targets |
| Walk.ChildPath | src/openeo_pg_parser/translate.py:52-55 | the child's key path extended by its key reaches the child in the document |
| Walk.Visit | src/openeo_pg_parser/translate.py:53-71 | a node is created iff the dictionary holds `process_id`; an unknown process fails; created nodes keep their facts; the new node sits at its key path |
| Walk.AddNumbered | src/openeo_pg_parser/translate.py:57-71 | adding the node numbered by the current count keeps ids numbered in creation order and edges between created nodes |
| Walk.NodeOkKept | src/openeo_pg_parser/translate.py:52-80 | a node's facts hold on as long as the nodes stay and its callback targets do not change |
| Walk.AddTop | src/openeo_pg_parser/translate.py:57-71 | a top-level node has no callback edge and depth 0, and the invariant holds after adding it |
| Walk.StackNearest | src/openeo_pg_parser/translate.py:62-65 | the last id on the stack is the nearest node enclosing the new one |
| Walk.CallbackEnds | src/openeo_pg_parser/translate.py:66 | after the callback edge, all edges still join created nodes |
| Walk.AddNested | src/openeo_pg_parser/translate.py:62-71 | a nested node with its one callback edge to the nearest enclosing node, one level deeper, keeps the invariant |
| Walk.NestedOk | src/openeo_pg_parser/translate.py:62-69 | a nested node's callback target is its nearest enclosing node and its depth is one more |
| Walk.AllKept | src/openeo_pg_parser/translate.py:62-71 | adding a node keeps the facts of every older node |
| Walk.WalkFrom | src/openeo_pg_parser/translate.py:52-80 | walking the entries keeps every fact of the created nodes, and the nodes it adds sit, in creation order, at exactly the key paths of the process dictionaries met in document order |
| Walk.StackPush | src/openeo_pg_parser/translate.py:75-77 | pushing the visited child's id (or nothing) keeps the stack in step with the key path |
| Walk.WalkProcessGraph | src/openeo_pg_parser/translate.py:13-88 | a non-dictionary fails; otherwise every node sits at its key path, is named after its key, is numbered in creation order, and has one callback edge to its nearest enclosing node, one level up; the nodes, in creation order, sit at exactly the key paths of the process dictionaries met in document order |
| Walk.VisitKeys | src/openeo_pg_parser/translate.py:53-71 | visiting a dictionary adds its own key path iff it is a process dictionary, and nothing else |
| Walk.DocPathsComplete | src/openeo_pg_parser/translate.py:52-80 | every process dictionary reached through dictionaries is met by the loop |
| Walk.DocPathsSound | src/openeo_pg_parser/translate.py:52-80 | every path the loop meets reaches a process dictionary through dictionaries |
| Walk.DocPathsExactly | src/openeo_pg_parser/translate.py:52-80 | from the top, the paths met are exactly those reaching a process dictionary through dictionaries |
| Walk.WalkProcessGraphNodes | src/openeo_pg_parser/translate.py:13-88 | a key path reaches a process dictionary through dictionaries iff some created node sits there |
| KeyWalk.Close | src/openeo_pg_parser_python/translate_process_graph.py:94-98 | leaving goes one level up; an empty branch records nothing |
| KeyWalk.WalkDict | src/processing_container_v04/translate_process_graph.py:64-83 | fails iff the input is not a dictionary or holds no dictionary value |
| KeyWalk.Leaves | src/processing_container_v04/translate_process_graph.py:64-83 | a value always contributes at least one path |
| KeyWalk.LeavesExtend | src/processing_container_v04/translate_process_graph.py:64-83 | every reported path extends the path of the value it was reported below |
| KeyWalk.LeavesFromEmpty | src/processing_container_v04/translate_process_graph.py:64-83 | the children report nothing iff none of them is entered |
| KeyWalk.LoopStep | src/openeo_pg_parser_python/translate_process_graph.py:75-92 | one loop step enters the child (when it is entered at all) and then continues with the next |
| KeyWalk.KeysDistinct | src/openeo_pg_parser_python/translate_process_graph.py:75-92 | distinct children have distinct keys |
| KeyWalk.WalkLeaves | src/openeo_pg_parser_python/translate_process_graph.py:68-100 | one call on a value entered under a fresh branch records exactly the value's leaf paths, pops the branch and goes one level up |
| KeyWalk.LoopLeaves | src/openeo_pg_parser_python/translate_process_graph.py:75-92 | the loop records the leaves of the entered children, keeps branch and level, and records a descent iff it entered something |
| KeyWalk.EnterChild | src/openeo_pg_parser_python/translate_process_graph.py:77-83 | walking one child records its leaves and returns to the same branch and level |
| KeyWalk.FreshAfterChild | src/openeo_pg_parser_python/translate_process_graph.py:95 | after a child's leaves are recorded no recorded path runs through a later child, so the `not in` test never blocks |
| KeyWalk.WalkPaths | src/openeo_pg_parser_python/translate_process_graph.py:68-100 | from the top, the walk records exactly the structural paths |
| KeyWalk.WalkArgumentsPaths | src/openeo_pg_parser_python/translate_process_graph.py:68-100 | `walk_pg_arguments` records the paths of every value with no dictionary or list below it |
| KeyWalk.WalkDictPaths | src/processing_container_v04/translate_process_graph.py:64-83 | `walkdict` fails iff the top holds no dictionary value; otherwise it reports the paths of the dictionaries with no dictionary below them, at least one |
| KeyWalk.ChildAtKey | src/openeo_pg_parser_python/translate_process_graph.py:78 | the child under its key is the one `pg_graph[k]` gives |
| KeyWalk.LeavesSound | src/openeo_pg_parser_python/translate_process_graph.py:95-97 | every reported path reaches a value below which nothing is entered |
| KeyWalk.LeavesFromHas | src/openeo_pg_parser_python/translate_process_graph.py:75-92 | a child's leaves are among the leaves of the loop that enters it |
| KeyWalk.LeavesComplete | src/openeo_pg_parser_python/translate_process_graph.py:68-100 | every reached value with nothing entered below it is reported under its path |
| KeyWalk.ChildIndex | src/openeo_pg_parser_python/translate_process_graph.py:75-92 | the child entered under a key is at some loop position with that key |
| KeyWalk.PathsExactly | src/openeo_pg_parser_python/translate_process_graph.py:68-100 | a path is reported iff it is non-empty and reaches a value with nothing entered below it |
| KeyWalk.AtIsIndexing | src/openeo_pg_parser/utils.py:159-177 | the value a reported path reaches is what indexing the document along that path gives |
| Ordering.Scan | src/openeo_pg_parser_python/graph.py:175-177 | the insertion point only moves forward, stays within the list, and when it moved it lies right behind an occurrence of the dependency |
| Ordering.ScanAll | src/openeo_pg_parser_python/graph.py:174-177 | after all dependencies the insertion point lies within the list, right behind one of them when it moved |
| Ordering.InsertAt | src/openeo_pg_parser_python/graph.py:173-177 | the node goes to the front or right behind a placed dependency |
| Ordering.InsertionOrder | src/openeo_pg_parser_python/graph.py:169-178 | one placed entry per node |
| Ordering.InsertMultiset | src/openeo_pg_parser_python/graph.py:178 | `list.insert` adds exactly the one element |
| Ordering.InsertionOrderPerm | src/openeo_pg_parser_python/graph.py:169-182 | both comparison variants order a permutation of the nodes |
| Ordering.ScanPassesAll | src/openeo_pg_parser_python/graph.py:175-177 | with `>=` the scan ends behind every occurrence of the dependency |
| Ordering.ScanAllPassesAll | src/openeo_pg_parser_python/graph.py:174-177 | with `>=` the insertion point lies behind every placed dependency |
| Ordering.InsertAtRightmost | src/openeo_pg_parser_python/graph.py:173-177 | with `>=` the node goes right behind its right-most placed dependency, or to the front when none is placed |
| Ordering.InsertFirstIndex | src/openeo_pg_parser_python/graph.py:178 | after inserting a new element at a position, it is there and the old elements behind it shift by one |
| Ordering.InsertKeepsBefore | src/openeo_pg_parser_python/graph.py:178 | inserting keeps the relative order of old elements |
| Ordering.InsertBehind | src/openeo_pg_parser_python/graph.py:178 | an old element before the insertion point stays before the new one |
| Ordering.InsertionOrderRespects | src/openeo_pg_parser_python/graph.py:167-182 | with `>=` every dependency that comes earlier in graph order stays before its dependant |
| Ordering.StrictOrderMisplaces | src/processing_container_v04/graph.py:158-162 | with `>`, a node whose only dependency is the first node is put in front of it; with `>=` it goes behind |
| Translate.WriteReadsBack | src/openeo_pg_parser/utils.py:180-201 | a rewritten value reads back at its path (as itself when intended, as its evaluated text when written), and every path that parts ways with it reads as before |
| Translate.SpliceId | src/openeo_pg_parser/translate.py:141 | a node id that is a Python identifier, spliced as assignment text, names an unbound variable |
| Translate.InputsFrom | src/openeo_pg_parser/translate.py:108-114 | every collected path leads through an argument's key to a path inside its value that ends in the link key |
| Translate.RefPathUnder | src/openeo_pg_parser/translate.py:112 | a walked path ending in the link key, led by the argument's key, is a reference path of that argument |
| Translate.InputsFromComplete | src/openeo_pg_parser/translate.py:108-114 | every reference path of an argument at or after the start is collected |
| Translate.FindNodeInputs | src/openeo_pg_parser/translate.py:91-115 | the paths are found iff the node's arguments (with defaults) form a dictionary, and are those of its entries |
| Translate.FindNodeInputsExact | src/openeo_pg_parser/translate.py:91-115 | a path is found iff it ends in the link key inside one argument, led by that argument's key |
| Translate.RetouchedTrans | src/openeo_pg_parser/translate.py:292-327 | changing only contents and appending edges between arena nodes composes across the passes |
| Translate.DataAddedTrans | src/openeo_pg_parser/translate.py:292-327 | appending only data edges composes across the passes |
| Translate.RetouchedWf | src/openeo_pg_parser/translate.py:292-327 | changing contents and appending arena edges keeps the graph consistent |
| Translate.SelectionWf | src/openeo_pg_parser/graph.py:333-351 | a duplicate-free list of arena ids is a consistent graph over the same arena |
| Translate.Recontent | src/openeo_pg_parser/translate.py:141 | only the one node's content changes; its id, name, depth, keys and process stay |
| Translate.WithArguments | src/openeo_pg_parser/translate.py:141 | the node's `arguments` entry reads back as the new value |
| Translate.DataEdgeRetouched | src/openeo_pg_parser/translate.py:149-175 | a data edge between arena nodes only appends a data edge |
| Translate.FromNodeRef | src/openeo_pg_parser/translate.py:135-144 | resolving one reference keeps the ids, changes only contents and appends only data edges |
| Translate.Rewire | src/openeo_pg_parser/translate.py:141-142 | the node's arguments are replaced and a data edge from the referenced node is created, nothing else |
| Translate.FromNodeKeepsIds | src/openeo_pg_parser/translate.py:137-138 | a reference that already holds a node id is skipped |
| Translate.FromNodeUnresolved | src/openeo_pg_parser/translate.py:139-144 | resolving a name fails iff no node of the same level has that name |
| Translate.FromNodeBinds | src/openeo_pg_parser/translate.py:139-142 | a resolved name now holds the id of the first same-level node with that name, joined to it by a data edge listed on both ends |
| Translate.FromNodeAsWrittenFails | src/openeo_pg_parser/translate.py:141 | as written, when the same-level ids are Python identifiers, resolving a name that a same-level node has fails with NameError, because the id is spliced unquoted |
| Translate.FromNodeRerun | src/openeo_pg_parser/translate.py:137-138 | resolving a reference a second time changes nothing |
| Translate.FromNodeRefs | src/openeo_pg_parser/translate.py:135-144 | the node's references are resolved with ids kept, only data edges appended, and every other node unchanged |
| Translate.FromNodeRefKeeps | src/openeo_pg_parser/translate.py:141 | resolving one reference leaves every path that parts ways with it unchanged |
| Translate.FromNodeRefsKeep | src/openeo_pg_parser/translate.py:135-144 | resolving the references leaves every path that parts ways with all of them unchanged |
| Translate.FromNodeRefsBind | src/openeo_pg_parser/translate.py:135-144 | as intended, after the pass every reference that ends in a key holds a node id |
| Translate.FromNodesFrom | src/openeo_pg_parser/translate.py:132-146 | the pass from a node on leaves the earlier nodes unchanged and keeps the graph consistent |
| Translate.AdjustFromNodes | src/openeo_pg_parser/translate.py:117-147 | `adjust_from_nodes` keeps the ids, changes only contents and appends only data edges |
| Translate.LocalMatch | src/openeo_pg_parser/translate.py:243-248 | the first parameter definition with the name, all earlier ones having another name; none iff no definition has it |
| Translate.ScopeMatch | src/openeo_pg_parser/translate.py:208-248 | what a scope binds is a parameter of that scope, never a global |
| Translate.ScopeMatchOrder | src/openeo_pg_parser/translate.py:211-248 | the sub-parameters of the scope's process win over its parameters, which win over definitions in its arguments; no answer means none of them has the name; an unhashable name fails |
| Translate.Lookup | src/openeo_pg_parser/translate.py:206-263 | the nearest scope that answers decides; a scope's error ends the search; when no scope answers the global value is used, and a name undefined there is a ValueError |
| Translate.Answers | src/openeo_pg_parser/translate.py:208-248 | one answer per scope, in order, none of them a global |
| Translate.Chosen | src/openeo_pg_parser/translate.py:223-225 | with as many references as data inputs, only the input at the sub-parameter's position (IndexError past the end); otherwise all inputs |
| Translate.AddInputs | src/openeo_pg_parser/translate.py:226-227 | a data edge from every chosen input into the node, on both ends; nodes unchanged |
| Translate.Bind | src/openeo_pg_parser/translate.py:212-257 | storing a binding keeps the ids, appends only data edges and changes no other node |
| Translate.Store | src/openeo_pg_parser/translate.py:219-257 | the store succeeds iff the write succeeds, and then the node's arguments are the written value |
| Translate.BindInputs | src/openeo_pg_parser/translate.py:214-232 | a required sub-parameter keeps the ids, appends only data edges and changes no other node |
| Translate.ReplaceHolder | src/openeo_pg_parser/translate.py:219 | the dictionary holding the reference key can be replaced and reads back as the replacement |
| Translate.BindValueStored | src/openeo_pg_parser/translate.py:233-257 | as intended, a default or global value replaces the dictionary that held the reference, with no new edge |
| Translate.BindScopeItself | src/openeo_pg_parser/translate.py:216-219 | a required sub-parameter of a scope without data inputs reads the scope itself over a hidden data edge |
| Translate.BindScopeInputs | src/openeo_pg_parser/translate.py:221-232 | a required sub-parameter of a scope with data inputs reads the chosen inputs, one object or a list, each over a data edge |
| Translate.BindAsWrittenRejectsText | src/openeo_pg_parser/translate.py:235-257 | as written, a default or global value that is a string naming nothing bound (an identifier holding a digit) is spliced as text and raises NameError |
| Translate.FromParameterRef | src/openeo_pg_parser/translate.py:203-263 | resolving one reference keeps the ids, appends only data edges and changes no other node |
| Translate.FromParameterUndefined | src/openeo_pg_parser/translate.py:254-263 | a name no scope defines and the globals lack raises ValueError |
| Translate.FromParameterGlobal | src/openeo_pg_parser/translate.py:254-257 | a name no scope defines takes its global value |
| Translate.FromParameterNearest | src/openeo_pg_parser/translate.py:206-251 | the nearest defining scope decides the binding, whatever the farther scopes or the globals hold |
| Translate.FromParameterRefs | src/openeo_pg_parser/translate.py:202-263 | a node's references keep the ids, append only data edges and change no other node |
| Translate.FromParametersFrom | src/openeo_pg_parser/translate.py:201-263 | the pass from a node on leaves the earlier nodes unchanged |
| Translate.AdjustFromParameters | src/openeo_pg_parser/translate.py:177-266 | the graph comes back as a permutation sorted by depth, with only contents changed and data edges appended |
| Translate.ParentInNodes | src/openeo_pg_parser/graph.py:838-855 | the parent process of a node is a node of the graph |
| Translate.Callback | src/openeo_pg_parser/translate.py:285-287 | a node that is not a result, or has no parent process, changes nothing; otherwise only contents change |
| Translate.CallbackStored | src/openeo_pg_parser/translate.py:285-287 | the parent's embedded graph holder now reads the result node, and no other node changes |
| Translate.CallbacksFrom | src/openeo_pg_parser/translate.py:283-289 | the pass keeps ids and edges and changes only contents |
| Translate.AdjustCallbacks | src/openeo_pg_parser/translate.py:268-290 | `adjust_callbacks` keeps ids and edges and changes only contents |
| Translate.CallbacksSkip | src/openeo_pg_parser/translate.py:285 | a node that is not a result of an embedded graph leaves every node as it was |
| Translate.RetouchedDepths | src/openeo_pg_parser/translate.py:292-327 | contents-only changes keep depth order |
| Translate.LinkData | src/openeo_pg_parser/translate.py:312-315 | the `from_node` pass and the update keep the ids and the graph consistent |
| Translate.LinkParameters | src/openeo_pg_parser/translate.py:318-321 | the `from_parameter` pass and the update give a depth-sorted permutation |
| Translate.LinkNodes | src/openeo_pg_parser/translate.py:292-327 | the linked graph lists the same nodes, sorted by depth, with only contents changed and edges appended |
| Translate.Declare | src/openeo_pg_parser/translate.py:363-366 | every declaration has a hashable name and a default |
| Translate.DeclareKeeps | src/openeo_pg_parser/translate.py:363-366 | a name the document does not declare keeps its global value |
| Translate.DeclareLastWins | src/openeo_pg_parser/translate.py:363-366 | a declared name takes the default of its last declaration |
| Translate.DocumentParameters | src/openeo_pg_parser/translate.py:362-366 | without `parameters` the globals are used unchanged |
| Translate.WalkedWf | src/openeo_pg_parser/translate.py:381-384 | the walked nodes form a consistent graph whose ids end in a digit |
| Translate.TranslateProcessGraph | src/openeo_pg_parser/translate.py:329-389 | a non-dictionary is rejected; a document without `process_graph` fails; the result lists every node once, by depth, each at its key path in the process graph; there are as many nodes as process dictionaries met, and every process dictionary reached through dictionaries is some node's |
| Translate.Translated | src/openeo_pg_parser/translate.py:381-387 | linking keeps every walked node listed, numbered and at its key path |
| Translate.TranslatedComplete | src/openeo_pg_parser/translate.py:381-387 | after linking there is one node per process dictionary met, and each one reached through dictionaries is still some node's |
| Validate.Missing | src/openeo_pg_parser/validate.py:42-45 | fails iff the arguments are not a dictionary or the name is unhashable; reports the parameter as missing iff it is not an argument key |
| Validate.ParamMessage | src/openeo_pg_parser/validate.py:40-45 | at most one message per parameter, a missing-parameter message for this process |
| Validate.ParamMessages | src/openeo_pg_parser/validate.py:40-45 | at most one message per declared parameter, all missing-parameter messages for this process |
| Validate.NodeProcessMessages | src/openeo_pg_parser/validate.py:34-45 | every message of a node names its `process_id` and is an unknown-process or missing-parameter message |
| Validate.ValidateProcesses | src/openeo_pg_parser/validate.py:7-48 | valid iff no message; an unsupported catalogue source fails |
| Validate.GatherOk | src/openeo_pg_parser/validate.py:34-45 | a loop over the nodes that raises at the first failing node passes iff every node's check passes |
| Validate.GatherMessages | src/openeo_pg_parser/validate.py:34-45 | the messages collected over the nodes are exactly those some node's check yields |
| Validate.ProcessesFromOk | src/openeo_pg_parser/validate.py:34-45 | the loop passes iff every node's check passes |
| Validate.ProcessesFromMessages | src/openeo_pg_parser/validate.py:34-45 | a message is emitted iff some node emits it |
| Validate.UnknownProcessReported | src/openeo_pg_parser/validate.py:35-37 | an unknown-process message is emitted iff the node's `process_id` is not a catalogue key |
| Validate.AsWrittenParamsSilent | src/openeo_pg_parser/validate.py:40-45 | as written the parameter test reports nothing, since it checks optional parameters against arguments already filled with their defaults |
| Validate.AsWrittenOnlyUnknown | src/openeo_pg_parser/validate.py:34-45 | as written only unknown processes are ever reported |
| Validate.IntendedParamsReported | src/openeo_pg_parser/validate.py:40-45 | as intended, a missing parameter is reported iff a required parameter is not stated in the process graph |
| Validate.IntendedParamReported | src/openeo_pg_parser/validate.py:41-45 | as intended, one parameter yields a message iff it is required and not given |
| Validate.LowerAll | src/openeo_pg_parser/validate.py:89 | succeeds iff every band is a string, and lower-cases each in order |
| Validate.AvailableBandsMembers | src/openeo_pg_parser/validate.py:86-89 | a band is available iff some `bands` dimension lists it |
| Validate.BandMessages | src/openeo_pg_parser/validate.py:94-102 | one message per requested band the collection does not offer, and no other |
| Validate.CollectionMessages | src/openeo_pg_parser/validate.py:76-102 | a node that does not load a collection yields nothing; as written a `load_collection` node fails |
| Validate.CollectionCheck | src/openeo_pg_parser/validate.py:78-79 | as written the collection catalogue call fails |
| Validate.ValidateCollections | src/openeo_pg_parser/validate.py:51-105 | valid iff no message |
| Validate.CollectionsFromOk | src/openeo_pg_parser/validate.py:76-102 | the loop passes iff every node's check passes |
| Validate.CollectionsFromMessages | src/openeo_pg_parser/validate.py:76-102 | a message is emitted iff some node emits it |
| Validate.AsWrittenCollectionsFail | src/openeo_pg_parser/validate.py:76-79 | as written the validation succeeds only on graphs without `load_collection`, and then reports nothing |
| Validate.UnknownCollectionReported | src/openeo_pg_parser/validate.py:78-82 | as intended, an unknown collection is reported iff its id is not a catalogue key |
| Validate.BandReported | src/openeo_pg_parser/validate.py:92-102 | a requested band is reported iff it is not among the collection's bands |
| Validate.BandCaseIgnored | src/openeo_pg_parser/validate.py:89-95 | band names are compared ignoring ASCII case |
| Validate.ValidateProcessGraph | src/openeo_pg_parser/validate.py:108-155 | it succeeds only when translation does; valid iff no message; an unsupported process source fails |
| Validate.ValidateProcessGraphMessages | src/openeo_pg_parser/validate.py:149-155 | the messages are the process messages followed by the collection messages |
| LegacyGraph.AlongLength | src/openeo_pg_parser_python/graph.py:27-29 | one relative per matching edge |
| LegacyGraph.CountOne | src/openeo_pg_parser_python/graph.py:27-29 | some edge matches iff the count is at least one |
| LegacyGraph.CountTwo | src/openeo_pg_parser_python/graph.py:27-29 | two edges match iff the count is at least two |
| LegacyGraph.Relatives | src/openeo_pg_parser_python/graph.py:19-31 | with `ancestor` the sources of the node's edges named `link` that end at it, otherwise their targets, one entry per matching edge |
| LegacyGraph.Single | src/openeo_pg_parser_python/graph.py:33-51 | raises iff more than one edge matches (even towards the same node); none iff no edge matches; otherwise a relative along a matching edge |
| LegacyGraph.SingleFailsOnTwoEdges | src/openeo_pg_parser_python/graph.py:33-51 | `parent`/`child` raise iff two of the node's edges match |
| LegacyGraph.Dependencies | src/openeo_pg_parser_python/graph.py:61-68 | exactly the sources of the node's edges, of any name, that end at it |
| LegacyGraph.NodeLineageIsReach | src/openeo_pg_parser_python/graph.py:116-138 | the lineage holds exactly the ends of the walks of one or more relatives steps from the start |
| LegacyGraph.Peers | src/openeo_pg_parser_python/graph.py:144-150 | succeeds iff every other node's relative can be taken; keeps exactly the other nodes the test accepts |
| LegacyGraph.NodesAtSameLevel | src/openeo_pg_parser_python/graph.py:141-155 | fails iff some node has two children; otherwise the other nodes with the same single child (or, like the node, none), then the node iff `include_node` |
| LegacyGraph.OrderRespects | src/openeo_pg_parser_python/graph.py:167-182 | the order is a permutation of the nodes in which every earlier dependency stays in front of its dependant |
| LegacyGraph.Update | src/openeo_pg_parser_python/graph.py:184-189 | nodes stay and edges are only appended |
| LegacyGraph.UpdateSettles | src/openeo_pg_parser_python/graph.py:184-189 | afterwards every edge is on both endpoints, and a second update changes nothing |
| V04Graph.Endpoint | src/processing_container_v04/graph.py:46-50 | `edge.nodes[k]` is defined iff -2 <= k < 2, and gives the source at 0 or -2, the target otherwise |
| V04Graph.DependenciesFrom | src/processing_container_v04/graph.py:46-50 | fails iff some edge with that name has no endpoint at the index; otherwise exactly the endpoints at the index of the edges with that name |
| V04Graph.EdgeNamesHas | src/processing_container_v04/graph.py:53-61 | a name is listed iff some edge of the node carries it |
| V04Graph.NodesAtSameLevel | src/processing_container_v04/graph.py:120-134 | fails iff some node has two parents; with a parent keeps the other nodes with the same parent, without one the other nodes with no edge of that name, then the node iff `include_node` |
| V04Graph.NodeChildren | src/processing_container_v04/graph.py:136-144 | fails iff some other node has two parents; otherwise exactly the other nodes whose parent is this node |
| V04Graph.NodeDeps | src/processing_container_v04/graph.py:154-156 | fails iff some link's dependencies cannot be taken; otherwise the dependencies along all links |
| V04Graph.Order | src/processing_container_v04/graph.py:146-166 | different link and index counts fail first; a failing dependency lookup fails; nodes and edges stay; only `dependency` reorders |
| V04Graph.OrderPerm | src/processing_container_v04/graph.py:150-166 | the order is a permutation of the nodes, in either comparison |
| V04Graph.OrderRespects | src/processing_container_v04/graph.py:157-162 | with `>=` every earlier dependency stays in front of its dependant |
| LegacyTranslate.ReplaceCallback | src/openeo_pg_parser_python/translate_process_graph.py:113-117 | succeeds iff the content has a dictionary under `arguments`; only `arguments` changes, by replacing the callback arguments |
| LegacyTranslate.ReplaceCallbackSettles | src/openeo_pg_parser_python/translate_process_graph.py:113-117 | afterwards the only callbacks left are the value itself, and a second call with that value changes nothing |
| LegacyTranslate.NodeIdToken | src/openeo_pg_parser_python/translate_process_graph.py:12-13 | different tokens of one length give different ids, whatever the keys |
| LegacyTranslate.SomesLast | src/openeo_pg_parser_python/translate_process_graph.py:16-17 | `filtered_node_ids[-1]` is the last id on the list, with no id after it |
| LegacyTranslate.Enclosing | src/openeo_pg_parser_python/translate_process_graph.py:15-17 | top level iff the list is empty; an IndexError iff the list is non-empty but holds no id; otherwise its last id |
| LegacyTranslate.AddNode | src/openeo_pg_parser_python/translate_process_graph.py:11-26 | the node id is the key joined with the next token; it fails iff the enclosing lookup fails or the enclosing node lacks an `arguments` dictionary |
| LegacyTranslate.GrownTrans | src/openeo_pg_parser_python/translate_process_graph.py:8-43 | the walk's growth relation composes |
| LegacyTranslate.HasChildGrows | src/openeo_pg_parser_python/translate_process_graph.py:18-22 | a callback child stays a child as edge lists only gain new nodes |
| LegacyTranslate.NextIdFresh | src/openeo_pg_parser_python/translate_process_graph.py:12-13 | with distinct tokens the next id is new |
| LegacyTranslate.AddIds | src/openeo_pg_parser_python/translate_process_graph.py:12-26 | a node stored under a fresh id keeps one entry per id and the naming of the j-th node |
| LegacyTranslate.HasChildAdd | src/openeo_pg_parser_python/translate_process_graph.py:18-22 | a node gains a callback child exactly by the callback edges of the new node |
| LegacyTranslate.AddEdges | src/openeo_pg_parser_python/translate_process_graph.py:18-22 | a new node with no edge, or one callback edge to an existing node, keeps the edge lists well-shaped |
| LegacyTranslate.AddTopBuilds | src/openeo_pg_parser_python/translate_process_graph.py:11-26 | a top-level node keeps everything the walk promises |
| LegacyTranslate.AddBelowBuilds | src/openeo_pg_parser_python/translate_process_graph.py:15-26 | a node below another, with the callback edge and the enclosing node trimmed, keeps everything the walk promises |
| LegacyTranslate.AddNodeBuilds | src/openeo_pg_parser_python/translate_process_graph.py:11-26 | creating a node appends exactly its id and keeps everything the walk promises |
| LegacyTranslate.LoopBuilds | src/openeo_pg_parser_python/translate_process_graph.py:8-43 | the walk keeps ids numbered by tokens, edges to earlier nodes and trimmed callback parents |
| LegacyTranslate.LoopGrows | src/openeo_pg_parser_python/translate_process_graph.py:8-43 | the walk only appends nodes, and changes contents only by trimming a node that gains a child |
| LegacyTranslate.LoopCount | src/openeo_pg_parser_python/translate_process_graph.py:8-43 | as intended one node per reachable process dictionary; as written never more |
| LegacyTranslate.BuiltWf | src/openeo_pg_parser_python/graph.py:96-106 | what the walk builds is a well-formed graph |
| LegacyTranslate.WalkPgGraphBuilds | src/openeo_pg_parser_python/translate_process_graph.py:8-43 | the walk of a document is well-formed, names the j-th node after its key and the j-th token, gives each node at most a callback edge to an earlier node, and counts one node per process dictionary as intended, at most that as written |
| LegacyTranslate.SecondCallbackSkipped | src/openeo_pg_parser_python/translate_process_graph.py:22-24 | as written, with two callback arguments, creating the first child trims both in the dictionary being iterated, so the second child is never created |
| LegacyTranslate.SecondCallbackWalked | src/openeo_pg_parser_python/translate_process_graph.py:8-43 | as intended, both callback children become nodes below their parent |
| LegacyLink.InputsFrom | src/openeo_pg_parser_python/translate_process_graph.py:103-110 | every path found has at least two keys and ends in the link key |
| LegacyLink.FindNodeInputs | src/openeo_pg_parser_python/translate_process_graph.py:103-110 | succeeds iff the content has an `arguments` dictionary, and then gives the paths of its entries |
| LegacyLink.PathsNonEmpty | src/openeo_pg_parser_python/translate_process_graph.py:95-97 | the argument walk never reports the empty path |
| LegacyLink.InputsHere | src/openeo_pg_parser_python/translate_process_graph.py:106-108 | the paths found for one argument are exactly its reference paths |
| LegacyLink.InputsFromExact | src/openeo_pg_parser_python/translate_process_graph.py:104-110 | a path is found iff it is a reference path of some argument from the start on |
| LegacyLink.FindNodeInputsExact | src/openeo_pg_parser_python/translate_process_graph.py:103-110 | a path is found iff the argument walk reports it inside an argument, led by that argument's key, and it ends in the link key |
| LegacyLink.KeptTrans | src/openeo_pg_parser_python/translate_process_graph.py:194-213 | what the passes keep (ids, names, appended edges between nodes) composes |
| LegacyLink.KeptWf | src/openeo_pg_parser_python/translate_process_graph.py:194-213 | the passes keep the graph well formed |
| LegacyLink.UpdateKept | src/openeo_pg_parser_python/graph.py:184-189 | `update` keeps ids and names and appends only edges between nodes of the graph |
| LegacyLink.Relink | src/openeo_pg_parser_python/translate_process_graph.py:139-144 | only the node's `arguments` change, and its list gains the data edge unless an equal one is listed |
| LegacyLink.FromNode | src/openeo_pg_parser_python/translate_process_graph.py:120-125 | none iff no node has the name; otherwise the first node with that name |
| LegacyLink.FromNodeRef | src/openeo_pg_parser_python/translate_process_graph.py:134-146 | resolving one reference keeps what the passes keep and changes no other node |
| LegacyLink.FromNodeBinds | src/openeo_pg_parser_python/translate_process_graph.py:134-146 | a name resolves iff a same-level node has it, otherwise the wrong-reference error; the first such node's id is stored and its data edge is on the node's list, for ids that need no escape between quotes |
| LegacyLink.FromNodeRerun | src/openeo_pg_parser_python/translate_process_graph.py:135-136 | resolving a reference a second time changes nothing |
| LegacyLink.FromNodeRefs | src/openeo_pg_parser_python/translate_process_graph.py:133-146 | a node's references keep what the passes keep and change no other node |
| LegacyLink.FromNodeRefKeeps | src/openeo_pg_parser_python/translate_process_graph.py:137 | resolving one reference leaves every path that parts ways with it as it was |
| LegacyLink.FromNodeRefsKeep | src/openeo_pg_parser_python/translate_process_graph.py:131-142 | resolving a node's references leaves every path that parts ways with all of them as it was |
| LegacyLink.FromNodeRefBound | src/openeo_pg_parser_python/translate_process_graph.py:132-144 | after a successful resolution the reference holds a node id, whether it held one already or was a name, for ids that need no escape between quotes |
| LegacyLink.FromNodeRefsBind | src/openeo_pg_parser_python/translate_process_graph.py:131-144 | after the pass over a node's references that part ways and end in a key, every one of them holds a node id, for ids that need no escape between quotes |
| LegacyLink.PeersInGraph | src/openeo_pg_parser_python/graph.py:141-155 | the same-level nodes are nodes of the graph |
| LegacyLink.FromNodesFrom | src/openeo_pg_parser_python/translate_process_graph.py:130-148 | the pass from a node on keeps what the passes keep |
| LegacyLink.AdjustFromNodes | src/openeo_pg_parser_python/translate_process_graph.py:128-148 | `adjust_from_nodes` keeps ids and names and only appends edges |
| LegacyLink.ParentInGraph | src/openeo_pg_parser_python/graph.py:33-41 | the data parent of a node is a node of the graph |
| LegacyLink.FromArgumentRef | src/openeo_pg_parser_python/translate_process_graph.py:156-170 | resolving one reference keeps what the passes keep and changes no other node |
| LegacyLink.FromArgumentUnscoped | src/openeo_pg_parser_python/translate_process_graph.py:157-170 | a reference in a node outside every callback raises the wrong-reference error |
| LegacyLink.FromArgumentBinds | src/openeo_pg_parser_python/translate_process_graph.py:157-168 | inside a callback the holder becomes a `from_node` to the node feeding the outermost enclosing node, with a data edge on the node's list |
| LegacyLink.FromArgumentUnfed | src/openeo_pg_parser_python/translate_process_graph.py:158-161 | when nothing feeds the outermost enclosing node the reference is left as it is |
| LegacyLink.FromArgumentRefs | src/openeo_pg_parser_python/translate_process_graph.py:155-170 | a node's references keep what the passes keep |
| LegacyLink.FromArgumentsFrom | src/openeo_pg_parser_python/translate_process_graph.py:154-170 | the pass from a node on keeps what the passes keep |
| LegacyLink.AdjustFromArguments | src/openeo_pg_parser_python/translate_process_graph.py:151-172 | `adjust_from_arguments` keeps ids and names and only appends edges |
| LegacyLink.FirstResult | src/openeo_pg_parser_python/translate_process_graph.py:181-184 | the first child flagged as a result, none flagged before it; none iff every child is a dictionary without a truthy `result` |
| LegacyLink.Kids | src/openeo_pg_parser_python/translate_process_graph.py:178 | the callback children are nodes of the graph |
| LegacyLink.CallbackContent | src/openeo_pg_parser_python/translate_process_graph.py:177-188 | a node with no callback child keeps its content; with children but no result it raises; otherwise every callback argument becomes a `from_node` to the first result child |
| LegacyLink.ArgsOnlyTrans | src/openeo_pg_parser_python/translate_process_graph.py:175-190 | changing only `arguments` composes |
| LegacyLink.FirstResultArgsOnly | src/openeo_pg_parser_python/translate_process_graph.py:181-184 | rewriting `arguments` never changes which child is the result |
| LegacyLink.FirstResultSame | src/openeo_pg_parser_python/translate_process_graph.py:181-184 | two graphs whose children agree on being dictionaries and on their `result` flag pick the same result child, or fail alike |
| LegacyLink.CallbackContentArgsOnly | src/openeo_pg_parser_python/translate_process_graph.py:177-188 | a node's callback form does not depend on the other nodes' `arguments` |
| LegacyLink.CallbacksFrom | src/openeo_pg_parser_python/translate_process_graph.py:177-188 | the pass changes only `arguments`, and leaves the earlier nodes alone |
| LegacyLink.AdjustCallbacks | src/openeo_pg_parser_python/translate_process_graph.py:175-190 | `adjust_callbacks` changes only `arguments` |
| LegacyLink.SetContent | src/openeo_pg_parser_python/translate_process_graph.py:186 | only the one node's content changes |
| LegacyLink.CallbackArgsOnly | src/openeo_pg_parser_python/translate_process_graph.py:186 | giving a node its callback form touches only its `arguments` |
| LegacyLink.CallbackContentLater | src/openeo_pg_parser_python/translate_process_graph.py:177-188 | later nodes see the same callback forms after an earlier node got its own |
| LegacyLink.CallbacksFromStep | src/openeo_pg_parser_python/translate_process_graph.py:177-188 | a node without a callback form stops the pass; otherwise the pass continues on the graph with that node rewritten |
| LegacyLink.CallbacksFromAt | src/openeo_pg_parser_python/translate_process_graph.py:177-188 | where the pass succeeds, every later node ends with its callback form computed on the graph before the pass |
| LegacyLink.CallbacksFromOk | src/openeo_pg_parser_python/translate_process_graph.py:177-188 | the pass succeeds when every node has a callback form |
| LegacyLink.AdjustCallbacksContents | src/openeo_pg_parser_python/translate_process_graph.py:175-190 | `adjust_callbacks` succeeds iff every node has a callback form, and then every node's content is that form |
| LegacyLink.ArgsOnlyKept | src/openeo_pg_parser_python/translate_process_graph.py:175-190 | a pass changing only `arguments` keeps what the passes keep |
| LegacyLink.LinkNodes | src/openeo_pg_parser_python/translate_process_graph.py:194-213 | ids, names and edges between nodes survive; every node's final content is its callback form in the graph after the last update |
| LegacyLink.TranslateGraph | src/openeo_pg_parser_python/translate_process_graph.py:216-227 | a non-dictionary fails; the result keeps the walked graph, is well formed, has at most one node per process, and as intended exactly one |
| V04Translate.CreateLinks | src/processing_container_v04/translate_process_graph.py:114-120 | there are fewer links than keys, or no keys at all |
| V04Translate.CreateLinksMembers | src/processing_container_v04/translate_process_graph.py:114-120 | a key is a link iff it immediately follows an `arguments` key |
| V04Translate.CreateLinksAppend | src/processing_container_v04/translate_process_graph.py:114-120 | the links of a concatenation are those of the parts, plus the first key of the second part when the first ends in `arguments` |
| V04Translate.CreateLinksPrefix | src/processing_container_v04/translate_process_graph.py:114-120 | the links of a shorter branch are a prefix of those of a branch that extends it |
| V04Translate.FromNode | src/processing_container_v04/translate_process_graph.py:123-129 | some id iff some node has the name, and then the id of the last such node |
| V04Translate.FromNodeFinds | src/processing_container_v04/translate_process_graph.py:123-129 | the id found is the key of a node with that name |
| V04Translate.NodeIdInjective | src/processing_container_v04/translate_process_graph.py:218-225 | an id determines its tree, branch, position and head, so nodes at different positions never share an id |
| V04Translate.EdgeIdArgs | src/processing_container_v04/translate_process_graph.py:272-275 | between the same two nodes, different arguments give different edge ids |
| V04Translate.EdgeIdTargets | src/processing_container_v04/translate_process_graph.py:272-275 | from one node along one argument, different targets give different edge ids |
| V04Translate.CallbackEdge | src/processing_container_v04/translate_process_graph.py:228-235 | defined iff the branch has a link; then it runs from the parent to the node, is named after the last link (a key following an `arguments` key), and its id joins parent, name and node |
| V04Translate.SetArgument | src/processing_container_v04/translate_process_graph.py:166 | succeeds iff the content has an `arguments` dictionary; then exactly that argument changes |
| V04Translate.Rewrite | src/processing_container_v04/translate_process_graph.py:161-167 | succeeds iff the edge can be handled; edges and tags stay; an edge within a level changes nothing |
| V04Translate.UpdateFrom | src/processing_container_v04/translate_process_graph.py:161-167 | edges and tags stay |
| V04Translate.UpdateSubGraphs | src/processing_container_v04/translate_process_graph.py:160-169 | edges and tags stay |
| V04Translate.LastRewrite | src/processing_container_v04/translate_process_graph.py:161-166 | none iff no later crossing edge out of the node is named after the argument; otherwise the target of such an edge with no other one after it |
| V04Translate.RewriteArg | src/processing_container_v04/translate_process_graph.py:164-167 | one rewrite changes exactly the argument named after the edge, to a `from_node` on its target |
| V04Translate.UpdateFromArgs | src/processing_container_v04/translate_process_graph.py:161-167 | each argument holds the reference of the last crossing edge into it, or its old value |
| V04Translate.LastRewriteSame | src/processing_container_v04/translate_process_graph.py:161-164 | which edge rewrites last depends only on the edges and tags |
| V04Translate.UpdateFromOk | src/processing_container_v04/translate_process_graph.py:161-167 | the pass succeeds iff every remaining edge can be handled |
| V04Translate.AssignableBack | src/processing_container_v04/translate_process_graph.py:166 | a rewrite makes no new node assignable |
| V04Translate.UpdateSubGraphsArgs | src/processing_container_v04/translate_process_graph.py:160-169 | succeeds iff every edge is tagged and every crossing edge leaves a node with an `arguments` dictionary; then each argument holds the reference of the last crossing edge named after it, or its old value |

## Left out

- Reading process graphs, process definitions and collections from files, directories or URLs: only the in-memory branches of `load_processes` / `load_collections` and the dictionary branch of `translate_process_graph` are modelled. The default processes directory becomes the catalogue parameter. Legacy `translate_graph` takes the loaded document instead of a file path.
- `secrets.token_hex` in the legacy walk is a parameter `tok` of random tokens. `Tokens` assumes the tokens are pairwise distinct and of one length. The source relies on randomness for this.
- Graph plotting (`Graph.plot`, igraph and matplotlib layouts) and the `__str__` / `__repr__` renderings are left out, because they produce no model-relevant state.
- The wording of error and validation messages is left out. Messages are kept as structured values that name the offending process, collection or band.
- Python object identity is not modelled. Node contents are values, and a rewrite returns a new graph. Aliasing between a node's `content` and the original document, or between a node and the dictionaries `deepcopy` avoids, is therefore not modelled.
- Python's `True == 1` and `1.0 == 1` equalities between JSON scalars are not modelled. Keys and names are compared structurally.
- Floating-point JSON numbers are modelled as integers. No part of the core computes with them.
- `walk_process_dictionary` is not part of this model. The argument walk that locates references (`Utils.InnerPaths`) is defined directly as every non-empty key path inside an argument that does not descend below a `process_graph` key.
- The level and previous-level values that the walks return are not modelled, because they never influence a node or an edge.
- The order among nodes of equal depth in `Graph.sort(by="depth")` is not fixed (numpy's `argsort` is not stable by default). Sorting.SortGraphByDepth promises a permutation ordered by depth, not a particular tie order.
- Sorting.Kahn: igraph's `topological_sorting` picks among ready vertices in its own queue order. The model always places the first ready vertex in order of first appearance, so its tie order is the model's own. Only the properties every topological order has are claimed.
- Sorting.Order: on a dependency graph with a cycle, the model leaves out the vertices that never become ready. What igraph does there depends on its version and is not modelled. OrderComplete, LinearSortingHasEnds and LinearSortingOrder assume a numbering that climbs along every arc, i.e. no cycle.
- Graph.Lineage: `lineage` loops for ever on a cycle. The model stops after as many rounds as there are nodes and returns `Diverges`, and DivergesHasLongWalk proves that this only happens when a walk of that length exists.
- Graph.Dimension: the climb to the parent process is bounded by a `fuel` parameter instead of the height of the callback tree.
- Translate.FromNodeRefsBind: the all-references-bound property is proved for reference paths that pairwise diverge (`Independent`). The walk produces such paths, but this is not proved here.
- LegacyLink.FromNodeRefsBind: the same as Translate.FromNodeRefsBind. The property is proved for reference paths that pairwise diverge, which the argument walk produces but which is not proved here.
- LegacyLink.AdjustFromNodes: promises only that the pass keeps the graph well formed and appends edges. That every `from_node` reference holds a node id afterwards is proved one node at a time (LegacyLink.FromNodeRefsBind), not for the whole pass. Carrying it across the loop needs every later node to leave the earlier nodes' references alone; each step states this for its own node only.
- LegacyLink.AdjustFromArguments: promises only that the pass keeps the graph well formed and appends edges. No lemma states that every scoped `from_argument` reference is rewritten after the pass; LegacyLink.FromArgumentBinds proves it for one reference. Each reference looks up the feeding node afresh, on the graph that the node's earlier bindings changed (each adds a data edge into the node). Showing that those edges leave the lookup unchanged is not done.
- LegacyLink.LinkNodes: promises that the three passes keep the graph well formed and only append edges. That every reference is bound after them is not stated, because the per-pass statements it would rest on are not proved (see the two lines above).
- Translate.CallbackStored: it assumes that a callback's result node sits at a key path of the form "parent keys, then the argument path, then two keys". That is how the walk nests them, but it is not derived from the walk.
- LegacyLink.AdjustCallbacksContents: proved for the arguments-only rewrites. No lemma states that every legacy reference is bound after the full `link_nodes`.
- In the v04 translator, the branch, stem and tree loop of `translate`, `find_parent_leafs` and `from_argument` are not modelled. The id formats, the edges they create, `create_links`, `from_node` and `update_sub_graphs` are.
- Utils.Splice: of the string texts that `exec` evaluates, only two kinds are modelled. A single-quoted literal whose body needs no escape gives back its body. An ASCII identifier holding a digit (other than `keys2str`) raises NameError. Any other text is a Python expression, such as `1_0` (the int 10), `None`, `True`, a double-quoted or escaped literal, or `COPERNICUS/S2`. For such text the model stops with `UnevaluatedText` instead of evaluating it. So Translate.SpliceId, Translate.FromNodeAsWrittenFails and Translate.BindAsWrittenRejectsText are stated for identifier text only, and LegacyLink.FromNodeBinds for ids that need no escape between quotes.
- Definitions.Process: `process.sub_parameters` (read at src/openeo_pg_parser/translate.py:211) and `parameter.is_required` (read at src/openeo_pg_parser/validate.py:41) are not defined on `OpenEOProcess` or `OpenEOParameter` in src/openeo_pg_parser/definitions.py. As written, both reads raise AttributeError. The model supplies `required` and `subParameters` as catalogue fields, and the fourth finding below rests on these supplied fields.
- Strs.Lower: `str.lower` is modelled on ASCII letters only. Other characters are left as they are, where Python would also fold non-ASCII letters.
- Validate.LowerAll: lower-cases band names with Strs.Lower, so only ASCII case is folded.
- Validate.BandCaseIgnored: band names are shown equal up to ASCII case only; two names that differ only in non-ASCII case are not matched by the model, where Python would match them.
- Utils.GetPath: follows the key path structurally. The source builds a Python expression from the keys and runs `eval`; a key holding `'` or `\` there raises SyntaxError or reads another key, which is not modelled.
- Utils.SetPath: writes along the key path structurally. The source runs `exec` on an assignment built from the keys; a key holding `'` or `\` there raises SyntaxError or writes another key, which is not modelled.
- LegacyLink.LinkNodes: `node_lineage` deep-copies the nodes it returns (src/openeo_pg_parser_python/graph.py:131). So the data edge that `adjust_from_arguments` adds starts at a copy of the data parent, and the following `update` (src/openeo_pg_parser_python/graph.py:184-189) adds it to that copy, never to the real data parent. The model has no copies: the edge starts at the real data parent, and the next update lists it there too. So after linking, the model's data parent of a `from_argument` holds one edge that the source's does not.
- Utils.IndexById: a definition whose `id` is not a string is rejected with a type error, where Python would file it under that non-string key.
- Definitions.Declaration: a parameter definition whose `name` is not a string is rejected with a type error, where Python would file it under that non-string key.
- The catalogue accessors `get_description`, `get_returns`, `get_exceptions` and `get_process_graph` are modelled only through their shared lookup `Definitions.GetOrNull`.
- Documents whose dictionaries repeat a key are outside the model: the lemmas about walks and paths assume `Json.Wf`, distinct keys in every dictionary, as `json.load` produces them.

## Findings

| source | as written | input that shows it | evidently intended | confidence | as-written member | corrected member |
|---|---|---|---|---|---|---|
| src/openeo_pg_parser/translate.py:141 | `adjust_from_nodes` splices the target node id into the path expression without quotes, so `eval` reads it as a name | a process graph whose node keys are Python identifiers, with a `from_node` reference to a same-level node, e.g. `{"a": {process_id, arguments:{}}, "b": {process_id, arguments:{"x": {"from_node": "a"}}}}` | the reference is replaced by the id `a_0` as a string | not executed | Translate.FromNodeAsWrittenFails | Translate.FromNodeBinds |
| src/openeo_pg_parser/translate.py:235-257 | a parameter default or global value is spliced into the path expression as source text | a `from_parameter` reference whose default is the string `"B04"` | the value itself is stored in place of the reference | not executed | Translate.BindAsWrittenRejectsText | Translate.BindValueStored |
| src/processing_container_v04/graph.py:158-162 | the insertion point moves only for a dependency at a position strictly greater than it (`>`) | two nodes where the second depends on the first: the first sits at position 0, so the second is inserted in front of it | a dependency at the insertion point moves it too (`>=`, as in the legacy generation) | not executed | Ordering.StrictOrderMisplaces | V04Graph.OrderRespects |
| src/openeo_pg_parser/validate.py:40-45 | the required-parameter check tests `not parameter.is_required`, and it tests arguments already filled with the parameter defaults (with the required flag supplied by the catalogue; `is_required` itself is not defined on `OpenEOParameter`, see "## Left out") | a node that omits a required parameter: nothing is reported | a missing required parameter is reported | not executed | Validate.AsWrittenParamsSilent | Validate.IntendedParamsReported |
| src/openeo_pg_parser/validate.py:76-79 | `load_collections` is called with a `collection_ids` keyword it does not accept | any graph with a `load_collection` node | the collection is looked up in the loaded catalogue | not executed | Validate.AsWrittenCollectionsFail | Validate.UnknownCollectionReported |
| src/openeo_pg_parser_python/translate_process_graph.py:22-24 | creating a callback child replaces both callback arguments of the parent's content, which is the dictionary the enclosing loop iterates | a process with two callback arguments, each holding a process graph: the second is replaced by `{'callback': None}` before it is visited | every callback child becomes a node | not executed | LegacyTranslate.SecondCallbackSkipped | LegacyTranslate.SecondCallbackWalked |
