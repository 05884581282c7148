/** The graph store of the v04 processing container
    (`processing_container_v04/graph.py`).  Its nodes, edges, `relatives`
    and `parent` are those of the legacy generation (module LegacyGraph);
    it adds `dependencies` by edge name and endpoint position, the set of
    a node's edge names, a parent-based same-level query, `node_children`,
    and an `order` that takes the dependency links as arguments. */
module V04Graph {
  import opened Results
  import opened Seqs
  import opened Adjacency
  import L = LegacyGraph
  import Ordering

  /* ---------------------------------------------------------------------
     Node.dependencies / Node.edge_names
     --------------------------------------------------------------------- */

  /** `edge.nodes[k]` for the endpoint list `[src, dst]`; a negative `k`
      counts from the end. */
  function Endpoint(e: Edge, k: int): (r: Result<string>)
    ensures r.Ok? <==> -2 <= k < 2
    ensures r.Ok? ==> r.value == (if k == 0 || k == -2 then e.src else e.dst)
  {
    PyIndex([e.src, e.dst], k)
  }

  /** `Node.dependencies(link, other_idx)` over the edges `es[i..]`: the
      endpoint at `other_idx` of every edge named `link`, whichever end
      the node itself is. */
  function DependenciesFrom(es: seq<Edge>, link: string, otherIdx: int, i: nat): (r: Result<seq<string>>)
    requires i <= |es|
    ensures r.Ok? <==> (-2 <= otherIdx < 2 || forall j | i <= j < |es| :: es[j].name != link)
    ensures r.Ok? ==> forall x :: x in r.value <==>
      exists j | i <= j < |es| :: es[j].name == link && Endpoint(es[j], otherIdx) == Ok(x)
    decreases |es| - i
  {
    if i == |es| then Ok([])
    else if es[i].name != link then DependenciesFrom(es, link, otherIdx, i + 1)
    else
      match Endpoint(es[i], otherIdx)
      case Err(e) => Err(e)
      case Ok(x) =>
        match DependenciesFrom(es, link, otherIdx, i + 1)
        case Err(e) => Err(e)
        case Ok(rest) => Ok([x] + rest)
  }

  function Dependencies(adj: Adj, id: string, link: string, otherIdx: int): Result<seq<string>> {
    DependenciesFrom(EdgesOf(adj, id), link, otherIdx, 0)
  }

  /** `Node.edge_names`: the distinct names of the node's edges, or the
      default `None` alone when it has none. */
  function EdgeNames(adj: Adj, id: string): (r: set<Option<string>>)
    ensures EdgesOf(adj, id) == [] ==> r == {None}
    ensures EdgesOf(adj, id) != [] ==> forall n :: n in r <==>
      n.Some? && exists e | e in EdgesOf(adj, id) :: e.name == n.value
  {
    if EdgesOf(adj, id) == [] then {None}
    else set e | e in EdgesOf(adj, id) :: Some(e.name)
  }

  /** A name is among the edge names iff some edge carries it. */
  lemma EdgeNamesHas(adj: Adj, id: string, link: string)
    ensures Some(link) in EdgeNames(adj, id) <==> exists e | e in EdgesOf(adj, id) :: e.name == link
  {
  }

  /* ---------------------------------------------------------------------
     Graph.nodes_at_same_level / node_children
     --------------------------------------------------------------------- */

  /** Whether another node is on the same level: the same parent when the
      node has one; otherwise no edge named `link` at all. */
  function SameLevelAs(adj: Adj, link: string, mine: Option<string>): (string, Option<string>) -> bool {
    (x, theirs) => if mine.Some? then theirs == mine else Some(link) !in EdgeNames(adj, x)
  }

  /** `Graph.nodes_at_same_level`.  Every other node's parent is looked
      up, so a node with two parents makes the query fail even when it
      is a root query. */
  function NodesAtSameLevel(g: L.Graph, id: string, link: string, includeNode: bool): (r: Result<seq<string>>)
    ensures r.Ok? <==> (L.Parent(g.adj, id, link).Ok? &&
      forall x | x in g.ids && x != id :: L.Parent(g.adj, x, link).Ok?)
    ensures r.Ok? && L.Parent(g.adj, id, link).value.Some? ==> forall x :: x in r.value <==>
      (x == id && includeNode) ||
      (x in g.ids && x != id && L.Parent(g.adj, x, link) == L.Parent(g.adj, id, link))
    ensures r.Ok? && L.Parent(g.adj, id, link).value.None? ==> forall x :: x in r.value <==>
      (x == id && includeNode) ||
      (x in g.ids && x != id && forall e | e in EdgesOf(g.adj, x) :: e.name != link)
  {
    var mine :- L.Parent(g.adj, id, link);
    assert g.ids[0..] == g.ids;
    var peers :- L.Peers(g.ids, id, x => L.Parent(g.adj, x, link), SameLevelAs(g.adj, link, mine), 0);
    assert forall x :: Some(link) in EdgeNames(g.adj, x) <==> exists e | e in EdgesOf(g.adj, x) :: e.name == link by {
      forall x { EdgeNamesHas(g.adj, x, link); }
    }
    Ok(if includeNode then peers + [id] else peers)
  }

  /** `Graph.node_children`: the other nodes whose single parent via
      `link` is `id`. */
  function NodeChildren(g: L.Graph, id: string, link: string): (r: Result<seq<string>>)
    ensures r.Ok? <==> forall x | x in g.ids && x != id :: L.Parent(g.adj, x, link).Ok?
    ensures r.Ok? ==> forall x :: x in r.value <==>
      x in g.ids && x != id && L.Parent(g.adj, x, link) == Ok(Some(id))
  {
    assert g.ids[0..] == g.ids;
    L.Peers(g.ids, id, x => L.Parent(g.adj, x, link), (x, theirs) => theirs == Some(id), 0)
  }

  /* ---------------------------------------------------------------------
     Graph.order
     --------------------------------------------------------------------- */

  /** The dependencies of a node along `links[i..]`, each with its
      endpoint position. */
  function NodeDeps(adj: Adj, id: string, links: seq<string>, otherIdxs: seq<int>, i: nat): (r: Result<seq<string>>)
    requires i <= |links| == |otherIdxs|
    ensures r.Ok? <==> forall j | i <= j < |links| :: Dependencies(adj, id, links[j], otherIdxs[j]).Ok?
    ensures r.Ok? ==> forall x :: x in r.value <==>
      exists j | i <= j < |links| :: x in Dependencies(adj, id, links[j], otherIdxs[j]).value
    decreases |links| - i
  {
    if i == |links| then Ok([])
    else
      var here :- Dependencies(adj, id, links[i], otherIdxs[i]);
      var rest :- NodeDeps(adj, id, links, otherIdxs, i + 1);
      Ok(here + rest)
  }

  /** Every node's dependencies can be collected. */
  predicate DepsOk(g: L.Graph, links: seq<string>, otherIdxs: seq<int>)
    requires |links| == |otherIdxs|
  {
    forall x | x in g.ids :: NodeDeps(g.adj, x, links, otherIdxs, 0).Ok?
  }

  /** The dependency lists the ordering uses. */
  function DepsOf(adj: Adj, links: seq<string>, otherIdxs: seq<int>): string -> seq<string>
    requires |links| == |otherIdxs|
  {
    x => var d := NodeDeps(adj, x, links, otherIdxs, 0); if d.Ok? then d.value else []
  }

  /** `Graph.order(by, links, other_idxs)`.  The lengths are checked before
      the strategy.  A node's dependencies are its edges' endpoints along
      every link; an edge whose endpoint position is out of range makes the
      order fail before anything changes.  As written, a dependency found
      exactly at the insertion point does not move it (`>`); as intended
      it does. */
  function Order(v: Version, g: L.Graph, strategy: string, links: seq<string>, otherIdxs: seq<int>): (r: Result<L.Graph>)
    ensures r.Err? && r.error == LinkCountMismatch <==> |links| != |otherIdxs|
    ensures r.Err? ==> |links| != |otherIdxs| || (strategy == "dependency" && !DepsOk(g, links, otherIdxs))
    ensures r.Ok? ==> r.value.nodes == g.nodes && r.value.adj == g.adj
    ensures r.Ok? && strategy != "dependency" ==> r.value == g
  {
    if |links| != |otherIdxs| then Err(LinkCountMismatch)
    else if strategy != "dependency" then Ok(g)
    else if !DepsOk(g, links, otherIdxs) then Err(BadIndex)
    else Ok(L.Graph(Ordering.InsertionOrder(g.ids, DepsOf(g.adj, links, otherIdxs), v.AsWritten?), g.nodes, g.adj))
  }

  /** The ordering, in either reading, is a permutation of the nodes. */
  lemma OrderPerm(v: Version, g: L.Graph, links: seq<string>, otherIdxs: seq<int>)
    requires Order(v, g, "dependency", links, otherIdxs).Ok?
    ensures Perm(Order(v, g, "dependency", links, otherIdxs).value.ids, g.ids)
  {
    Ordering.InsertionOrderPerm(g.ids, DepsOf(g.adj, links, otherIdxs), v.AsWritten?);
  }

  /** As intended, every dependency that came earlier stays in front of
      its dependant. */
  lemma OrderRespects(g: L.Graph, links: seq<string>, otherIdxs: seq<int>)
    requires L.Wf(g) && Order(AsIntended, g, "dependency", links, otherIdxs).Ok?
    ensures Ordering.DependenciesFirst(g.ids, DepsOf(g.adj, links, otherIdxs),
      Order(AsIntended, g, "dependency", links, otherIdxs).value.ids)
  {
    var deps := DepsOf(g.adj, links, otherIdxs);
    assert Order(AsIntended, g, "dependency", links, otherIdxs).value.ids == Ordering.InsertionOrder(g.ids, deps, false);
    Ordering.InsertionOrderRespects(g.ids, deps);
  }
}
