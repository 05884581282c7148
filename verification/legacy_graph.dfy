/** The graph store of the legacy python generation
    (`openeo_pg_parser_python/graph.py`): nodes keep their edges, and the
    queries work on those per-node edge lists.  Unlike the current store,
    `relatives` keeps one entry per matching edge (no de-duplication), and
    `parent` / `child` count edges, not distinct nodes. */
module LegacyGraph {
  import opened Results
  import opened Seqs
  import opened Json
  import opened Adjacency
  import G = Graph
  import Ordering

  /** A node: id, the key it was found under, and its process dictionary. */
  datatype Node = Node(id: string, name: string, content: Json)

  /** Nodes in dictionary order, the node arena, and every node's edges. */
  datatype Graph = Graph(ids: seq<string>, nodes: map<string, Node>, adj: Adj)

  /** The order lists each node once, every node is stored under its id,
      and every edge joins two nodes of the graph. */
  predicate Wf(g: Graph) {
    NoDup(g.ids) &&
    (forall x | x in g.ids :: x in g.nodes) &&
    (forall x | x in g.nodes :: x in g.ids && g.nodes[x].id == x) &&
    (forall x | x in g.adj :: x in g.nodes) &&
    EndsIn(g.adj, g.nodes.Keys)
  }

  /* ---------------------------------------------------------------------
     Node.relatives / parent / child / dependencies
     --------------------------------------------------------------------- */

  /** How many of the edges `es` lead from `id` to a relative. */
  function LinkCount(es: seq<Edge>, id: string, link: Option<string>, ancestor: bool): nat {
    if |es| == 0 then 0
    else (if G.Links(es[0], id, link, ancestor) then 1 else 0) + LinkCount(es[1..], id, link, ancestor)
  }

  /** One relative per matching edge. */
  lemma {:induction false} AlongLength(es: seq<Edge>, id: string, link: Option<string>, ancestor: bool)
    ensures |G.Along(es, id, link, ancestor)| == LinkCount(es, id, link, ancestor)
    decreases |es|
  {
    if |es| > 0 { AlongLength(es[1..], id, link, ancestor); }
  }

  /** Some edge matches iff the count is positive. */
  lemma {:induction false} CountOne(es: seq<Edge>, id: string, link: Option<string>, ancestor: bool)
    ensures LinkCount(es, id, link, ancestor) >= 1 <==>
      exists i | 0 <= i < |es| :: G.Links(es[i], id, link, ancestor)
    decreases |es|
  {
    if |es| > 0 {
      CountOne(es[1..], id, link, ancestor);
      if exists i | 0 <= i < |es| :: G.Links(es[i], id, link, ancestor) {
        var i :| 0 <= i < |es| && G.Links(es[i], id, link, ancestor);
        if i > 0 { assert es[1..][i - 1] == es[i]; }
      }
    }
  }

  /** Two edges match iff the count is at least two. */
  lemma {:induction false} CountTwo(es: seq<Edge>, id: string, link: Option<string>, ancestor: bool)
    ensures LinkCount(es, id, link, ancestor) >= 2 <==>
      exists i, j | 0 <= i < j < |es| :: G.Links(es[i], id, link, ancestor) && G.Links(es[j], id, link, ancestor)
    decreases |es|
  {
    if |es| > 0 {
      var rest := es[1..];
      CountTwo(rest, id, link, ancestor);
      CountOne(rest, id, link, ancestor);
      if LinkCount(es, id, link, ancestor) >= 2 {
        if G.Links(es[0], id, link, ancestor) {
          var j :| 0 <= j < |rest| && G.Links(rest[j], id, link, ancestor);
          assert G.Links(es[j + 1], id, link, ancestor);
        } else {
          var i, j :| 0 <= i < j < |rest| && G.Links(rest[i], id, link, ancestor) && G.Links(rest[j], id, link, ancestor);
          assert G.Links(es[i + 1], id, link, ancestor) && G.Links(es[j + 1], id, link, ancestor);
        }
      }
      if exists i, j | 0 <= i < j < |es| :: G.Links(es[i], id, link, ancestor) && G.Links(es[j], id, link, ancestor) {
        var i, j :| 0 <= i < j < |es| && G.Links(es[i], id, link, ancestor) && G.Links(es[j], id, link, ancestor);
        assert rest[j - 1] == es[j];
        if i > 0 { assert rest[i - 1] == es[i]; }
      }
    }
  }

  /** `Node.relatives(link, ancestor)`: with `ancestor` the sources of the
      edges named `link` that end at the node, otherwise their targets;
      one entry per edge, in edge order. */
  function Relatives(adj: Adj, id: string, link: string, ancestor: bool): (r: seq<string>)
    ensures |r| == LinkCount(EdgesOf(adj, id), id, Some(link), ancestor)
    ensures forall x :: x in r <==>
      exists e | e in EdgesOf(adj, id) :: G.Links(e, id, Some(link), ancestor) && G.Other(e, ancestor) == x
  {
    AlongLength(EdgesOf(adj, id), id, Some(link), ancestor);
    G.Along(EdgesOf(adj, id), id, Some(link), ancestor)
  }

  /** `parent` (ancestors) / `child` (descendants): the relative, none, or
      `err` when more than one edge matches, even if both lead to the
      same node. */
  function Single(adj: Adj, id: string, link: string, ancestor: bool, err: Error): (r: Result<Option<string>>)
    ensures r.Err? <==> LinkCount(EdgesOf(adj, id), id, Some(link), ancestor) > 1
    ensures r.Err? ==> r.error == err
    ensures r == Ok(None) <==> LinkCount(EdgesOf(adj, id), id, Some(link), ancestor) == 0
    ensures r.Ok? && r.value.Some? ==>
      exists e | e in EdgesOf(adj, id) :: G.Links(e, id, Some(link), ancestor) && G.Other(e, ancestor) == r.value.value
  {
    var rs := Relatives(adj, id, link, ancestor);
    if |rs| > 1 then Err(err)
    else if |rs| == 0 then Ok(None)
    else
      assert rs[0] in rs;
      Ok(Some(rs[0]))
  }

  function Parent(adj: Adj, id: string, link: string): Result<Option<string>> {
    Single(adj, id, link, true, TooManyParents)
  }

  function Child(adj: Adj, id: string, link: string): Result<Option<string>> {
    Single(adj, id, link, false, TooManyChildren)
  }

  /** `parent` / `child` raise exactly when two of the node's edges match. */
  lemma SingleFailsOnTwoEdges(adj: Adj, id: string, link: string, ancestor: bool, err: Error)
    ensures Single(adj, id, link, ancestor, err).Err? <==>
      exists i, j | 0 <= i < j < |EdgesOf(adj, id)| ::
        G.Links(EdgesOf(adj, id)[i], id, Some(link), ancestor) && G.Links(EdgesOf(adj, id)[j], id, Some(link), ancestor)
  {
    CountTwo(EdgesOf(adj, id), id, Some(link), ancestor);
  }

  /** `Node.dependencies`: the sources of all edges, of any kind, that end
      at the node. */
  function Dependencies(adj: Adj, id: string): (r: seq<string>)
    ensures forall x :: x in r <==> exists e | e in EdgesOf(adj, id) :: e.dst == id && e.src == x
  {
    G.Along(EdgesOf(adj, id), id, None, true)
  }

  /* ---------------------------------------------------------------------
     Graph.node_lineage
     --------------------------------------------------------------------- */

  /** One lineage step: all relatives of a node, one per edge. */
  function Step(adj: Adj, link: string, ancestor: bool): string -> seq<string> {
    x => Relatives(adj, x, link, ancestor)
  }

  /** `Graph.node_lineage`: the relatives of the start node, then theirs,
      and so on until a step finds none; the start node itself is not
      listed.  The source loops forever around a cycle; the model gives up
      with `Diverges` after one round per node with edges. */
  function NodeLineage(g: Graph, start: string, link: string, ancestor: bool): (r: Result<seq<string>>) {
    G.LineageLoop(Step(g.adj, link, ancestor), [start], [], G.Budget(g.adj))
  }

  /** The lineage holds exactly the nodes at the end of a walk of one or
      more relatives steps from the start. */
  lemma NodeLineageIsReach(g: Graph, start: string, link: string, ancestor: bool, y: string)
    requires NodeLineage(g, start, link, ancestor).Ok?
    ensures y in NodeLineage(g, start, link, ancestor).value <==>
      exists w | |w| >= 2 && w[0] == start && w[|w| - 1] == y :: G.IsWalk(Step(g.adj, link, ancestor), w)
  {
    var step := Step(g.adj, link, ancestor);
    assert G.Frontier(step, start, 0) == [start];
    G.LoopCollects(step, start, 0, [], G.Budget(g.adj), y);
    if exists j | j > 0 :: y in G.Frontier(step, start, j) {
      var j :| j > 0 && y in G.Frontier(step, start, j);
      G.FrontierIsWalks(step, start, j, y);
    }
    if exists w | |w| >= 2 && w[0] == start && w[|w| - 1] == y :: G.IsWalk(step, w) {
      var w :| |w| >= 2 && w[0] == start && w[|w| - 1] == y && G.IsWalk(step, w);
      G.FrontierIsWalks(step, start, |w| - 1, y);
    }
  }

  /* ---------------------------------------------------------------------
     Graph.nodes_at_same_level (and, for v04, node_children)
     --------------------------------------------------------------------- */

  /** The nodes of `ids[i..]` other than `id` for which `keep` accepts the
      relative `rel` finds; `rel` is evaluated for every such node, and its
      first failure is the result. */
  function Peers(ids: seq<string>, id: string, rel: string -> Result<Option<string>>,
                 keep: (string, Option<string>) -> bool, i: nat): (r: Result<seq<string>>)
    requires i <= |ids|
    ensures r.Ok? <==> forall j | i <= j < |ids| && ids[j] != id :: rel(ids[j]).Ok?
    ensures r.Ok? ==> forall x :: x in r.value <==>
      x in ids[i..] && x != id && rel(x).Ok? && keep(x, rel(x).value)
    decreases |ids| - i
  {
    if i == |ids| then Ok([])
    else
      var x := ids[i];
      assert forall y | y in ids[i..] :: y == x || y in ids[i + 1..] by {
        assert ids[i..] == [x] + ids[i + 1..];
      }
      assert forall y | y in ids[i + 1..] :: y in ids[i..];
      if x == id then Peers(ids, id, rel, keep, i + 1)
      else
        match rel(x)
        case Err(e) => Err(e)
        case Ok(theirs) =>
          var rest :- Peers(ids, id, rel, keep, i + 1);
          Ok((if keep(x, theirs) then [x] else []) + rest)
  }

  /** `Graph.nodes_at_same_level`: the other nodes with the same single
      child as `id`, or like it with none, then `id` itself iff
      `includeNode`. */
  function NodesAtSameLevel(g: Graph, id: string, link: string, includeNode: bool): (r: Result<seq<string>>)
    ensures r.Ok? <==> (Child(g.adj, id, link).Ok? &&
      forall x | x in g.ids && x != id :: Child(g.adj, x, link).Ok?)
    ensures r.Ok? ==> forall x :: x in r.value <==>
      (x == id && includeNode) ||
      (x in g.ids && x != id && Child(g.adj, x, link) == Child(g.adj, id, link))
  {
    var mine :- Child(g.adj, id, link);
    assert g.ids[0..] == g.ids;
    var peers :- Peers(g.ids, id, x => Child(g.adj, x, link), (x, theirs) => theirs == mine, 0);
    Ok(if includeNode then peers + [id] else peers)
  }

  /* ---------------------------------------------------------------------
     Graph.order / Graph.update
     --------------------------------------------------------------------- */

  /** The dependencies of every node. */
  function DepsOf(adj: Adj): string -> seq<string> {
    x => Dependencies(adj, x)
  }

  /** `Graph.order(by)`: with "dependency" each node in turn is inserted
      behind its right-most already placed dependency; any other strategy
      leaves the graph as it is. */
  function Order(g: Graph, strategy: string): (r: Graph)
    ensures r.nodes == g.nodes && r.adj == g.adj
    ensures strategy != "dependency" ==> r == g
    ensures strategy == "dependency" ==> r.ids == Ordering.InsertionOrder(g.ids, DepsOf(g.adj), false)
  {
    if strategy == "dependency" then Graph(Ordering.InsertionOrder(g.ids, DepsOf(g.adj), false), g.nodes, g.adj)
    else g
  }

  /** The dependency order is a permutation of the nodes in which every
      dependency that came earlier stays in front of its dependant. */
  lemma OrderRespects(g: Graph)
    requires Wf(g)
    ensures Perm(Order(g, "dependency").ids, g.ids)
    ensures Wf(Order(g, "dependency"))
    ensures Ordering.DependenciesFirst(g.ids, DepsOf(g.adj), Order(g, "dependency").ids)
  {
    Ordering.InsertionOrderPerm(g.ids, DepsOf(g.adj), false);
    Ordering.InsertionOrderRespects(g.ids, DepsOf(g.adj));
    var r := Order(g, "dependency");
    PermNoDup(g.ids, r.ids);
    assert forall x :: x in r.ids <==> x in g.ids by {
      assert forall x :: x in r.ids <==> x in multiset(r.ids);
      assert forall x :: x in g.ids <==> x in multiset(g.ids);
    }
  }

  /** `Graph.update`: every node, in graph order, adds each of its edges to
      the edge list of the other endpoint. */
  function Update(g: Graph): (r: Graph)
    ensures r.ids == g.ids && r.nodes == g.nodes
    ensures Extends(g.adj, r.adj)
  {
    Graph(g.ids, g.nodes, Adjacency.Update(g.adj, g.ids))
  }

  /** After `update` every edge is listed on both endpoints, and a second
      `update` changes nothing. */
  lemma UpdateSettles(g: Graph)
    requires Wf(g)
    ensures Symmetric(Update(g).adj)
    ensures Update(Update(g)) == Update(g)
  {
    UpdateSymmetric(g.adj, g.ids);
    UpdateIdempotent(g.adj, g.ids);
  }
}
