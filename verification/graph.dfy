/** The graph store of the current generation (`Node`, `Graph` and the
    `OpenEONode` views).  Nodes live in an arena keyed by id and their edge
    lists in an `Adjacency.Adj`; a `Graph` is an ordered selection of ids
    over that arena, so the sub-graphs the queries return (built with
    `Graph.from_list`) share nodes and edges with the graph they come from. */
module Graph {
  import opened Results
  import opened Seqs
  import opened Dicts
  import opened Json
  import opened Definitions
  import opened Adjacency

  /** An `OpenEONode`: id, name (the document key), the node's dictionary,
      its depth, the key path from the document root, and its catalogue
      process. */
  datatype Node = Node(id: string, name: string, content: Json, depth: int,
                       keys: seq<string>, process: Process)

  /** A graph view: node ids in iteration order over the shared arena. */
  datatype Graph = Graph(ids: seq<string>, nodes: map<string, Node>, adj: Adj)

  /** The arena is consistent: every listed id has a node, a node is filed
      under its own id, and every edge endpoint is a node. */
  predicate Wf(g: Graph) {
    NoDup(g.ids) &&
    (forall x | x in g.ids :: x in g.nodes) &&
    (forall x | x in g.nodes :: g.nodes[x].id == x) &&
    (forall x, i | x in g.adj && 0 <= i < |g.adj[x]| :: g.adj[x][i].src in g.nodes && g.adj[x][i].dst in g.nodes)
  }

  /** `Graph.from_list`: an ordered dictionary keyed by id, so a repeated id
      keeps its first position. */
  function FromList(g: Graph, xs: seq<string>): (r: Graph)
    ensures NoDup(r.ids)
    ensures forall x :: x in r.ids <==> x in xs
    ensures r.nodes == g.nodes && r.adj == g.adj
  {
    DedupNoDup(xs);
    Graph(Dedup(xs), g.nodes, g.adj)
  }

  /* ---------------------------------------------------------------------
     Node.relatives / parent / child
     --------------------------------------------------------------------- */

  /** Edge `e` of node `id` leads to a relative: with `ancestor` the node is
      the edge's target, otherwise its source; a given `link` must match the
      edge's name. */
  predicate Links(e: Edge, id: string, link: Option<string>, ancestor: bool) {
    (if ancestor then e.dst else e.src) == id && (link.None? || e.name == link.value)
  }

  /** The endpoint of `e` that is the relative. */
  function Other(e: Edge, ancestor: bool): string {
    if ancestor then e.src else e.dst
  }

  /** The relatives along `es`, one per matching edge, in edge order. */
  function Along(es: seq<Edge>, id: string, link: Option<string>, ancestor: bool): (r: seq<string>)
    ensures forall x :: x in r <==> exists e | e in es :: Links(e, id, link, ancestor) && Other(e, ancestor) == x
  {
    if |es| == 0 then []
    else
      var rest := Along(es[1..], id, link, ancestor);
      assert forall e | e in es :: e == es[0] || e in es[1..];
      if Links(es[0], id, link, ancestor) then [Other(es[0], ancestor)] + rest else rest
  }

  /** `x` is a relative of `id`: some edge of `id` leads to it. */
  predicate Related(adj: Adj, link: Option<string>, ancestor: bool, id: string, x: string) {
    exists e | e in EdgesOf(adj, id) :: Links(e, id, link, ancestor) && Other(e, ancestor) == x
  }

  /** `Node.relatives(link, ancestor)`. */
  function Relatives(adj: Adj, id: string, link: Option<string>, ancestor: bool): (r: seq<string>)
    ensures forall x :: x in r <==> Related(adj, link, ancestor, id, x)
  {
    Dedup(Along(EdgesOf(adj, id), id, link, ancestor))
  }

  /** The single relative, none, or `err` when there are several: `parent`
      (ancestors), `child` (descendants) and `parent_process`. */
  function Single(adj: Adj, id: string, link: Option<string>, ancestor: bool, err: Error): (r: Result<Option<string>>)
    ensures r == Ok(None) <==> forall e | e in EdgesOf(adj, id) :: !Links(e, id, link, ancestor)
    ensures r.Ok? && r.value.Some? ==>
      (exists e | e in EdgesOf(adj, id) :: Links(e, id, link, ancestor)) &&
      (forall e | e in EdgesOf(adj, id) && Links(e, id, link, ancestor) :: Other(e, ancestor) == r.value.value)
    ensures r.Err? ==> r.error == err
    ensures r.Err? ==>
      exists e1, e2 | e1 in EdgesOf(adj, id) && e2 in EdgesOf(adj, id) ::
        Links(e1, id, link, ancestor) && Links(e2, id, link, ancestor) && Other(e1, ancestor) != Other(e2, ancestor)
  {
    var rs := Relatives(adj, id, link, ancestor);
    DedupNoDup(Along(EdgesOf(adj, id), id, link, ancestor));
    if |rs| > 1 then
      assert rs[0] in rs && rs[1] in rs && rs[0] != rs[1];
      Err(err)
    else if |rs| == 0 then
      assert forall e | e in EdgesOf(adj, id) && Links(e, id, link, ancestor) :: Other(e, ancestor) in rs;
      Ok(None)
    else
      assert rs[0] in rs;
      assert forall e | e in EdgesOf(adj, id) && Links(e, id, link, ancestor) :: Other(e, ancestor) in rs;
      Ok(Some(rs[0]))
  }

  function Parent(adj: Adj, id: string, link: Option<string>): Result<Option<string>> {
    Single(adj, id, link, true, TooManyParents)
  }

  function Child(adj: Adj, id: string, link: Option<string>): Result<Option<string>> {
    Single(adj, id, link, false, TooManyChildren)
  }

  /* ---------------------------------------------------------------------
     Lookup: __getitem__ and get_node_by_name
     --------------------------------------------------------------------- */

  /** What `graph[item]` is given: a string or an integer. */
  datatype Item = ItemStr(s: string) | ItemInt(i: int)

  /** `get_node_by_name`: the first node, in graph order, with that name. */
  function NodeByName(g: Graph, name: string): (r: Option<string>)
    requires Wf(g)
    ensures r.None? <==> forall x | x in g.ids :: g.nodes[x].name != name
    ensures r.Some? ==> r.value in g.ids && g.nodes[r.value].name == name
    ensures r.Some? ==> forall j | 0 <= j < FirstIndex(g.ids, r.value) :: g.nodes[g.ids[j]].name != name
  {
    FirstNamed(g, name, 0)
  }

  function FirstNamed(g: Graph, name: string, i: nat): (r: Option<string>)
    requires Wf(g) && i <= |g.ids|
    ensures r.None? <==> forall j | i <= j < |g.ids| :: g.nodes[g.ids[j]].name != name
    ensures r.Some? ==> exists j | i <= j < |g.ids| ::
      g.ids[j] == r.value && g.nodes[r.value].name == name && (forall t | i <= t < j :: g.nodes[g.ids[t]].name != name)
    decreases |g.ids| - i
  {
    if i == |g.ids| then None
    else if g.nodes[g.ids[i]].name == name then Some(g.ids[i])
    else FirstNamed(g, name, i + 1)
  }

  /** `Graph.__getitem__`: a node id first, then a position, then the first
      node with that name; anything else is a KeyError. */
  function GetItem(g: Graph, item: Item): (r: Result<string>)
    requires Wf(g)
    ensures item.ItemStr? && item.s in g.ids ==> r == Ok(item.s)
    ensures item.ItemInt? ==> (r.Ok? <==> -|g.ids| <= item.i < |g.ids|)
    ensures item.ItemInt? && r.Ok? ==> r.value == g.ids[if item.i >= 0 then item.i else |g.ids| + item.i]
    ensures item.ItemStr? && item.s !in g.ids ==>
      (r.Ok? <==> exists x | x in g.ids :: g.nodes[x].name == item.s) &&
      (r.Ok? ==> r.value in g.ids && g.nodes[r.value].name == item.s &&
                 forall j | 0 <= j < FirstIndex(g.ids, r.value) :: g.nodes[g.ids[j]].name != item.s)
    ensures r.Err? && item.ItemStr? ==> r.error == MissingKey
  {
    match item
    case ItemInt(i) => PyIndex(g.ids, i)
    case ItemStr(s) =>
      if s in g.ids then Ok(s)
      else
        match NodeByName(g, s)
        case Some(x) => Ok(x)
        case None => Err(MissingKey)
  }

  /* ---------------------------------------------------------------------
     Graph.lineage
     --------------------------------------------------------------------- */

  /** One relatives step of `lineage`, as a function of the node. */
  function StepOf(adj: Adj, link: Option<string>, ancestor: bool): string -> seq<string> {
    x => Relatives(adj, x, link, ancestor)
  }

  /** The relatives of every node of `frontier`, concatenated. */
  function Expand(step: string -> seq<string>, frontier: seq<string>): seq<string> {
    if |frontier| == 0 then []
    else Expand(step, frontier[..|frontier| - 1]) + step(frontier[|frontier| - 1])
  }

  /** The expansion holds exactly the relatives of the frontier's nodes. */
  lemma {:induction false} ExpandMembers(step: string -> seq<string>, frontier: seq<string>, y: string)
    ensures y in Expand(step, frontier) <==> exists x | x in frontier :: y in step(x)
    decreases |frontier|
  {
    if |frontier| > 0 {
      var last := frontier[|frontier| - 1];
      var init := frontier[..|frontier| - 1];
      ExpandMembers(step, init, y);
      assert forall x | x in frontier :: x == last || x in init;
      assert forall x | x in init :: x in frontier;
    }
  }

  /** The loop of `lineage`: extend by the next frontier until it is empty.
      The source loops forever when the lineage runs around a cycle; the
      model stops after `fuel` further rounds with `Diverges`. */
  function LineageLoop(step: string -> seq<string>, current: seq<string>, acc: seq<string>, fuel: nat): (r: Result<seq<string>>)
    ensures r.Ok? ==> acc <= r.value
    decreases fuel
  {
    var next := Expand(step, current);
    if |next| == 0 then Ok(acc)
    else if fuel == 0 then Err(Diverges)
    else LineageLoop(step, next, acc + next, fuel - 1)
  }

  /** The round budget: one round per node with edges. */
  function Budget(adj: Adj): nat { |adj| }

  /** `Graph.lineage(node, link, ancestors, include_node)`. */
  function Lineage(g: Graph, start: string, link: Option<string>, ancestor: bool, includeNode: bool): (r: Result<Graph>)
    ensures r.Ok? ==> r.value.nodes == g.nodes && r.value.adj == g.adj && NoDup(r.value.ids)
  {
    var found :- LineageLoop(StepOf(g.adj, link, ancestor), [start], if includeNode then [start] else [], Budget(g.adj));
    Ok(FromList(g, found))
  }

  /** `w` steps from each node to one of its relatives. */
  ghost predicate IsWalk(step: string -> seq<string>, w: seq<string>) {
    forall i | 0 <= i < |w| - 1 :: w[i + 1] in step(w[i])
  }

  lemma WalkSnoc(step: string -> seq<string>, w: seq<string>, y: string)
    requires |w| > 0 && IsWalk(step, w) && y in step(w[|w| - 1])
    ensures IsWalk(step, w + [y])
  {
    var w' := w + [y];
    forall i | 0 <= i < |w'| - 1 ensures w'[i + 1] in step(w'[i]) {
      if i < |w| - 1 {
        assert w'[i + 1] == w[i + 1] && w'[i] == w[i];
      }
    }
  }

  lemma WalkPrefix(step: string -> seq<string>, w: seq<string>, k: nat)
    requires k <= |w| && IsWalk(step, w)
    ensures IsWalk(step, w[..k])
  {
    var w0 := w[..k];
    forall i | 0 <= i < |w0| - 1 ensures w0[i + 1] in step(w0[i]) {
      assert w0[i + 1] == w[i + 1] && w0[i] == w[i];
    }
  }

  /** The nodes reached in exactly `k` relatives steps from `start`. */
  function Frontier(step: string -> seq<string>, start: string, k: nat): seq<string> {
    if k == 0 then [start] else Expand(step, Frontier(step, start, k - 1))
  }

  /** Frontier `k` holds exactly the ends of the walks of `k` steps. */
  lemma FrontierIsWalks(step: string -> seq<string>, start: string, k: nat, y: string)
    ensures y in Frontier(step, start, k) <==>
      exists w | |w| == k + 1 && w[0] == start && w[k] == y :: IsWalk(step, w)
  {
    if y in Frontier(step, start, k) {
      var w := FrontierToWalk(step, start, k, y);
    }
    if exists w | |w| == k + 1 && w[0] == start && w[k] == y :: IsWalk(step, w) {
      var w :| |w| == k + 1 && w[0] == start && w[k] == y && IsWalk(step, w);
      WalkToFrontier(step, start, w);
    }
  }

  lemma {:induction false} FrontierToWalk(step: string -> seq<string>, start: string, k: nat, y: string)
    returns (w: seq<string>)
    requires y in Frontier(step, start, k)
    ensures |w| == k + 1 && w[0] == start && w[k] == y && IsWalk(step, w)
  {
    if k == 0 {
      w := [start];
    } else {
      var prev := Frontier(step, start, k - 1);
      ExpandMembers(step, prev, y);
      var x :| x in prev && y in step(x);
      var w0 := FrontierToWalk(step, start, k - 1, x);
      WalkSnoc(step, w0, y);
      w := w0 + [y];
    }
  }

  lemma {:induction false} WalkToFrontier(step: string -> seq<string>, start: string, w: seq<string>)
    requires |w| > 0 && w[0] == start && IsWalk(step, w)
    ensures w[|w| - 1] in Frontier(step, start, |w| - 1)
    decreases |w|
  {
    if |w| > 1 {
      var k := |w| - 1;
      WalkPrefix(step, w, k);
      WalkToFrontier(step, start, w[..k]);
      assert w[..k][k - 1] == w[k - 1];
      assert w[k] in step(w[k - 1]);
      ExpandMembers(step, Frontier(step, start, k - 1), w[k]);
    }
  }

  /** An empty frontier stays empty. */
  lemma {:induction false} FrontierStaysEmpty(step: string -> seq<string>, start: string, k: nat, j: nat)
    requires k <= j && |Frontier(step, start, k)| == 0
    ensures |Frontier(step, start, j)| == 0
    decreases j - k
  {
    if k < j {
      FrontierStaysEmpty(step, start, k, j - 1);
      assert Frontier(step, start, j - 1) == [];
    }
  }

  /** Run from frontier `k`, the loop collects exactly the nodes of the
      later frontiers. */
  lemma {:induction false} LoopCollects(step: string -> seq<string>, start: string, k: nat, acc: seq<string>, fuel: nat, y: string)
    requires LineageLoop(step, Frontier(step, start, k), acc, fuel).Ok?
    ensures y in LineageLoop(step, Frontier(step, start, k), acc, fuel).value <==>
      y in acc || exists j | j > k :: y in Frontier(step, start, j)
    decreases fuel
  {
    var next := Frontier(step, start, k + 1);
    if |next| == 0 {
      forall j | j > k ensures y !in Frontier(step, start, j) {
        FrontierStaysEmpty(step, start, k + 1, j);
      }
    } else {
      LoopCollects(step, start, k + 1, acc + next, fuel - 1, y);
      if exists j | j > k :: y in Frontier(step, start, j) {
        var j :| j > k && y in Frontier(step, start, j);
        assert j == k + 1 || j > k + 1;
      }
    }
  }

  /** The relatives of a node of a consistent arena are nodes of it. */
  lemma RelativesInNodes(g: Graph, id: string, link: Option<string>, ancestor: bool)
    requires Wf(g)
    ensures forall y | y in Relatives(g.adj, id, link, ancestor) :: y in g.nodes
  {
    forall y | y in Relatives(g.adj, id, link, ancestor) ensures y in g.nodes {
      var e :| e in EdgesOf(g.adj, id) && Links(e, id, link, ancestor) && Other(e, ancestor) == y;
      assert id in g.adj;
      var i :| 0 <= i < |g.adj[id]| && g.adj[id][i] == e;
    }
  }

  /** Every round of `lineage` stays inside the arena. */
  lemma {:induction false} LoopInNodes(g: Graph, link: Option<string>, ancestor: bool, current: seq<string>, acc: seq<string>, fuel: nat)
    requires Wf(g) && forall y | y in acc :: y in g.nodes
    requires LineageLoop(StepOf(g.adj, link, ancestor), current, acc, fuel).Ok?
    ensures forall y | y in LineageLoop(StepOf(g.adj, link, ancestor), current, acc, fuel).value :: y in g.nodes
    decreases fuel
  {
    var step := StepOf(g.adj, link, ancestor);
    var next := Expand(step, current);
    if |next| > 0 && fuel > 0 {
      forall y | y in next ensures y in g.nodes {
        ExpandMembers(step, current, y);
        var x :| x in current && y in step(x);
        RelativesInNodes(g, x, link, ancestor);
      }
      LoopInNodes(g, link, ancestor, next, acc + next, fuel - 1);
    }
  }

  /** A lineage is a consistent graph over the same arena. */
  lemma LineageWf(g: Graph, start: string, link: Option<string>, ancestor: bool, includeNode: bool)
    requires Wf(g) && (includeNode ==> start in g.nodes)
    requires Lineage(g, start, link, ancestor, includeNode).Ok?
    ensures Wf(Lineage(g, start, link, ancestor, includeNode).value)
  {
    LoopInNodes(g, link, ancestor, [start], if includeNode then [start] else [], Budget(g.adj));
  }

  /** `lineage` holds the start node iff `include_node`, and besides it
      exactly the nodes at the end of a walk of one or more relatives steps. */
  lemma LineageIsReach(g: Graph, start: string, link: Option<string>, ancestor: bool, includeNode: bool, y: string)
    requires Lineage(g, start, link, ancestor, includeNode).Ok?
    ensures y in Lineage(g, start, link, ancestor, includeNode).value.ids <==>
      (includeNode && y == start) ||
      exists w | |w| >= 2 && w[0] == start && w[|w| - 1] == y :: IsWalk(StepOf(g.adj, link, ancestor), w)
  {
    var step := StepOf(g.adj, link, ancestor);
    var acc := if includeNode then [start] else [];
    assert Frontier(step, start, 0) == [start];
    LoopCollects(step, start, 0, acc, Budget(g.adj), y);
    if exists j | j > 0 :: y in Frontier(step, start, j) {
      var j :| j > 0 && y in Frontier(step, start, j);
      FrontierIsWalks(step, start, j, y);
    }
    if exists w | |w| >= 2 && w[0] == start && w[|w| - 1] == y :: IsWalk(step, w) {
      var w :| |w| >= 2 && w[0] == start && w[|w| - 1] == y && IsWalk(step, w);
      FrontierIsWalks(step, start, |w| - 1, y);
    }
  }

  /** When the model gives up, the frontier one round past the budget is
      still non-empty: some walk from the start is longer than the budget.
      (Informally, by pigeonhole such a walk revisits a node; that step is
      a remark, not part of this lemma.) */
  lemma {:induction false} DivergesHasLongWalk(step: string -> seq<string>, start: string, k: nat, acc: seq<string>, fuel: nat)
    requires LineageLoop(step, Frontier(step, start, k), acc, fuel).Err?
    ensures |Frontier(step, start, k + fuel + 1)| > 0
    decreases fuel
  {
    var next := Frontier(step, start, k + 1);
    assert next == Expand(step, Frontier(step, start, k));
    if fuel > 0 {
      assert LineageLoop(step, next, acc + next, fuel - 1).Err?;
      DivergesHasLongWalk(step, start, k + 1, acc + next, fuel - 1);
      assert k + 1 + (fuel - 1) + 1 == k + fuel + 1;
    }
  }

  /* ---------------------------------------------------------------------
     find_siblings / find_partners
     --------------------------------------------------------------------- */

  /** The nodes among the first `n` of `g` other than `id` whose single
      relative (`ancestor`: parent, otherwise child) equals `mine`. */
  function Peers(g: Graph, id: string, mine: Option<string>, link: Option<string>, ancestor: bool, err: Error, n: nat): (r: Result<seq<string>>)
    requires n <= |g.ids|
    ensures r.Ok? <==> forall i | 0 <= i < n && g.ids[i] != id :: Single(g.adj, g.ids[i], link, ancestor, err).Ok?
    ensures r.Ok? ==> forall x :: x in r.value <==>
      x in g.ids[..n] && x != id && Single(g.adj, x, link, ancestor, err) == Ok(mine)
  {
    if n == 0 then Ok([])
    else
      var x := g.ids[n - 1];
      var acc := Peers(g, id, mine, link, ancestor, err, n - 1);
      assert forall y | y in g.ids[..n] :: y == x || y in g.ids[..n - 1] by {
        assert g.ids[..n] == g.ids[..n - 1] + [x];
      }
      assert g.ids[..n - 1] <= g.ids[..n];
      if x == id then acc
      else
        match Single(g.adj, x, link, ancestor, err)
        case Err(e) => Err(e)
        case Ok(theirs) =>
          if acc.Err? then acc
          else Ok(if theirs == mine then acc.value + [x] else acc.value)
  }

  /** Nodes on the same level as `id`: those with the same single relative,
      or like it with none, plus `id` itself iff `includeNode`. */
  function SameLevel(g: Graph, id: string, link: Option<string>, includeNode: bool, ancestor: bool, err: Error): (r: Result<Graph>)
    ensures r.Ok? <==> (Single(g.adj, id, link, ancestor, err).Ok? &&
      forall x | x in g.ids && x != id :: Single(g.adj, x, link, ancestor, err).Ok?)
    ensures r.Ok? ==> NoDup(r.value.ids) && r.value.nodes == g.nodes && r.value.adj == g.adj
    ensures r.Ok? ==> forall x :: x in r.value.ids <==>
      (x == id && includeNode) ||
      (x in g.ids && x != id && Single(g.adj, x, link, ancestor, err) == Single(g.adj, id, link, ancestor, err))
  {
    var mine :- Single(g.adj, id, link, ancestor, err);
    assert g.ids[..|g.ids|] == g.ids;
    var peers :- Peers(g, id, mine, link, ancestor, err, |g.ids|);
    Ok(FromList(g, if includeNode then peers + [id] else peers))
  }

  /** `Graph.find_siblings`: same parent. */
  function FindSiblings(g: Graph, id: string, link: Option<string>, includeNode: bool): Result<Graph> {
    SameLevel(g, id, link, includeNode, true, TooManyParents)
  }

  /** `Graph.find_partners`: same child. */
  function FindPartners(g: Graph, id: string, link: Option<string>, includeNode: bool): Result<Graph> {
    SameLevel(g, id, link, includeNode, false, TooManyChildren)
  }

  /* ---------------------------------------------------------------------
     Graph.update
     --------------------------------------------------------------------- */

  /** `Graph.update` over the graph's nodes. */
  function Update(g: Graph): (r: Graph)
    ensures r.ids == g.ids && r.nodes == g.nodes
    ensures Extends(g.adj, r.adj)
    ensures (forall x | x in g.adj :: x in g.ids) ==> Symmetric(r.adj)
  {
    if forall x | x in g.adj :: x in g.ids then
      UpdateSymmetric(g.adj, g.ids);
      Graph(g.ids, g.nodes, Adjacency.Update(g.adj, g.ids))
    else
      Graph(g.ids, g.nodes, Adjacency.Update(g.adj, g.ids))
  }

  /** `update` keeps the arena consistent. */
  lemma UpdateWf(g: Graph)
    requires Wf(g)
    ensures Wf(Update(g))
  {
    UpdateEndsIn(g.adj, g.ids, g.nodes.Keys);
  }

  /* ---------------------------------------------------------------------
     OpenEONode views
     --------------------------------------------------------------------- */

  /** `OpenEONode.arguments`: the stored arguments, completed with the
      default of every declared parameter they do not mention; the stored
      content is left as it is. */
  function Arguments(n: Node): (r: Result<Json>)
    ensures r.Ok? ==> HasField(n.content, "arguments") && Parameters(n.process).Ok?
    ensures r.Ok? && Parameters(n.process).Ok? && |Parameters(n.process).value.params| > 0 ==>
      r.value.JObj? && Member(n.content, "arguments").Ok? && Member(n.content, "arguments").value.JObj?
    ensures r.Ok? && !Field(n.content, "arguments").value.JObj? ==> r.value == Field(n.content, "arguments").value
    ensures r.Ok? && Field(n.content, "arguments").value.JObj? ==>
      var stored := Field(n.content, "arguments").value.entries;
      var params := Parameters(n.process).value.params;
      r.value.JObj? &&
      (forall k | HasKey(stored, k) :: Get(r.value.entries, k) == Get(stored, k)) &&
      (forall j | 0 <= j < |params| && !HasKey(stored, params[j].0) ::
         DefaultValue(params[j].1).Ok? && Get(r.value.entries, params[j].0) == Some(DefaultValue(params[j].1).value)) &&
      (forall k | HasKey(r.value.entries, k) :: HasKey(stored, k) || exists j | 0 <= j < |params| :: params[j].0 == k)
    // The declared parameters are read before the stored arguments, so a
    // bad definition is reported even when the arguments are missing too.
    ensures Parameters(n.process).Err? ==> r == Err(Parameters(n.process).error)
    ensures Parameters(n.process).Ok? && Member(n.content, "arguments").Err? ==>
      r == Err(Member(n.content, "arguments").error)
  {
    var declared :- Parameters(n.process);
    var args :- Member(n.content, "arguments");
    WithDefaults(args, declared.params, 0)
  }

  /** Adds the defaults of `params[i..]` that `args` lacks. */
  function WithDefaults(args: Json, params: Dict<string, Parameter>, i: nat): (r: Result<Json>)
    requires i <= |params| && UniqueKeys(params)
    ensures r.Ok? && i < |params| ==> args.JObj?
    ensures r.Ok? && i == |params| ==> r.value == args
    ensures r.Ok? && args.JObj? ==> r.value.JObj?
    ensures r.Ok? && args.JObj? ==>
      forall k | HasKey(args.entries, k) :: Get(r.value.entries, k) == Get(args.entries, k)
    ensures r.Ok? && args.JObj? ==>
      forall j | i <= j < |params| && !HasKey(args.entries, params[j].0) ::
        DefaultValue(params[j].1).Ok? && Get(r.value.entries, params[j].0) == Some(DefaultValue(params[j].1).value)
    ensures r.Ok? && args.JObj? ==>
      forall k | HasKey(r.value.entries, k) :: HasKey(args.entries, k) || exists j | i <= j < |params| :: params[j].0 == k
    decreases |params| - i
  {
    if i == |params| then Ok(args)
    else if !args.JObj? then Err(BadType)
    else
      var name := params[i].0;
      assert forall j | i < j < |params| :: params[j].0 != name;
      if HasKey(args.entries, name) then WithDefaults(args, params, i + 1)
      else
        var d :- DefaultValue(params[i].1);
        var next := JObj(Put(args.entries, name, d));
        assert forall k | k != name :: HasKey(next.entries, k) == HasKey(args.entries, k) by {
          forall k | k != name ensures HasKey(next.entries, k) == HasKey(args.entries, k) {
            assert Get(next.entries, k) == Get(args.entries, k);
          }
        }
        WithDefaults(next, params, i + 1)
  }

  /** `OpenEONode.parameters`: the parameter definitions of the first
      argument (in argument order) that is a dictionary with a `parameters`
      entry, read from the stored content. */
  function NodeParameters(n: Node): (r: Result<seq<Json>>)
  {
    var args :- Arguments(n);
    if !args.JObj? then Err(BadType)
    else FirstWithParameters(n, args.entries, 0)
  }

  /** Argument `j` is the first from `i` on that is a dictionary with a
      `parameters` entry. */
  predicate FirstParametersAt(args: Dict<string, Json>, i: nat, j: nat) {
    i <= j < |args| && HasField(args[j].1, "parameters") &&
    forall l | i <= l < j :: !HasField(args[l].1, "parameters")
  }

  /** The argument `k` as the node's stored content holds it, if it does. */
  function StoredArgument(n: Node, k: string): (r: Option<Json>)
    ensures r.Some? <==> HasField(n.content, "arguments") && HasField(Field(n.content, "arguments").value, k)
  {
    match Field(n.content, "arguments")
    case Some(a) => Field(a, k)
    case None => None
  }

  /** The parameter definitions of the first argument holding `parameters`,
      looked up again in the stored content: an argument that is only a
      filled-in default is not there, which is a KeyError. */
  function FirstWithParameters(n: Node, args: Dict<string, Json>, i: nat): (r: Result<seq<Json>>)
    requires i <= |args|
    ensures (forall j | i <= j < |args| :: !HasField(args[j].1, "parameters")) ==> r == Ok([])
    ensures forall j: nat | FirstParametersAt(args, i, j) ::
      (StoredArgument(n, args[j].0).Some? && HasField(StoredArgument(n, args[j].0).value, "parameters") ==>
         r == Iter(Field(StoredArgument(n, args[j].0).value, "parameters").value)) &&
      (Field(n.content, "arguments").Some? && Field(n.content, "arguments").value.JObj? && StoredArgument(n, args[j].0).None? ==>
         r == Err(MissingKey))
    decreases |args| - i
  {
    if i == |args| then Ok([])
    else if HasField(args[i].1, "parameters") then
      var stored :- Member(n.content, "arguments");
      var arg :- Member(stored, args[i].0);
      var defs :- Member(arg, "parameters");
      Iter(defs)
    else FirstWithParameters(n, args, i + 1)
  }

  /** `OpenEONode.is_result`: a truthy `result` entry. */
  predicate IsResult(n: Node) {
    HasField(n.content, "result") && Truthy(Field(n.content, "result").value)
  }

  /** `OpenEONode.uses_callback`: some callback edge ends at the node. */
  predicate UsesCallback(adj: Adj, id: string) {
    exists e | e in EdgesOf(adj, id) :: e.name == "callback" && e.dst == id
  }

  /** `OpenEONode.parent_process`: the node a callback edge leads to. */
  function ParentProcess(adj: Adj, id: string): (r: Result<Option<string>>)
    ensures r == Ok(None) <==> forall e | e in EdgesOf(adj, id) :: !(e.src == id && e.name == "callback")
    ensures r.Ok? && r.value.Some? ==>
      forall e | e in EdgesOf(adj, id) && e.src == id && e.name == "callback" :: e.dst == r.value.value
    ensures r.Err? ==> r.error == TooManyParents
  {
    Single(adj, id, Some("callback"), false, TooManyParents)
  }

  /** `OpenEONode.child_processes`: the nodes whose callback edge leads here. */
  function ChildProcesses(adj: Adj, id: string): (r: seq<string>)
    ensures NoDup(r)
    ensures forall x :: x in r <==> exists e | e in EdgesOf(adj, id) :: e.dst == id && e.name == "callback" && e.src == x
  {
    DedupNoDup(Along(EdgesOf(adj, id), id, Some("callback"), true));
    Relatives(adj, id, Some("callback"), true)
  }

  /** `OpenEONode.result_processes`: the child processes that are results. */
  function ResultProcesses(g: Graph, id: string): (r: seq<string>)
    requires Wf(g)
    ensures NoDup(r)
    ensures forall x :: x in r <==> x in ChildProcesses(g.adj, id) && IsResult(g.nodes[x])
  {
    var cs := ChildProcesses(g.adj, id);
    assert forall x | x in cs :: x in g.nodes by {
      forall x | x in cs ensures x in g.nodes {
        var e :| e in EdgesOf(g.adj, id) && e.dst == id && e.name == "callback" && e.src == x;
        var i :| 0 <= i < |g.adj[id]| && g.adj[id][i] == e;
      }
    }
    Filter(cs, g)
  }

  function Filter(cs: seq<string>, g: Graph): (r: seq<string>)
    requires forall x | x in cs :: x in g.nodes
    ensures forall x :: x in r <==> x in cs && IsResult(g.nodes[x])
    ensures NoDup(cs) ==> NoDup(r)
  {
    if |cs| == 0 then []
    else
      var rest := Filter(cs[1..], g);
      assert forall x | x in cs :: x == cs[0] || x in cs[1..];
      if IsResult(g.nodes[cs[0]]) then [cs[0]] + rest else rest
  }

  /** `OpenEONode.dimension`: a reducer's own `dimension` argument, or else
      its parent process's dimension; a non-reducer has none.  `fuel`
      bounds the climb, which the source leaves to the tree's height. */
  function Dimension(g: Graph, id: string, fuel: nat): (r: Result<Option<Json>>)
    requires Wf(g) && id in g.nodes
    ensures r.Ok? && r.value.Some? ==> IsReducer(g.nodes[id].process) == Ok(true)
    ensures IsReducer(g.nodes[id].process) == Ok(false) ==> r == Ok(None)
    ensures IsReducer(g.nodes[id].process) == Ok(true) && Arguments(g.nodes[id]).Ok? &&
            Arguments(g.nodes[id]).value.JObj? && HasKey(Arguments(g.nodes[id]).value.entries, "dimension") ==>
      r == Ok(Get(Arguments(g.nodes[id]).value.entries, "dimension"))
    decreases fuel
  {
    var reducer :- IsReducer(g.nodes[id].process);
    if !reducer then Ok(None)
    else
      var args :- Arguments(g.nodes[id]);
      if !args.JObj? then Err(BadType)
      else if HasKey(args.entries, "dimension") then Ok(Some(Get(args.entries, "dimension").value))
      else
        var p :- ParentProcess(g.adj, id);
        if p.None? then Err(BadType)
        else if fuel == 0 then Err(Diverges)
        else
          assert p.value in g.nodes by {
            var e :| e in EdgesOf(g.adj, id) && Links(e, id, Some("callback"), false);
            var i :| 0 <= i < |g.adj[id]| && g.adj[id][i] == e;
          }
          Dimension(g, p.value, fuel - 1)
  }

  /** A reducer without its own `dimension` argument takes the dimension of
      its parent process. */
  lemma DimensionFromParent(g: Graph, id: string, p: string, fuel: nat)
    requires Wf(g) && id in g.nodes && fuel > 0
    requires IsReducer(g.nodes[id].process) == Ok(true)
    requires Arguments(g.nodes[id]).Ok? && Arguments(g.nodes[id]).value.JObj?
    requires !HasKey(Arguments(g.nodes[id]).value.entries, "dimension")
    requires ParentProcess(g.adj, id) == Ok(Some(p))
    ensures p in g.nodes && Dimension(g, id, fuel) == Dimension(g, p, fuel - 1)
  {
    ParentInGraph(g, id, p);
  }

  /** The parent process of a node of a consistent graph is in the graph. */
  lemma ParentInGraph(g: Graph, id: string, p: string)
    requires Wf(g) && id in g.nodes && ParentProcess(g.adj, id) == Ok(Some(p))
    ensures p in g.nodes
  {
    var e :| e in EdgesOf(g.adj, id) && e.src == id && e.name == "callback";
    var i :| 0 <= i < |g.adj[id]| && g.adj[id][i] == e;
  }
}
