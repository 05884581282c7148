/** The linker of the current generation (`translate.py`): after the walk
    has numbered the nodes, three passes rewrite the references inside the
    nodes' arguments.  `from_node` names become the ids of same-level nodes
    (with a data edge), `from_parameter` names become what the nearest
    enclosing scope, or else the global table, defines for them, and each
    result node of an embedded process graph replaces that graph inside its
    enclosing node.  Every pass is a function from graph to graph or error;
    a node's content is replaced, never shared. */
module Translate {
  import opened Results
  import opened Seqs
  import opened Strs
  import opened Dicts
  import opened Json
  import opened Utils
  import opened Definitions
  import opened Adjacency
  import G = Graph
  import Sorting
  import Walk

  /* ---------------------------------------------------------------------
     How a rewrite stores its value
     --------------------------------------------------------------------- */

  /** The source stores every rewritten value through
      `set_obj_elem_from_keys`, which splices the value's text into an
      assignment (`AsWritten`); `AsIntended` stores the value itself. */
  function Write(w: Version, obj: Json, p: Path, v: Json): (r: Result<Json>)
    ensures w.AsIntended? ==> r == SetPath(obj, p, v)
    ensures w.AsWritten? ==> r == SetObjElemFromKeys(obj, p, v)
  {
    if w.AsWritten? then SetObjElemFromKeys(obj, p, v) else SetPath(obj, p, v)
  }

  /** A write reads back at its path, as the value itself or, as written,
      as the value its text evaluates to, and every path that parts ways
      with it reads as before. */
  lemma WriteReadsBack(w: Version, obj: Json, p: Path, v: Json, q: Path)
    requires |p| > 0 && Write(w, obj, p, v).Ok?
    ensures w.AsIntended? ==> GetPath(Write(w, obj, p, v).value, p) == Ok(v)
    ensures w.AsWritten? ==> Splice(v).Ok? && GetPath(Write(w, obj, p, v).value, p) == Ok(Splice(v).value)
    ensures Diverge(p, q) ==> GetPath(Write(w, obj, p, v).value, q) == GetPath(obj, q)
  {
    var u := if w.AsIntended? then v else Splice(v).value;
    GetAfterSet(obj, p, u);
    if Diverge(p, q) {
      SetLeavesOthers(obj, p, u, q);
    }
  }

  /** A node id that is a Python identifier ends in a digit, so splicing it
      as text names an unbound variable. */
  lemma SpliceId(id: string)
    requires Sorting.Numbered(id) && IsIdentifier(id)
    ensures Splice(JStr(id)) == Err(UnboundName)
  {
    assert IsDigit(id[|id| - 1]);
  }

  /* ---------------------------------------------------------------------
     find_node_inputs
     --------------------------------------------------------------------- */

  /** `p` is a reference path through argument `j`: the argument's key, then
      a path inside its value that ends in the key `link`. */
  predicate RefPath(args: Dict<string, Json>, link: string, j: int, p: Path) {
    0 <= j < |args| && |p| >= 2 && p[0] == KStr(args[j].0) && p[|p| - 1] == KStr(link) &&
    p[1..] in InnerPaths(args[j].1)
  }

  /** The reference paths of the arguments `args[i..]`: for each argument in
      order, the paths inside its value that end in the key `link`, each led
      by the argument's own key. */
  function InputsFrom(args: Dict<string, Json>, link: string, i: nat): (r: seq<Path>)
    requires i <= |args|
    ensures forall p | p in r :: exists j | i <= j :: RefPath(args, link, j, p)
    decreases |args| - i
  {
    if i == |args| then []
    else
      var here := Under(KStr(args[i].0), EndingIn(InnerPaths(args[i].1), link));
      forall p | p in here ensures RefPath(args, link, i, p) {
        RefPathUnder(args, link, i, p);
      }
      here + InputsFrom(args, link, i + 1)
  }

  lemma RefPathUnder(args: Dict<string, Json>, link: string, i: nat, p: Path)
    requires i < |args| && p in Under(KStr(args[i].0), EndingIn(InnerPaths(args[i].1), link))
    ensures RefPath(args, link, i, p)
  {
    var mine := EndingIn(InnerPaths(args[i].1), link);
    var t :| 0 <= t < |mine| && Under(KStr(args[i].0), mine)[t] == p;
    assert mine[t] in mine;
    assert p[1..] == mine[t];
    assert p[1..][|p[1..]| - 1] == p[|p| - 1];
  }

  /** Every reference path of an argument at or after `i` is found. */
  lemma {:induction false} InputsFromComplete(args: Dict<string, Json>, link: string, i: nat, j: nat, p: Path)
    requires i <= j && RefPath(args, link, j, p)
    ensures p in InputsFrom(args, link, i)
    decreases j - i
  {
    var here := Under(KStr(args[i].0), EndingIn(InnerPaths(args[i].1), link));
    assert InputsFrom(args, link, i) == here + InputsFrom(args, link, i + 1);
    if i < j {
      InputsFromComplete(args, link, i + 1, j, p);
    } else {
      RefPathHere(args, link, i, p);
    }
  }

  /** A reference path of argument `i` is among those found in it. */
  lemma RefPathHere(args: Dict<string, Json>, link: string, i: nat, p: Path)
    requires RefPath(args, link, i, p)
    ensures p in Under(KStr(args[i].0), EndingIn(InnerPaths(args[i].1), link))
  {
    var mine := EndingIn(InnerPaths(args[i].1), link);
    assert p[1..][|p[1..]| - 1] == p[|p| - 1];
    assert p[1..] in mine;
    var t :| 0 <= t < |mine| && mine[t] == p[1..];
    assert Under(KStr(args[i].0), mine)[t] == p;
  }

  /** `find_node_inputs(node, link)`: the reference paths of the node's
      arguments (stored ones completed with defaults). */
  function FindNodeInputs(n: G.Node, link: string): (r: Result<seq<Path>>)
    ensures r.Ok? <==> G.Arguments(n).Ok? && G.Arguments(n).value.JObj?
    ensures r.Ok? ==> r.value == InputsFrom(G.Arguments(n).value.entries, link, 0)
  {
    var args :- G.Arguments(n);
    if !args.JObj? then Err(BadType) else Ok(InputsFrom(args.entries, link, 0))
  }

  /** The reference paths found in a node are exactly the paths that end in
      the reference key inside one of its arguments, led by that argument's
      key. */
  lemma FindNodeInputsExact(n: G.Node, link: string, p: Path)
    requires FindNodeInputs(n, link).Ok?
    ensures p in FindNodeInputs(n, link).value <==>
      exists j :: RefPath(G.Arguments(n).value.entries, link, j, p)
  {
    var args := G.Arguments(n).value.entries;
    if j :| RefPath(args, link, j, p) {
      InputsFromComplete(args, link, 0, j, p);
    }
  }

  /* ---------------------------------------------------------------------
     What the passes keep
     --------------------------------------------------------------------- */

  /** A node keeps everything but its content. */
  predicate Same(n: G.Node, n': G.Node) {
    n'.id == n.id && n'.name == n.name && n'.depth == n.depth && n'.keys == n.keys && n'.process == n.process
  }

  /** `g'` differs from `g` only in node contents and in edges appended to
      the edge lists, all between nodes of the arena. */
  ghost predicate Retouched(g: G.Graph, g': G.Graph) {
    g'.nodes.Keys == g.nodes.Keys &&
    (forall x | x in g.nodes :: Same(g.nodes[x], g'.nodes[x])) &&
    Extends(g.adj, g'.adj) && EndsIn(g'.adj, g.nodes.Keys)
  }

  /** The edges appended from `adj` to `adj'` are data edges. */
  ghost predicate DataAdded(adj: Adj, adj': Adj) {
    forall x, i | |EdgesOf(adj, x)| <= i < |EdgesOf(adj', x)| :: EdgesOf(adj', x)[i].name == "data"
  }

  lemma RetouchedTrans(g1: G.Graph, g2: G.Graph, g3: G.Graph)
    requires Retouched(g1, g2) && Retouched(g2, g3)
    ensures Retouched(g1, g3)
  {
  }

  lemma DataAddedTrans(a1: Adj, a2: Adj, a3: Adj)
    requires Extends(a1, a2) && Extends(a2, a3) && DataAdded(a1, a2) && DataAdded(a2, a3)
    ensures DataAdded(a1, a3)
  {
    forall x, i | |EdgesOf(a1, x)| <= i < |EdgesOf(a3, x)| ensures EdgesOf(a3, x)[i].name == "data" {
      assert Grows(EdgesOf(a1, x), EdgesOf(a2, x));
      if i >= |EdgesOf(a2, x)| {
      } else {
        assert EdgesOf(a3, x)[i] == EdgesOf(a2, x)[i];
      }
    }
  }

  /** Two passes that only append data edges make one. */
  lemma DataPassTrans(g1: G.Graph, g2: G.Graph, g3: G.Graph)
    requires Retouched(g1, g2) && DataAdded(g1.adj, g2.adj)
    requires Retouched(g2, g3) && DataAdded(g2.adj, g3.adj)
    ensures Retouched(g1, g3) && DataAdded(g1.adj, g3.adj)
  {
    RetouchedTrans(g1, g2, g3);
    DataAddedTrans(g1.adj, g2.adj, g3.adj);
  }

  /** A retouched arena with the same ids is as consistent as before. */
  lemma RetouchedWf(g: G.Graph, g': G.Graph)
    requires G.Wf(g) && Retouched(g, g') && g'.ids == g.ids
    ensures G.Wf(g')
  {
  }

  /** The arena restricted to an ordered selection of its ids. */
  lemma SelectionWf(g: G.Graph, xs: seq<string>)
    requires G.Wf(g) && NoDup(xs) && forall y | y in xs :: y in g.ids
    ensures G.Wf(G.Graph(xs, g.nodes, g.adj))
  {
  }

  /** Node `x` with new content. */
  function Recontent(g: G.Graph, x: string, c: Json): (r: G.Graph)
    requires x in g.nodes
    ensures r.ids == g.ids && r.adj == g.adj && r.nodes.Keys == g.nodes.Keys
    ensures r.nodes[x].content == c && Same(g.nodes[x], r.nodes[x])
    ensures forall y | y in g.nodes && y != x :: r.nodes[y] == g.nodes[y]
  {
    g.(nodes := g.nodes[x := g.nodes[x].(content := c)])
  }

  /** The stored arguments of node `x`, replaced. */
  function WithArguments(g: G.Graph, x: string, args: Json): (r: G.Graph)
    requires x in g.nodes && g.nodes[x].content.JObj?
    ensures r == Recontent(g, x, JObj(Put(g.nodes[x].content.entries, "arguments", args)))
    ensures Member(r.nodes[x].content, "arguments") == Ok(args)
  {
    Recontent(g, x, JObj(Put(g.nodes[x].content.entries, "arguments", args)))
  }

  /** A data edge between two nodes of the arena keeps the arena retouched. */
  lemma DataEdgeRetouched(g: G.Graph, src: string, dst: string, hidden: bool)
    requires G.Wf(g) && src in g.nodes && dst in g.nodes
    ensures Retouched(g, g.(adj := CreateEdge(g.adj, src, dst, "data", hidden)))
    ensures DataAdded(g.adj, CreateEdge(g.adj, src, dst, "data", hidden))
  {
    var adj': Adj := CreateEdge(g.adj, src, dst, "data", hidden);
    forall x: string, i: int | x in adj' && 0 <= i < |adj'[x]|
      ensures adj'[x][i].src in g.nodes && adj'[x][i].dst in g.nodes
    {
      assert EdgesOf(adj', x) == adj'[x];
      if i < |EdgesOf(g.adj, x)| {
        assert x in g.adj && adj'[x][i] == g.adj[x][i];
      }
    }
  }

  /* ---------------------------------------------------------------------
     adjust_from_nodes
     --------------------------------------------------------------------- */

  /** One `from_node` reference of node `x` at path `p` of its stored
      arguments, resolved among the nodes `peers` that share `x`'s enclosing
      node: a value that already is a node id stays; otherwise the first peer
      with that name replaces it and gets a data edge into `x`; a name no
      peer has is an error.  A list or dictionary there cannot be looked up
      among the ids at all. */
  function FromNodeRef(w: Version, g: G.Graph, peers: seq<string>, x: string, p: Path): (r: Result<G.Graph>)
    requires G.Wf(g) && x in g.nodes && NoDup(peers) && forall y | y in peers :: y in g.ids
    ensures r.Ok? ==> r.value.ids == g.ids && Retouched(g, r.value) && DataAdded(g.adj, r.value.adj)
  {
    var stored :- Member(g.nodes[x].content, "arguments");
    var data :- GetPath(stored, p);
    if data.JStr? && data.s in g.ids then Ok(g)
    else if data.JObj? || data.JArr? then Err(BadType)
    else
      SelectionWf(g, peers);
      var other := if data.JStr? then G.NodeByName(G.Graph(peers, g.nodes, g.adj), data.s) else None;
      if other.None? then Err(WrongFromNode)
      else
        var y := other.value;
        var stored' :- Write(w, stored, p, JStr(y));
        Ok(Rewire(g, x, stored', y, false))
  }

  /** Node `x` with new stored arguments and a data edge from `y` into it. */
  function Rewire(g: G.Graph, x: string, args: Json, y: string, hidden: bool): (r: G.Graph)
    requires G.Wf(g) && x in g.nodes && y in g.nodes && g.nodes[x].content.JObj?
    ensures r.ids == g.ids && Retouched(g, r) && DataAdded(g.adj, r.adj)
    ensures r.adj == CreateEdge(g.adj, y, x, "data", hidden)
    ensures r.nodes == WithArguments(g, x, args).nodes
  {
    var g1 := WithArguments(g, x, args);
    RecontentRetouched(g, x, JObj(Put(g.nodes[x].content.entries, "arguments", args)));
    DataEdgeRetouched(g1, y, x, hidden);
    var r := g1.(adj := CreateEdge(g1.adj, y, x, "data", hidden));
    RetouchedTrans(g, g1, r);
    r
  }

  /** New content for one node keeps the arena retouched and consistent. */
  lemma RecontentRetouched(g: G.Graph, x: string, c: Json)
    requires G.Wf(g) && x in g.nodes
    ensures Retouched(g, Recontent(g, x, c)) && G.Wf(Recontent(g, x, c))
  {
    var r := Recontent(g, x, c);
    assert Extends(g.adj, r.adj) by {
      forall y ensures Grows(EdgesOf(g.adj, y), EdgesOf(r.adj, y)) { }
    }
  }

  /** The value at path `p` of node `x`'s stored arguments. */
  function RefAt(g: G.Graph, x: string, p: Path): Result<Json>
    requires x in g.nodes
  {
    var stored :- Member(g.nodes[x].content, "arguments");
    GetPath(stored, p)
  }

  /** A reference that already holds a node id is left alone. */
  lemma FromNodeKeepsIds(w: Version, g: G.Graph, peers: seq<string>, x: string, p: Path)
    requires G.Wf(g) && x in g.nodes && NoDup(peers) && forall y | y in peers :: y in g.ids
    requires RefAt(g, x, p).Ok? && RefAt(g, x, p).value.JStr? && RefAt(g, x, p).value.s in g.ids
    ensures FromNodeRef(w, g, peers, x, p) == Ok(g)
  {
  }

  /** The conditions under which a `from_node` reference of `x` at `p` is
      resolved by name: a string below a dictionary key that is not yet a
      node id. */
  predicate Unresolved(g: G.Graph, peers: seq<string>, x: string, p: Path) {
    G.Wf(g) && x in g.nodes && NoDup(peers) && (forall y | y in peers :: y in g.ids) &&
    |p| > 0 && p[|p| - 1].KStr? && RefAt(g, x, p).Ok? && RefAt(g, x, p).value.JStr? &&
    RefAt(g, x, p).value.s !in g.ids
  }

  /** Resolving a name fails exactly when no peer has that name. */
  lemma FromNodeUnresolved(g: G.Graph, peers: seq<string>, x: string, p: Path)
    requires Unresolved(g, peers, x, p)
    ensures FromNodeRef(AsIntended, g, peers, x, p) == Err(WrongFromNode) <==>
      forall y | y in peers :: g.nodes[y].name != RefAt(g, x, p).value.s
  {
    var stored := Member(g.nodes[x].content, "arguments").value;
    ReadBelowKey(stored, p);
    SelectionWf(g, peers);
    var other := G.NodeByName(G.Graph(peers, g.nodes, g.adj), RefAt(g, x, p).value.s);
    if other.Some? {
      SetWhereReadable(stored, p, JStr(other.value));
    }
  }

  /** A resolved name: the reference now holds the id of the first peer with
      that name, and a data edge from that peer into `x` is listed on both. */
  lemma FromNodeBinds(g: G.Graph, peers: seq<string>, x: string, p: Path) returns (k: nat)
    requires Unresolved(g, peers, x, p) && FromNodeRef(AsIntended, g, peers, x, p).Ok?
    ensures k < |peers| && g.nodes[peers[k]].name == RefAt(g, x, p).value.s
    ensures forall t | 0 <= t < k :: g.nodes[peers[t]].name != RefAt(g, x, p).value.s
    ensures RefAt(FromNodeRef(AsIntended, g, peers, x, p).value, x, p) == Ok(JStr(peers[k]))
    ensures OnBothEnds(FromNodeRef(AsIntended, g, peers, x, p).value.adj, Edge(EdgeId(peers[k], x), "data", peers[k], x, false))
  {
    var stored := Member(g.nodes[x].content, "arguments").value;
    SelectionWf(g, peers);
    var y := G.NodeByName(G.Graph(peers, g.nodes, g.adj), RefAt(g, x, p).value.s).value;
    k := FirstIndex(peers, y);
    var stored' := SetPath(stored, p, JStr(y)).value;
    GetAfterSet(stored, p, JStr(y));
    var r := FromNodeRef(AsIntended, g, peers, x, p).value;
    assert Member(r.nodes[x].content, "arguments") == Ok(stored');
  }

  /** As written, resolving a name fails whenever the same-level ids are
      Python identifiers (their keys start with a letter or `_`): the node
      id is spliced as text and names an unbound variable. */
  lemma FromNodeAsWrittenFails(g: G.Graph, peers: seq<string>, x: string, p: Path)
    requires G.Wf(g) && Sorting.AllNumbered(g) && x in g.nodes && NoDup(peers)
    requires forall y | y in peers :: y in g.ids && IsIdentifier(y)
    requires RefAt(g, x, p).Ok? && RefAt(g, x, p).value.JStr? && RefAt(g, x, p).value.s !in g.ids
    requires exists y | y in peers :: g.nodes[y].name == RefAt(g, x, p).value.s
    ensures FromNodeRef(AsWritten, g, peers, x, p) == Err(UnboundName)
  {
    SelectionWf(g, peers);
    var y := G.NodeByName(G.Graph(peers, g.nodes, g.adj), RefAt(g, x, p).value.s).value;
    SpliceId(y);
  }

  /** Resolving a reference a second time changes nothing. */
  lemma FromNodeRerun(g: G.Graph, peers: seq<string>, x: string, p: Path)
    requires G.Wf(g) && x in g.nodes && NoDup(peers) && forall y | y in peers :: y in g.ids
    requires |p| > 0 && p[|p| - 1].KStr? && FromNodeRef(AsIntended, g, peers, x, p).Ok?
    ensures var g1 := FromNodeRef(AsIntended, g, peers, x, p).value;
      FromNodeRef(AsIntended, g1, peers, x, p) == Ok(g1)
  {
    var g1 := FromNodeRef(AsIntended, g, peers, x, p).value;
    RetouchedWf(g, g1);
    var data := RefAt(g, x, p).value;
    if !(data.JStr? && data.s in g.ids) {
      var k := FromNodeBinds(g, peers, x, p);
      assert g1.ids == g.ids && x in g1.nodes;
      FromNodeKeepsIds(AsIntended, g1, peers, x, p);
    }
  }

  /** The references `ps[i..]` of node `x`, in order. */
  function FromNodeRefs(w: Version, g: G.Graph, peers: seq<string>, x: string, ps: seq<Path>, i: nat): (r: Result<G.Graph>)
    requires G.Wf(g) && x in g.nodes && NoDup(peers) && (forall y | y in peers :: y in g.ids) && i <= |ps|
    ensures r.Ok? ==> G.Wf(r.value) && r.value.ids == g.ids && Retouched(g, r.value) && DataAdded(g.adj, r.value.adj)
    ensures r.Ok? ==> forall y | y in g.nodes && y != x :: r.value.nodes[y] == g.nodes[y]
    decreases |ps| - i
  {
    if i == |ps| then Ok(g)
    else
      var g1 :- FromNodeRef(w, g, peers, x, ps[i]);
      RetouchedWf(g, g1);
      var r :- FromNodeRefs(w, g1, peers, x, ps, i + 1);
      DataPassTrans(g, g1, r);
      Ok(r)
  }

  /** Resolving the reference at `p` leaves every path that parts ways with
      `p` as it was. */
  lemma FromNodeRefKeeps(w: Version, g: G.Graph, peers: seq<string>, x: string, p: Path, q: Path)
    requires G.Wf(g) && x in g.nodes && NoDup(peers) && (forall y | y in peers :: y in g.ids)
    requires FromNodeRef(w, g, peers, x, p).Ok? && Diverge(p, q)
    ensures RefAt(FromNodeRef(w, g, peers, x, p).value, x, q) == RefAt(g, x, q)
  {
    var stored := Member(g.nodes[x].content, "arguments").value;
    var data := GetPath(stored, p).value;
    if !(data.JStr? && data.s in g.ids) {
      SelectionWf(g, peers);
      var y := G.NodeByName(G.Graph(peers, g.nodes, g.adj), data.s).value;
      var v := if w.AsWritten? then Splice(JStr(y)).value else JStr(y);
      SetLeavesOthers(stored, p, v, q);
    }
  }

  /** Resolving `ps[i..]` leaves every path that parts ways with all of them
      as it was. */
  lemma {:induction false} FromNodeRefsKeep(w: Version, g: G.Graph, peers: seq<string>, x: string, ps: seq<Path>, i: nat, q: Path)
    requires G.Wf(g) && x in g.nodes && NoDup(peers) && (forall y | y in peers :: y in g.ids) && i <= |ps|
    requires FromNodeRefs(w, g, peers, x, ps, i).Ok? && forall k | i <= k < |ps| :: Diverge(ps[k], q)
    ensures RefAt(FromNodeRefs(w, g, peers, x, ps, i).value, x, q) == RefAt(g, x, q)
    decreases |ps| - i
  {
    if i < |ps| {
      var g1 := FromNodeRef(w, g, peers, x, ps[i]).value;
      FromNodeRefKeeps(w, g, peers, x, ps[i], q);
      RetouchedWf(g, g1);
      FromNodeRefsKeep(w, g1, peers, x, ps, i + 1, q);
    }
  }

  /** After the intended pass over a node's references that part ways and end
      in a dictionary key, every one of them holds a node id. */
  lemma {:induction false} FromNodeRefsBind(g: G.Graph, peers: seq<string>, x: string, ps: seq<Path>, i: nat)
    requires G.Wf(g) && x in g.nodes && NoDup(peers) && (forall y | y in peers :: y in g.ids) && i <= |ps|
    requires Independent(ps) && forall k | 0 <= k < |ps| :: |ps[k]| > 0 && ps[k][|ps[k]| - 1].KStr?
    requires FromNodeRefs(AsIntended, g, peers, x, ps, i).Ok?
    ensures forall k | i <= k < |ps| ::
      var v := RefAt(FromNodeRefs(AsIntended, g, peers, x, ps, i).value, x, ps[k]);
      v.Ok? && v.value.JStr? && v.value.s in g.ids
    decreases |ps| - i
  {
    if i < |ps| {
      var g1 := FromNodeRef(AsIntended, g, peers, x, ps[i]).value;
      RetouchedWf(g, g1);
      FromNodeRefsBind(g1, peers, x, ps, i + 1);
      FromNodeRefsKeep(AsIntended, g1, peers, x, ps, i + 1, ps[i]);
      var data := RefAt(g, x, ps[i]).value;
      if !(data.JStr? && data.s in g.ids) {
        var k := FromNodeBinds(g, peers, x, ps[i]);
      }
    }
  }

  /** `adjust_from_nodes` from the `i`-th node on: each node's `from_node`
      references are resolved among its partners along `callback` edges
      (the nodes with the same enclosing node, itself included). */
  function FromNodesFrom(w: Version, g: G.Graph, i: nat): (r: Result<G.Graph>)
    requires G.Wf(g) && i <= |g.ids|
    ensures r.Ok? ==> G.Wf(r.value) && r.value.ids == g.ids && Retouched(g, r.value) && DataAdded(g.adj, r.value.adj)
    ensures r.Ok? ==> forall t | 0 <= t < i :: r.value.nodes[g.ids[t]] == g.nodes[g.ids[t]]
    decreases |g.ids| - i
  {
    if i == |g.ids| then Ok(g)
    else
      var x := g.ids[i];
      assert forall t | 0 <= t < i :: g.ids[t] != x;
      var g1 :- FromNodesAt(w, g, x);
      var r :- FromNodesFrom(w, g1, i + 1);
      DataPassTrans(g, g1, r);
      Ok(r)
  }

  /** The `from_node` references of node `x`, looked up among the nodes on
      its level. */
  function FromNodesAt(w: Version, g: G.Graph, x: string): (r: Result<G.Graph>)
    requires G.Wf(g) && x in g.ids
    ensures r.Ok? ==> G.Wf(r.value) && r.value.ids == g.ids && Retouched(g, r.value) && DataAdded(g.adj, r.value.adj)
    ensures r.Ok? ==> forall y | y in g.nodes && y != x :: r.value.nodes[y] == g.nodes[y]
  {
    var partners :- G.FindPartners(g, x, Some("callback"), true);
    var ps :- FindNodeInputs(g.nodes[x], "from_node");
    FromNodeRefs(w, g, partners.ids, x, ps, 0)
  }

  /** `adjust_from_nodes`. */
  function AdjustFromNodes(w: Version, g: G.Graph): (r: Result<G.Graph>)
    requires G.Wf(g)
    ensures r.Ok? ==> G.Wf(r.value) && r.value.ids == g.ids && Retouched(g, r.value) && DataAdded(g.adj, r.value.adj)
  {
    FromNodesFrom(w, g, 0)
  }

  /* ---------------------------------------------------------------------
     adjust_from_parameters
     --------------------------------------------------------------------- */

  /** Python can look a value up among dictionary keys unless it is a list
      or a dictionary (those are unhashable). */
  predicate Hashable(v: Json) {
    !v.JArr? && !v.JObj?
  }

  /** What a `from_parameter` name is bound to: a sub-parameter the scope's
      process hands to its embedded graph (with its position among them), a
      parameter of the scope's process, a parameter definition given in the
      scope's arguments, or a globally defined value. */
  datatype Binding =
    | SubParameter(scope: string, index: nat, param: Parameter)
    | ProcessParameter(scope: string, param: Parameter)
    | LocalParameter(scope: string, definition: Json)
    | GlobalParameter(value: Json)

  /** The scope's process hands a sub-parameter of that name to its embedded
      graph. */
  predicate SubHas(p: Process, name: Json) {
    p.subParameters.Some? && name.JStr? && HasKey(p.subParameters.value, name.s)
  }

  /** The first of the definitions `defs[i..]` whose `name` equals `name`. */
  function LocalMatch(defs: seq<Json>, name: Json, i: nat): (r: Result<Option<Json>>)
    requires i <= |defs|
    ensures r.Ok? && r.value.Some? ==> exists k | i <= k < |defs| ::
      defs[k] == r.value.value && Member(defs[k], "name") == Ok(name) &&
      forall t | i <= t < k :: Member(defs[t], "name").Ok? && Member(defs[t], "name").value != name
    ensures r == Ok(None) <==> forall k | i <= k < |defs| :: Member(defs[k], "name").Ok? && Member(defs[k], "name").value != name
    decreases |defs| - i
  {
    if i == |defs| then Ok(None)
    else
      var n :- Member(defs[i], "name");
      if n == name then Ok(Some(defs[i])) else LocalMatch(defs, name, i + 1)
  }

  /** What scope `s` defines for `name`, asked in the source's order: the
      sub-parameters of its process, then the parameters of its process,
      then the parameter definitions in its own arguments.  A list or a
      dictionary as the name cannot be looked up. */
  function ScopeMatch(g: G.Graph, s: string, name: Json): (r: Result<Option<Binding>>)
    requires s in g.nodes
    ensures r.Ok? && r.value.Some? ==> !r.value.value.GlobalParameter? && r.value.value.scope == s
  {
    var process := g.nodes[s].process;
    if process.subParameters.Some? && !Hashable(name) then Err(BadType)
    else if SubHas(process, name) then
      var sub := process.subParameters.value;
      Ok(Some(SubParameter(s, IndexOf(sub, name.s), Get(sub, name.s).value)))
    else
      var declared :- Parameters(process);
      if !Hashable(name) then Err(BadType)
      else if name.JStr? && HasKey(declared.params, name.s) then
        Ok(Some(ProcessParameter(s, Get(declared.params, name.s).value)))
      else
        var defs :- G.NodeParameters(g.nodes[s]);
        var d :- LocalMatch(defs, name, 0);
        if d.Some? then Ok(Some(LocalParameter(s, d.value))) else Ok(None)
  }

  /** The scope's three sources are asked in order, and each answer is the
      entry filed under the name: a sub-parameter wins over a parameter of
      the process, which wins over a definition in the scope's arguments;
      no answer means none of the three has the name.  An unhashable name is
      an error. */
  lemma ScopeMatchOrder(g: G.Graph, s: string, name: Json)
    requires s in g.nodes
    ensures var r := ScopeMatch(g, s, name);
      (!Hashable(name) ==> r.Err?) &&
      (SubHas(g.nodes[s].process, name) ==>
        var sub := g.nodes[s].process.subParameters.value;
        r == Ok(Some(SubParameter(s, IndexOf(sub, name.s), Get(sub, name.s).value)))) &&
      (r.Ok? && r.value.Some? && r.value.value.SubParameter? ==> SubHas(g.nodes[s].process, name)) &&
      (r.Ok? && r.value.Some? && r.value.value.ProcessParameter? ==>
        !SubHas(g.nodes[s].process, name) && Parameters(g.nodes[s].process).Ok? &&
        name.JStr? && Get(Parameters(g.nodes[s].process).value.params, name.s) == Some(r.value.value.param)) &&
      (r.Ok? && r.value.Some? && r.value.value.LocalParameter? ==>
        !SubHas(g.nodes[s].process, name) && Parameters(g.nodes[s].process).Ok? &&
        !(name.JStr? && HasKey(Parameters(g.nodes[s].process).value.params, name.s)) &&
        G.NodeParameters(g.nodes[s]).Ok? && r.value.value.definition in G.NodeParameters(g.nodes[s]).value &&
        Member(r.value.value.definition, "name") == Ok(name)) &&
      (r == Ok(None) ==>
        !SubHas(g.nodes[s].process, name) && Parameters(g.nodes[s].process).Ok? &&
        !(name.JStr? && HasKey(Parameters(g.nodes[s].process).value.params, name.s)) &&
        G.NodeParameters(g.nodes[s]).Ok? &&
        forall d | d in G.NodeParameters(g.nodes[s]).value :: Member(d, "name").Ok? && Member(d, "name").value != name)
  {
    var process := g.nodes[s].process;
    if process.subParameters.Some? && !Hashable(name) {
    } else if SubHas(process, name) {
    } else if Parameters(process).Err? || !Hashable(name) {
    } else if name.JStr? && HasKey(Parameters(process).value.params, name.s) {
    } else if G.NodeParameters(g.nodes[s]).Err? {
    } else {
      var defs := G.NodeParameters(g.nodes[s]).value;
      assert ScopeMatch(g, s, name) == (
        var d :- LocalMatch(defs, name, 0);
        if d.Some? then Ok(Some(LocalParameter(s, d.value))) else Ok(None));
    }
  }

  /** The binding of `name` given what each enclosing scope defines for it
      (`answers`, nearest scope first): the first scope that defines it, or
      else the global table.  A scope's error ends the search, and the
      scopes after the first answer are never consulted. */
  function Lookup(answers: seq<Result<Option<Binding>>>, i: nat, name: Json, globals: Dict<Json, Json>): (r: Result<Binding>)
    requires i <= |answers| && ScopeAnswers(answers)
    ensures r.Ok? && !r.value.GlobalParameter? ==> exists k | i <= k < |answers| ::
      answers[k] == Ok(Some(r.value)) && forall t | i <= t < k :: answers[t] == Ok(None)
    ensures forall k | i <= k < |answers| && answers[k].Ok? && answers[k].value.Some? &&
      (forall t | i <= t < k :: answers[t] == Ok(None)) :: r == Ok(answers[k].value.value)
    ensures r.Ok? && r.value.GlobalParameter? ==>
      (forall t | i <= t < |answers| :: answers[t] == Ok(None)) && Get(globals, name) == Some(r.value.value)
    ensures (forall t | i <= t < |answers| :: answers[t] == Ok(None)) ==>
      r == (if !Hashable(name) then Err(BadType)
            else if Get(globals, name).Some? then Ok(GlobalParameter(Get(globals, name).value))
            else Err(UndefinedParameter))
    decreases |answers| - i
  {
    if i == |answers| then
      if !Hashable(name) then Err(BadType)
      else if Get(globals, name).Some? then Ok(GlobalParameter(Get(globals, name).value))
      else Err(UndefinedParameter)
    else
      var m :- answers[i];
      if m.Some? then Ok(m.value) else Lookup(answers, i + 1, name, globals)
  }

  /** Scopes bind names to their own parameters, never to global values. */
  predicate ScopeAnswers(answers: seq<Result<Option<Binding>>>) {
    forall k | 0 <= k < |answers| && answers[k].Ok? && answers[k].value.Some? :: !answers[k].value.value.GlobalParameter?
  }

  /** What each of `scopes` defines for `name`. */
  function Answers(g: G.Graph, scopes: seq<string>, name: Json): (r: seq<Result<Option<Binding>>>)
    requires forall y | y in scopes :: y in g.nodes
    ensures |r| == |scopes| && forall k | 0 <= k < |scopes| :: r[k] == ScopeMatch(g, scopes[k], name)
    ensures ScopeAnswers(r)
  {
    seq(|scopes|, k requires 0 <= k < |scopes| => ScopeMatch(g, scopes[k], name))
  }

  /** The argument that reads the outputs of `ids`: one object for a single
      node, a list of them otherwise. */
  function InputsArg(ids: seq<string>): (r: Json)
    ensures |ids| == 1 ==> r == FromNodeArg(ids[0])
    ensures |ids| != 1 ==> r.JArr? && |r.items| == |ids| && forall k | 0 <= k < |ids| :: r.items[k] == FromNodeArg(ids[k])
  {
    if |ids| == 1 then FromNodeArg(ids[0]) else JArr(seq(|ids|, k requires 0 <= k < |ids| => FromNodeArg(ids[k])))
  }

  /** The inputs a required sub-parameter reads: when the node has as many
      references as the scope has data inputs, the input at the
      sub-parameter's position (an IndexError past the end); otherwise all
      of them. */
  function Chosen(rels: seq<string>, index: nat, refs: nat): (r: Result<seq<string>>)
    ensures refs != |rels| ==> r == Ok(rels)
    ensures refs == |rels| ==> (r.Ok? <==> index < |rels|)
    ensures refs == |rels| && r.Ok? ==> r.value == [rels[index]]
  {
    if refs == |rels| then
      var y :- PyIndex(rels, index);
      Ok([y])
    else Ok(rels)
  }

  /** Data edges from each of `ys[i..]` into `x`, in order. */
  function AddInputs(g: G.Graph, ys: seq<string>, x: string, i: nat): (r: G.Graph)
    requires G.Wf(g) && x in g.nodes && i <= |ys| && forall y | y in ys :: y in g.nodes
    ensures G.Wf(r) && r.ids == g.ids && r.nodes == g.nodes
    ensures Retouched(g, r) && DataAdded(g.adj, r.adj)
    ensures forall k | i <= k < |ys| :: OnBothEnds(r.adj, Edge(EdgeId(ys[k], x), "data", ys[k], x, false))
    decreases |ys| - i
  {
    if i == |ys| then g
    else
      var g1 := AddInput(g, ys[i], x);
      var r := AddInputs(g1, ys, x, i + 1);
      AddInputsStep(g, g1, r, ys, x, i);
      r
  }

  /** The edge added first stays listed while the later ones are added. */
  lemma AddInputsStep(g: G.Graph, g1: G.Graph, r: G.Graph, ys: seq<string>, x: string, i: nat)
    requires i < |ys|
    requires Retouched(g, g1) && DataAdded(g.adj, g1.adj)
    requires OnBothEnds(g1.adj, Edge(EdgeId(ys[i], x), "data", ys[i], x, false))
    requires Retouched(g1, r) && DataAdded(g1.adj, r.adj)
    requires forall k | i + 1 <= k < |ys| :: OnBothEnds(r.adj, Edge(EdgeId(ys[k], x), "data", ys[k], x, false))
    ensures Retouched(g, r) && DataAdded(g.adj, r.adj)
    ensures forall k | i <= k < |ys| :: OnBothEnds(r.adj, Edge(EdgeId(ys[k], x), "data", ys[k], x, false))
  {
    DataPassTrans(g, g1, r);
    OnBothEndsGrows(g1.adj, r.adj, Edge(EdgeId(ys[i], x), "data", ys[i], x, false));
  }

  /** One data edge from `y` into `x`. */
  function AddInput(g: G.Graph, y: string, x: string): (r: G.Graph)
    requires G.Wf(g) && x in g.nodes && y in g.nodes
    ensures G.Wf(r) && r.ids == g.ids && r.nodes == g.nodes
    ensures Retouched(g, r) && DataAdded(g.adj, r.adj)
    ensures OnBothEnds(r.adj, Edge(EdgeId(y, x), "data", y, x, false))
  {
    var r := g.(adj := CreateEdge(g.adj, y, x, "data", false));
    DataEdgeRetouched(g, y, x, false);
    RetouchedWf(g, r);
    r
  }

  /** The value a binding stands for when it is not a required
      sub-parameter: the parameter's default, or the global value. */
  function Stated(b: Binding): (r: Result<Json>)
    ensures b.GlobalParameter? ==> r == Ok(b.value)
    ensures b.SubParameter? || b.ProcessParameter? ==> r == DefaultValue(b.param)
    ensures b.LocalParameter? ==> r == DefaultValue(Parameter(b.definition, false))
  {
    match b
    case SubParameter(_, _, param) => DefaultValue(param)
    case ProcessParameter(_, param) => DefaultValue(param)
    case LocalParameter(_, d) => DefaultValue(Parameter(d, false))
    case GlobalParameter(v) => Ok(v)
  }

  /** Stores what binding `b` stands for in place of the dictionary holding
      the reference at `p` in node `x`'s stored arguments: a required
      sub-parameter becomes a `from_node` argument, anything else its value. */
  function Bind(w: Version, g: G.Graph, x: string, p: Path, b: Binding, refs: nat): (r: Result<G.Graph>)
    requires G.Wf(g) && x in g.nodes && |p| > 0 && (b.SubParameter? ==> b.scope in g.nodes)
    ensures r.Ok? ==> G.Wf(r.value) && r.value.ids == g.ids && Retouched(g, r.value) && DataAdded(g.adj, r.value.adj)
    ensures r.Ok? ==> forall y | y in g.nodes && y != x :: r.value.nodes[y] == g.nodes[y]
  {
    var stored :- Member(g.nodes[x].content, "arguments");
    if b.SubParameter? && b.param.isRequired then BindInputs(w, g, x, stored, p[..|p| - 1], b.scope, b.index, refs)
    else
      var v :- Stated(b);
      Store(w, g, x, stored, p[..|p| - 1], v)
  }

  /** Node `x`'s stored arguments `stored` with `v` written at `q`. */
  function Store(w: Version, g: G.Graph, x: string, stored: Json, q: Path, v: Json): (r: Result<G.Graph>)
    requires G.Wf(g) && x in g.nodes && g.nodes[x].content.JObj?
    ensures r.Ok? <==> Write(w, stored, q, v).Ok?
    ensures r.Ok? ==> r.value == WithArguments(g, x, Write(w, stored, q, v).value)
    ensures r.Ok? ==> G.Wf(r.value) && r.value.ids == g.ids && Retouched(g, r.value) && DataAdded(g.adj, r.value.adj)
    ensures r.Ok? ==> forall y | y in g.nodes && y != x :: r.value.nodes[y] == g.nodes[y]
  {
    var stored' :- Write(w, stored, q, v);
    Ok(WithArguments(g, x, stored'))
  }

  /** A required sub-parameter of `scope`: a `from_node` argument on the
      scope itself, with a hidden data edge from it, when the scope has no
      data inputs; otherwise on the chosen inputs of the scope, with a data
      edge from each. */
  function BindInputs(w: Version, g: G.Graph, x: string, stored: Json, q: Path, scope: string, index: nat, refs: nat): (r: Result<G.Graph>)
    requires G.Wf(g) && x in g.nodes && scope in g.nodes && g.nodes[x].content.JObj?
    ensures r.Ok? ==> G.Wf(r.value) && r.value.ids == g.ids && Retouched(g, r.value) && DataAdded(g.adj, r.value.adj)
    ensures r.Ok? ==> forall y | y in g.nodes && y != x :: r.value.nodes[y] == g.nodes[y]
  {
    var rels := G.Relatives(g.adj, scope, Some("data"), true);
    if |rels| == 0 then
      var stored' :- Write(w, stored, q, FromNodeArg(scope));
      var r := Rewire(g, x, stored', scope, true);
      RetouchedWf(g, r);
      Ok(r)
    else
      var chosen :- Chosen(rels, index, refs);
      var g1 :- Store(w, g, x, stored, q, InputsArg(chosen));
      G.RelativesInNodes(g, scope, Some("data"), true);
      var r := AddInputs(g1, chosen, x, 0);
      DataPassTrans(g, g1, r);
      Ok(r)
  }

  /** The dictionary that holds a reference key can be replaced, and reads
      back as the replacement. */
  lemma ReplaceHolder(obj: Json, p: Path, v: Json)
    requires |p| >= 2 && p[|p| - 1].KStr? && GetPath(obj, p).Ok?
    ensures SetPath(obj, p[..|p| - 1], v).Ok?
    ensures GetPath(SetPath(obj, p[..|p| - 1], v).value, p[..|p| - 1]) == Ok(v)
  {
    var q := p[..|p| - 1];
    ReadBelowKey(obj, p);
    ReadContainer(obj, q);
    SetWhereReadable(obj, q, v);
    GetAfterSet(obj, q, v);
  }

  /** A default or global value replaces the dictionary that held the
      reference. */
  lemma BindValueStored(g: G.Graph, x: string, p: Path, b: Binding, refs: nat)
    requires G.Wf(g) && x in g.nodes && (b.SubParameter? ==> b.scope in g.nodes)
    requires |p| >= 2 && p[|p| - 1].KStr? && RefAt(g, x, p).Ok?
    requires !(b.SubParameter? && b.param.isRequired) && Stated(b).Ok?
    ensures Bind(AsIntended, g, x, p, b, refs).Ok?
    ensures RefAt(Bind(AsIntended, g, x, p, b, refs).value, x, p[..|p| - 1]) == Ok(Stated(b).value)
    ensures Bind(AsIntended, g, x, p, b, refs).value.adj == g.adj
  {
    ReplaceHolder(Member(g.nodes[x].content, "arguments").value, p, Stated(b).value);
  }

  /** A required sub-parameter of a scope without data inputs reads the
      scope itself, over a hidden data edge from the scope. */
  lemma BindScopeItself(g: G.Graph, x: string, p: Path, b: Binding, refs: nat)
    requires G.Wf(g) && x in g.nodes && b.SubParameter? && b.scope in g.nodes && b.param.isRequired
    requires |p| >= 2 && p[|p| - 1].KStr? && RefAt(g, x, p).Ok?
    requires |G.Relatives(g.adj, b.scope, Some("data"), true)| == 0
    ensures Bind(AsIntended, g, x, p, b, refs).Ok?
    ensures RefAt(Bind(AsIntended, g, x, p, b, refs).value, x, p[..|p| - 1]) == Ok(FromNodeArg(b.scope))
    ensures OnBothEnds(Bind(AsIntended, g, x, p, b, refs).value.adj, Edge(EdgeId(b.scope, x), "data", b.scope, x, true))
  {
    ReplaceHolder(Member(g.nodes[x].content, "arguments").value, p, FromNodeArg(b.scope));
  }

  /** A required sub-parameter of a scope with data inputs reads the chosen
      inputs (one object for one input, a list otherwise), each over a data
      edge into the node. */
  lemma BindScopeInputs(g: G.Graph, x: string, p: Path, b: Binding, refs: nat)
    requires G.Wf(g) && x in g.nodes && b.SubParameter? && b.scope in g.nodes && b.param.isRequired
    requires |p| >= 2 && p[|p| - 1].KStr? && RefAt(g, x, p).Ok?
    requires |G.Relatives(g.adj, b.scope, Some("data"), true)| > 0
    requires Chosen(G.Relatives(g.adj, b.scope, Some("data"), true), b.index, refs).Ok?
    ensures var chosen := Chosen(G.Relatives(g.adj, b.scope, Some("data"), true), b.index, refs).value;
      Bind(AsIntended, g, x, p, b, refs).Ok? &&
      RefAt(Bind(AsIntended, g, x, p, b, refs).value, x, p[..|p| - 1]) == Ok(InputsArg(chosen)) &&
      forall y | y in chosen :: OnBothEnds(Bind(AsIntended, g, x, p, b, refs).value.adj, Edge(EdgeId(y, x), "data", y, x, false))
  {
    var chosen := Chosen(G.Relatives(g.adj, b.scope, Some("data"), true), b.index, refs).value;
    ReplaceHolder(Member(g.nodes[x].content, "arguments").value, p, InputsArg(chosen));
    forall y | y in chosen ensures exists k | 0 <= k < |chosen| :: chosen[k] == y {
      var k :| 0 <= k < |chosen| && chosen[k] == y;
    }
  }

  /** As written, a default or global value that is a string reading as a
      name bound nowhere is spliced as text and raises NameError. */
  lemma BindAsWrittenRejectsText(g: G.Graph, x: string, p: Path, b: Binding, refs: nat, t: string)
    requires G.Wf(g) && x in g.nodes && (b.SubParameter? ==> b.scope in g.nodes) && |p| > 0
    requires Member(g.nodes[x].content, "arguments").Ok?
    requires !(b.SubParameter? && b.param.isRequired) && Stated(b) == Ok(JStr(t))
    requires IsUnboundName(t)
    ensures Bind(AsWritten, g, x, p, b, refs) == Err(UnboundName)
  {
  }

  /** One `from_parameter` reference of node `x` at path `p`: the name
      stored there is looked up through the enclosing scopes (nearest
      first, along `callback` edges) and then in the global table, and the
      binding replaces the dictionary that held the reference.  `refs` is
      the node's number of `from_parameter` references. */
  function FromParameterRef(w: Version, g: G.Graph, globals: Dict<Json, Json>, x: string, p: Path, refs: nat): (r: Result<G.Graph>)
    requires G.Wf(g) && x in g.nodes && |p| > 0
    ensures r.Ok? ==> G.Wf(r.value) && r.value.ids == g.ids && Retouched(g, r.value) && DataAdded(g.adj, r.value.adj)
    ensures r.Ok? ==> forall y | y in g.nodes && y != x :: r.value.nodes[y] == g.nodes[y]
  {
    var name :- RefAt(g, x, p);
    var scopes :- Scopes(g, x);
    G.LineageWf(g, x, Some("callback"), false, false);
    var answers := Answers(g, scopes.ids, name);
    var b :- Lookup(answers, 0, name, globals);
    assert b.SubParameter? ==> b.scope in g.nodes by {
      if b.SubParameter? {
        var k :| 0 <= k < |answers| && answers[k] == Ok(Some(b));
      }
    }
    Bind(w, g, x, p, b, refs)
  }

  /** The enclosing scopes of node `x`, nearest first. */
  function Scopes(g: G.Graph, x: string): Result<G.Graph> {
    G.Lineage(g, x, Some("callback"), false, false)
  }

  /** A name that no enclosing scope defines and the global table lacks is
      an error. */
  lemma FromParameterUndefined(w: Version, g: G.Graph, globals: Dict<Json, Json>, x: string, p: Path, refs: nat)
    requires G.Wf(g) && x in g.nodes && |p| > 0
    requires RefAt(g, x, p).Ok? && Hashable(RefAt(g, x, p).value) && Scopes(g, x).Ok?
    requires forall y | y in Scopes(g, x).value.ids && y in g.nodes :: ScopeMatch(g, y, RefAt(g, x, p).value) == Ok(None)
    requires Get(globals, RefAt(g, x, p).value).None?
    ensures FromParameterRef(w, g, globals, x, p, refs) == Err(UndefinedParameter)
  {
    NoScopeLookup(w, g, globals, x, p, refs);
  }

  /** With no enclosing scope defining the name, the lookup falls through
      to the global table. */
  lemma NoScopeLookup(w: Version, g: G.Graph, globals: Dict<Json, Json>, x: string, p: Path, refs: nat)
    requires G.Wf(g) && x in g.nodes && |p| > 0
    requires RefAt(g, x, p).Ok? && Hashable(RefAt(g, x, p).value) && Scopes(g, x).Ok?
    requires forall y | y in Scopes(g, x).value.ids && y in g.nodes :: ScopeMatch(g, y, RefAt(g, x, p).value) == Ok(None)
    ensures Get(globals, RefAt(g, x, p).value).None? ==> FromParameterRef(w, g, globals, x, p, refs) == Err(UndefinedParameter)
    ensures Get(globals, RefAt(g, x, p).value).Some? ==>
      FromParameterRef(w, g, globals, x, p, refs) ==
        Bind(w, g, x, p, GlobalParameter(Get(globals, RefAt(g, x, p).value).value), refs)
  {
    G.LineageWf(g, x, Some("callback"), false, false);
    var name := RefAt(g, x, p).value;
    var ids := Scopes(g, x).value.ids;
    var answers := Answers(g, ids, name);
    forall t | 0 <= t < |answers| ensures answers[t] == Ok(None) {
      assert ids[t] in ids;
    }
    assert Lookup(answers, 0, name, globals) ==
      (if Get(globals, name).Some? then Ok(GlobalParameter(Get(globals, name).value)) else Err(UndefinedParameter));
  }

  /** A name that no enclosing scope defines takes its global value. */
  lemma FromParameterGlobal(g: G.Graph, globals: Dict<Json, Json>, x: string, p: Path, refs: nat)
    requires G.Wf(g) && x in g.nodes && |p| >= 2 && p[|p| - 1].KStr?
    requires RefAt(g, x, p).Ok? && Hashable(RefAt(g, x, p).value) && Scopes(g, x).Ok?
    requires forall y | y in Scopes(g, x).value.ids && y in g.nodes :: ScopeMatch(g, y, RefAt(g, x, p).value) == Ok(None)
    requires Get(globals, RefAt(g, x, p).value).Some?
    ensures FromParameterRef(AsIntended, g, globals, x, p, refs).Ok?
    ensures RefAt(FromParameterRef(AsIntended, g, globals, x, p, refs).value, x, p[..|p| - 1]) ==
      Ok(Get(globals, RefAt(g, x, p).value).value)
  {
    NoScopeLookup(AsIntended, g, globals, x, p, refs);
    BindValueStored(g, x, p, GlobalParameter(Get(globals, RefAt(g, x, p).value).value), refs);
  }

  /** The nearest scope that defines the name decides its binding, whatever
      the scopes beyond it or the global table say. */
  lemma FromParameterNearest(w: Version, g: G.Graph, globals: Dict<Json, Json>, x: string, p: Path, refs: nat, k: nat)
    requires G.Wf(g) && x in g.nodes && |p| > 0
    requires RefAt(g, x, p).Ok? && Scopes(g, x).Ok? && k < |Scopes(g, x).value.ids|
    requires forall t | 0 <= t < |Scopes(g, x).value.ids| :: Scopes(g, x).value.ids[t] in g.nodes
    requires forall t | 0 <= t < k :: ScopeMatch(g, Scopes(g, x).value.ids[t], RefAt(g, x, p).value) == Ok(None)
    requires ScopeMatch(g, Scopes(g, x).value.ids[k], RefAt(g, x, p).value).Ok?
    requires ScopeMatch(g, Scopes(g, x).value.ids[k], RefAt(g, x, p).value).value.Some?
    ensures FromParameterRef(w, g, globals, x, p, refs) ==
      Bind(w, g, x, p, ScopeMatch(g, Scopes(g, x).value.ids[k], RefAt(g, x, p).value).value.value, refs)
  {
    G.LineageWf(g, x, Some("callback"), false, false);
    var name := RefAt(g, x, p).value;
    var ids := Scopes(g, x).value.ids;
    var answers := Answers(g, ids, name);
    assert answers[k] == ScopeMatch(g, ids[k], name);
    assert forall t | 0 <= t < k :: answers[t] == Ok(None);
    assert Lookup(answers, 0, name, globals) == Ok(answers[k].value.value);
  }

  /** The references `ps[i..]` of node `x`, in order; `|ps|` is the number
      of references the node has. */
  function FromParameterRefs(w: Version, g: G.Graph, globals: Dict<Json, Json>, x: string, ps: seq<Path>, i: nat): (r: Result<G.Graph>)
    requires G.Wf(g) && x in g.nodes && i <= |ps| && forall k | 0 <= k < |ps| :: |ps[k]| > 0
    ensures r.Ok? ==> G.Wf(r.value) && r.value.ids == g.ids && Retouched(g, r.value) && DataAdded(g.adj, r.value.adj)
    ensures r.Ok? ==> forall y | y in g.nodes && y != x :: r.value.nodes[y] == g.nodes[y]
    decreases |ps| - i
  {
    if i == |ps| then Ok(g)
    else
      var g1 :- FromParameterRef(w, g, globals, x, ps[i], |ps|);
      var r :- FromParameterRefs(w, g1, globals, x, ps, i + 1);
      DataPassTrans(g, g1, r);
      Ok(r)
  }

  /** `adjust_from_parameters` from the `i`-th node on. */
  function FromParametersFrom(w: Version, g: G.Graph, globals: Dict<Json, Json>, i: nat): (r: Result<G.Graph>)
    requires G.Wf(g) && i <= |g.ids|
    ensures r.Ok? ==> G.Wf(r.value) && r.value.ids == g.ids && Retouched(g, r.value) && DataAdded(g.adj, r.value.adj)
    ensures r.Ok? ==> forall t | 0 <= t < i :: r.value.nodes[g.ids[t]] == g.nodes[g.ids[t]]
    decreases |g.ids| - i
  {
    if i == |g.ids| then Ok(g)
    else
      var x := g.ids[i];
      var ps :- FindNodeInputs(g.nodes[x], "from_parameter");
      FoundPathsNonEmpty(g.nodes[x], "from_parameter");
      assert forall t | 0 <= t < i :: g.ids[t] != x;
      var g1 :- FromParameterRefs(w, g, globals, x, ps, 0);
      var r :- FromParametersFrom(w, g1, globals, i + 1);
      DataPassTrans(g, g1, r);
      Ok(r)
  }

  /** Every reference path found in a node starts at an argument key. */
  lemma FoundPathsNonEmpty(n: G.Node, link: string)
    requires FindNodeInputs(n, link).Ok?
    ensures forall k | 0 <= k < |FindNodeInputs(n, link).value| :: |FindNodeInputs(n, link).value[k]| > 0
  {
    var ps := FindNodeInputs(n, link).value;
    forall k | 0 <= k < |ps| ensures |ps[k]| > 0 {
      assert ps[k] in ps;
    }
  }


  /** `adjust_from_parameters`: the graph is first sorted by depth, so that
      enclosing nodes are completed before the nodes they embed, and comes
      back in that order. */
  function AdjustFromParameters(w: Version, g: G.Graph, globals: Dict<Json, Json>): (r: Result<G.Graph>)
    requires G.Wf(g)
    ensures r.Ok? ==> G.Wf(r.value) && Perm(r.value.ids, g.ids) && Sorting.DepthSorted(g, r.value.ids)
    ensures r.Ok? ==> Retouched(g, r.value) && DataAdded(g.adj, r.value.adj)
  {
    var sorted :- Sorting.Sort(g, "depth");
    PermNoDup(g.ids, sorted.ids);
    FromParametersFrom(w, sorted, globals, 0)
  }

  /* ---------------------------------------------------------------------
     adjust_callbacks
     --------------------------------------------------------------------- */

  /** The node a callback edge of `x` leads to lies in the arena. */
  lemma ParentInNodes(g: G.Graph, x: string)
    requires G.Wf(g) && G.ParentProcess(g.adj, x).Ok? && G.ParentProcess(g.adj, x).value.Some?
    ensures G.ParentProcess(g.adj, x).value.value in g.nodes
  {
    var e :| e in EdgesOf(g.adj, x) && G.Links(e, x, Some("callback"), false);
    var i :| 0 <= i < |g.adj[x]| && g.adj[x][i] == e;
  }

  /** A result node of an embedded process graph: the dictionary of its
      enclosing node, at the keys between the enclosing node's own keys and
      the last two (`process_graph` and the node's key), is replaced by a
      `from_node` argument on the result node. */
  function Callback(w: Version, g: G.Graph, x: string): (r: Result<G.Graph>)
    requires G.Wf(g) && x in g.nodes
    ensures r.Ok? ==> r.value.ids == g.ids && r.value.adj == g.adj && Retouched(g, r.value)
    ensures !G.IsResult(g.nodes[x]) ==> r == Ok(g)
    ensures G.ParentProcess(g.adj, x) == Ok(None) ==> r == Ok(g)
  {
    if !G.IsResult(g.nodes[x]) then Ok(g)
    else
      var up :- G.ParentProcess(g.adj, x);
      if up.None? then Ok(g)
      else
        ParentInNodes(g, x);
        var u := up.value;
        var keys := PySlice(g.nodes[x].keys, |g.nodes[u].keys|, -2);
        var c :- Write(w, g.nodes[u].content, StrPath(keys), FromNodeArg(x));
        Ok(Recontent(g, u, c))
  }

  /** With the key path of a nested node, which extends its enclosing
      node's keys by the keys to the embedded graph and two more, the
      embedded graph's holder in the enclosing node now reads the result
      node; every other node is as it was. */
  lemma CallbackStored(w: Version, g: G.Graph, x: string, u: string, mid: seq<string>, tail: seq<string>)
    requires G.Wf(g) && x in g.nodes && G.IsResult(g.nodes[x]) && G.ParentProcess(g.adj, x) == Ok(Some(u))
    requires u in g.nodes && g.nodes[x].keys == g.nodes[u].keys + mid + tail && |tail| == 2
    requires |mid| > 0 && GetPath(g.nodes[u].content, StrPath(mid)).Ok?
    ensures Callback(w, g, x).Ok?
    ensures GetPath(Callback(w, g, x).value.nodes[u].content, StrPath(mid)) == Ok(FromNodeArg(x))
    ensures forall y | y in g.nodes && y != u :: Callback(w, g, x).value.nodes[y] == g.nodes[y]
  {
    SliceDropsPrefixAndTail(g.nodes[u].keys, mid, tail);
    var c := g.nodes[u].content;
    var p := StrPath(mid);
    ReadBelowKey(c, p);
    SetWhereReadable(c, p, FromNodeArg(x));
    GetAfterSet(c, p, FromNodeArg(x));
  }

  /** `adjust_callbacks` from the `i`-th node on. */
  function CallbacksFrom(w: Version, g: G.Graph, i: nat): (r: Result<G.Graph>)
    requires G.Wf(g) && i <= |g.ids|
    ensures r.Ok? ==> G.Wf(r.value) && r.value.ids == g.ids && r.value.adj == g.adj && Retouched(g, r.value)
    decreases |g.ids| - i
  {
    if i == |g.ids| then Ok(g)
    else
      var g1 :- Callback(w, g, g.ids[i]);
      RetouchedWf(g, g1);
      var r := CallbacksFrom(w, g1, i + 1);
      if r.Ok? then
        RetouchedTrans(g, g1, r.value);
        r
      else r
  }

  /** `adjust_callbacks`. */
  function AdjustCallbacks(w: Version, g: G.Graph): (r: Result<G.Graph>)
    requires G.Wf(g)
    ensures r.Ok? ==> G.Wf(r.value) && r.value.ids == g.ids && r.value.adj == g.adj && Retouched(g, r.value)
  {
    CallbacksFrom(w, g, 0)
  }

  /** A node that is not a result of an embedded graph leaves every node as
      it was. */
  lemma CallbacksSkip(w: Version, g: G.Graph, x: string)
    requires G.Wf(g) && x in g.nodes
    requires !G.IsResult(g.nodes[x]) || G.ParentProcess(g.adj, x) == Ok(None)
    ensures Callback(w, g, x) == Ok(g)
  {
  }

  /* ---------------------------------------------------------------------
     link_nodes and translate_process_graph
     --------------------------------------------------------------------- */

  /** Retouching keeps every node's depth, so depth order carries over. */
  lemma RetouchedDepths(g: G.Graph, g': G.Graph, s: seq<string>)
    requires Retouched(g, g')
    ensures Sorting.DepthSorted(g', s) <==> Sorting.DepthSorted(g, s)
  {
    assert forall y :: Sorting.Depth(g', y) == Sorting.Depth(g, y);
  }

  /** The `from_node` pass followed by an edge update. */
  function LinkData(w: Version, g: G.Graph): (r: Result<G.Graph>)
    requires G.Wf(g)
    ensures r.Ok? ==> G.Wf(r.value) && r.value.ids == g.ids && Retouched(g, r.value)
  {
    var g1 :- AdjustFromNodes(w, g);
    G.UpdateWf(g1);
    var g2 := G.Update(g1);
    RetouchedTrans(g, g1, g2);
    Ok(g2)
  }

  /** The `from_parameter` pass followed by an edge update. */
  function LinkParameters(w: Version, g: G.Graph, globals: Dict<Json, Json>): (r: Result<G.Graph>)
    requires G.Wf(g)
    ensures r.Ok? ==> G.Wf(r.value) && Perm(r.value.ids, g.ids) && Sorting.DepthSorted(g, r.value.ids)
    ensures r.Ok? ==> Retouched(g, r.value)
  {
    var g1 :- AdjustFromParameters(w, g, globals);
    UpdateRetouched(g1);
    RetouchedTrans(g, g1, G.Update(g1));
    Ok(G.Update(g1))
  }

  /** The edge update keeps the arena consistent and only appends edges. */
  lemma UpdateRetouched(g: G.Graph)
    requires G.Wf(g)
    ensures G.Wf(G.Update(g)) && Retouched(g, G.Update(g)) && G.Update(g).ids == g.ids
  {
    G.UpdateWf(g);
  }

  /** `link_nodes`: `from_node` references, an edge update, `from_parameter`
      references (which sort the graph by depth), another edge update, and
      the callbacks.  The linked graph lists the same nodes, by depth. */
  function LinkNodes(w: Version, g: G.Graph, globals: Dict<Json, Json>): (r: Result<G.Graph>)
    requires G.Wf(g)
    ensures r.Ok? ==> G.Wf(r.value) && Perm(r.value.ids, g.ids) && Sorting.DepthSorted(g, r.value.ids)
    ensures r.Ok? ==> Retouched(g, r.value)
  {
    var g1 :- LinkData(w, g);
    var g2 :- LinkParameters(w, g1, globals);
    var r :- AdjustCallbacks(w, g2);
    RetouchedTrans(g, g1, g2);
    RetouchedTrans(g, g2, r);
    RetouchedDepths(g, g1, g2.ids);
    Ok(r)
  }

  /** The name and default of each of `defs[i..]`, written over `acc` in
      order. */
  function Declare(defs: seq<Json>, i: nat, acc: Dict<Json, Json>): (r: Result<Dict<Json, Json>>)
    requires i <= |defs|
    ensures r.Ok? ==> forall k | i <= k < |defs| :: Declarable(defs[k])
    decreases |defs| - i
  {
    if i == |defs| then Ok(acc)
    else
      var name :- Member(defs[i], "name");
      // a definition with a name is a dictionary, so it has a default
      var d := DefaultValue(Parameter(defs[i], false)).value;
      if !Hashable(name) then Err(BadType)
      else Declare(defs, i + 1, Put(acc, name, d))
  }

  /** A parameter definition with a hashable name, and so with a default. */
  predicate Declarable(d: Json) {
    Member(d, "name").Ok? && Hashable(Member(d, "name").value) && DefaultValue(Parameter(d, false)).Ok?
  }

  /** A name the definitions do not declare keeps its global value. */
  lemma {:induction false} DeclareKeeps(defs: seq<Json>, i: nat, acc: Dict<Json, Json>, v: Json)
    requires i <= |defs| && Declare(defs, i, acc).Ok?
    requires forall k | i <= k < |defs| :: Member(defs[k], "name") != Ok(v)
    ensures Get(Declare(defs, i, acc).value, v) == Get(acc, v)
    decreases |defs| - i
  {
    if i < |defs| {
      var name := Member(defs[i], "name").value;
      var d := DefaultValue(Parameter(defs[i], false)).value;
      DeclareKeeps(defs, i + 1, Put(acc, name, d), v);
    }
  }

  /** A declared name takes the default of its last definition, whatever
      the globals held. */
  lemma {:induction false} DeclareLastWins(defs: seq<Json>, i: nat, acc: Dict<Json, Json>, k: nat)
    requires i <= k < |defs| && Declare(defs, i, acc).Ok?
    requires forall t | k < t < |defs| :: Member(defs[t], "name") != Member(defs[k], "name")
    ensures Get(Declare(defs, i, acc).value, Member(defs[k], "name").value) == Some(DefaultValue(Parameter(defs[k], false)).value)
    decreases |defs| - i
  {
    var name := Member(defs[i], "name").value;
    var d := DefaultValue(Parameter(defs[i], false)).value;
    if i < k {
      DeclareLastWins(defs, i + 1, Put(acc, name, d), k);
    } else {
      DeclareKeeps(defs, i + 1, Put(acc, name, d), name);
    }
  }

  /** The global table a document sees: the given globals, overridden by
      the default of each parameter the document declares. */
  function DocumentParameters(doc: Json, globals: Dict<Json, Json>): (r: Result<Dict<Json, Json>>)
    requires doc.JObj?
    ensures !HasField(doc, "parameters") ==> r == Ok(globals)
  {
    if !HasField(doc, "parameters") then Ok(globals)
    else
      var defs :- Iter(Field(doc, "parameters").value);
      Declare(defs, 0, globals)
  }

  /** The walked nodes as a graph, in creation order. */
  function ToGraph(b: Walk.Build): G.Graph {
    G.Graph(b.order, b.nodes, b.adj)
  }

  /** The walk's nodes form a consistent graph whose ids all end in a digit. */
  lemma WalkedWf(pg: Json, catalog: Catalog, b: Walk.Build)
    requires Walk.Inv(pg, catalog, b)
    ensures G.Wf(ToGraph(b)) && Sorting.AllNumbered(ToGraph(b))
  {
    forall x | x in b.nodes ensures b.nodes[x].id == x && Sorting.Numbered(x) {
      assert Walk.NodeOk(pg, catalog, b, x);
      var n :| 0 <= n < |b.order| && b.order[n] == x;
      var t := NatStr(n);
      assert x == b.nodes[x].name + "_" + t;
      assert x[|x| - 1] == t[|t| - 1];
    }
  }

  /** `translate_process_graph` for a document given as a dictionary: the
      parameters it declares override the globals, its `process_graph` is
      walked into numbered nodes, and the nodes are linked.  The result
      lists every node once, by depth, each still at the key path where
      the document holds it. */
  function TranslateProcessGraph(w: Version, doc: Json, catalog: Catalog, globals: Dict<Json, Json>): (r: Result<G.Graph>)
    requires Wf(doc)
    ensures !doc.JObj? ==> r == Err(NotADocument)
    ensures doc.JObj? && DocumentParameters(doc, globals).Ok? && !HasField(doc, "process_graph") ==> r == Err(MissingProcessGraph)
    ensures r.Ok? ==> G.Wf(r.value) && Sorting.AllNumbered(r.value) && Sorting.DepthSorted(r.value, r.value.ids)
    ensures r.Ok? ==> forall x | x in r.value.nodes :: x in r.value.ids
    ensures r.Ok? ==> HasField(doc, "process_graph")
    ensures r.Ok? ==> forall x | x in r.value.nodes :: Walk.NodeAt(Field(doc, "process_graph").value, r.value.nodes[x].keys)
    ensures r.Ok? ==>
      Field(doc, "process_graph").value.JObj? && |r.value.ids| == |Walk.DocPaths(Field(doc, "process_graph").value, 0, [])|
    ensures r.Ok? ==> forall p | Walk.ReachesProcess(Field(doc, "process_graph").value, p) ::
      exists x | x in r.value.nodes :: r.value.nodes[x].keys == p
  {
    if !doc.JObj? then Err(NotADocument)
    else
      var params :- DocumentParameters(doc, globals);
      if !HasField(doc, "process_graph") then Err(MissingProcessGraph)
      else
        var pg := Field(doc, "process_graph").value;
        WfChildren(doc);
        var b :- Walk.WalkProcessGraph(pg, catalog);
        WalkedWf(pg, catalog, b);
        var g := ToGraph(b);
        var r :- LinkNodes(w, g, params);
        RetouchedDepths(g, r, r.ids);
        Translated(pg, catalog, b, r);
        TranslatedComplete(pg, catalog, b, r);
        Ok(r)
  }

  /** Linking keeps one node per process dictionary the document reaches
      through dictionaries. */
  lemma TranslatedComplete(pg: Json, catalog: Catalog, b: Walk.Build, r: G.Graph)
    requires Wf(pg) && pg.JObj? && Walk.Inv(pg, catalog, b)
    requires Walk.KeysOf(b.nodes, b.order) == Walk.DocPaths(pg, 0, [])
    requires Retouched(ToGraph(b), r) && Perm(r.ids, b.order)
    ensures |r.ids| == |Walk.DocPaths(pg, 0, [])|
    ensures forall p | Walk.ReachesProcess(pg, p) :: exists x | x in r.nodes :: r.nodes[x].keys == p
  {
    assert |multiset(r.ids)| == |multiset(b.order)|;
    forall p | Walk.ReachesProcess(pg, p) ensures exists x | x in r.nodes :: r.nodes[x].keys == p {
      Walk.DocPathsExactly(pg, p);
      var ks := Walk.KeysOf(b.nodes, b.order);
      var n :| 0 <= n < |ks| && ks[n] == p;
      var x := b.order[n];
      assert Same(b.nodes[x], r.nodes[x]);
    }
  }

  /** What linking keeps of the walked nodes: all of them listed, each at
      its key path in the document. */
  lemma Translated(pg: Json, catalog: Catalog, b: Walk.Build, r: G.Graph)
    requires Walk.Inv(pg, catalog, b) && Retouched(ToGraph(b), r) && Perm(r.ids, b.order)
    ensures Sorting.AllNumbered(r)
    ensures forall x | x in r.nodes :: x in r.ids
    ensures forall x | x in r.nodes :: Walk.NodeAt(pg, r.nodes[x].keys)
  {
    WalkedWf(pg, catalog, b);
    forall x | x in r.nodes ensures x in r.ids && Walk.NodeAt(pg, r.nodes[x].keys) {
      assert Walk.NodeOk(pg, catalog, b, x);
      assert x in multiset(b.order);
    }
  }
}
