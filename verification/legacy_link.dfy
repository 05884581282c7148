/** The linking passes of the legacy python generation
    (`openeo_pg_parser_python/translate_process_graph.py`): after the walk,
    `from_node` names become the ids of same-level nodes, `from_argument`
    references become a `from_node` to whatever feeds the outermost
    enclosing node, and every callback argument is pointed at the result
    node below it, with a `data` edge for each binding.  Every pass is a
    function from graph to graph or error; a node's content is replaced,
    never shared. */
module LegacyLink {
  import opened Results
  import opened Seqs
  import opened Strs
  import opened Dicts
  import opened Json
  import opened Utils
  import opened Adjacency
  import L = LegacyGraph
  import KeyWalk
  import T = LegacyTranslate

  /* ---------------------------------------------------------------------
     find_node_inputs
     --------------------------------------------------------------------- */

  /** `p` is a reference path through argument `j`: the argument's key,
      then a path the argument walk reports inside its value (one below
      which nothing is entered), ending in the key `link`. */
  predicate RefPath(args: Dict<string, Json>, link: string, j: int, p: Path) {
    0 <= j < |args| && |p| >= 2 && p[0] == KStr(args[j].0) && p[|p| - 1] == KStr(link) &&
    p[1..] in KeyWalk.Paths(KeyWalk.AllValues, args[j].1)
  }

  /** The walk's paths ending in `link` for the arguments `args[i..]`, each
      led by its argument's key. */
  function InputsFrom(args: Dict<string, Json>, link: string, i: nat): (r: seq<Path>)
    requires i <= |args|
    ensures forall p | p in r :: |p| >= 2 && p[|p| - 1] == KStr(link)
    decreases |args| - i
  {
    if i == |args| then []
    else
      var mine := EndingIn(KeyWalk.WalkArguments(args[i].1), link);
      var here := Under(KStr(args[i].0), mine);
      assert forall p | p in here :: |p| >= 2 && p[|p| - 1] == KStr(link) by {
        forall p | p in here ensures |p| >= 2 && p[|p| - 1] == KStr(link) {
          var t :| 0 <= t < |here| && here[t] == p;
          assert mine[t] in mine;
        }
      }
      here + InputsFrom(args, link, i + 1)
  }

  /** `find_node_inputs(pg_graph, data_link)`: the node's `arguments` must
      be a dictionary. */
  function FindNodeInputs(content: Json, link: string): (r: Result<seq<Path>>)
    ensures r.Ok? <==> T.HasArgs(content)
    ensures r.Ok? ==> r.value == InputsFrom(T.ArgsOf(content), link, 0)
  {
    var args :- Member(content, "arguments");
    if !args.JObj? then Err(BadType) else Ok(InputsFrom(args.entries, link, 0))
  }

  /** Every path the walk reports is nonempty. */
  lemma PathsNonEmpty(v: Json, q: Path)
    requires q in KeyWalk.Paths(KeyWalk.AllValues, v)
    ensures |q| > 0
  {
    KeyWalk.LeavesFromExtend(KeyWalk.AllValues, v, [], 0);
  }

  /** The paths found for argument `i` are exactly its reference paths. */
  lemma InputsHere(args: Dict<string, Json>, link: string, i: nat, p: Path)
    requires i < |args| && Wf(args[i].1)
    ensures p in Under(KStr(args[i].0), EndingIn(KeyWalk.WalkArguments(args[i].1), link)) <==> RefPath(args, link, i, p)
  {
    KeyWalk.WalkArgumentsPaths(args[i].1);
    var ps := KeyWalk.Paths(KeyWalk.AllValues, args[i].1);
    UnderHas(KStr(args[i].0), EndingIn(ps, link), p);
    if |p| > 0 && p[1..] in ps {
      PathsNonEmpty(args[i].1, p[1..]);
    }
    if |p| >= 2 {
      assert p[1..][|p[1..]| - 1] == p[|p| - 1];
    }
  }

  /** Every reference path of an argument at or after `i` is found, and
      nothing else is. */
  lemma {:induction false} InputsFromExact(args: Dict<string, Json>, link: string, i: nat, p: Path)
    requires i <= |args| && forall j | i <= j < |args| :: Wf(args[j].1)
    ensures p in InputsFrom(args, link, i) <==> exists j | i <= j :: RefPath(args, link, j, p)
    decreases |args| - i
  {
    if i < |args| {
      InputsFromExact(args, link, i + 1, p);
      InputsHere(args, link, i, p);
      assert forall j | i <= j :: RefPath(args, link, j, p) ==> j == i || i + 1 <= j;
    }
  }

  /** On a well-formed node the references found are exactly the paths
      ending in `link` that the argument walk reports inside an argument,
      led by that argument's key. */
  lemma FindNodeInputsExact(content: Json, link: string, p: Path)
    requires Wf(content) && FindNodeInputs(content, link).Ok?
    ensures p in FindNodeInputs(content, link).value <==> exists j :: RefPath(T.ArgsOf(content), link, j, p)
  {
    var args := T.ArgsOf(content);
    WfChildren(content);
    GetEntry(content.entries, IndexOf(content.entries, "arguments"));
    WfChildren(JObj(args));
    InputsFromExact(args, link, 0, p);
  }

  /* ---------------------------------------------------------------------
     What the passes keep
     --------------------------------------------------------------------- */

  /** A later graph of the linking passes: the same nodes in the same
      order with the same ids and names, every edge list only appended to,
      and every appended edge joining two nodes of the graph. */
  ghost predicate Kept(g: L.Graph, g': L.Graph) {
    g'.ids == g.ids && g'.nodes.Keys == g.nodes.Keys &&
    (forall x | x in g.nodes :: g'.nodes[x].id == g.nodes[x].id && g'.nodes[x].name == g.nodes[x].name) &&
    Extends(g.adj, g'.adj) &&
    (forall x | x in g'.adj :: x in g.adj || x in g.nodes) &&
    (forall x, i | x in g'.adj && |EdgesOf(g.adj, x)| <= i < |g'.adj[x]| ::
       g'.adj[x][i].src in g.nodes && g'.adj[x][i].dst in g.nodes)
  }

  lemma KeptRefl(g: L.Graph)
    ensures Kept(g, g)
  {
  }

  lemma KeptTrans(g1: L.Graph, g2: L.Graph, g3: L.Graph)
    requires Kept(g1, g2) && Kept(g2, g3)
    ensures Kept(g1, g3)
  {
    forall x, i | x in g3.adj && |EdgesOf(g1.adj, x)| <= i < |g3.adj[x]|
      ensures g3.adj[x][i].src in g1.nodes && g3.adj[x][i].dst in g1.nodes
    {
      assert EdgesOf(g2.adj, x) <= EdgesOf(g3.adj, x);
      if i < |EdgesOf(g2.adj, x)| {
        assert x in g2.adj && g3.adj[x][i] == g2.adj[x][i];
      }
    }
    forall x ensures Grows(EdgesOf(g1.adj, x), EdgesOf(g3.adj, x)) {
      assert Grows(EdgesOf(g1.adj, x), EdgesOf(g2.adj, x));
      assert Grows(EdgesOf(g2.adj, x), EdgesOf(g3.adj, x));
    }
  }

  /** The passes keep the graph well formed. */
  lemma KeptWf(g: L.Graph, g': L.Graph)
    requires L.Wf(g) && Kept(g, g')
    ensures L.Wf(g')
  {
    forall x, i | x in g'.adj && 0 <= i < |g'.adj[x]|
      ensures g'.adj[x][i].src in g'.nodes.Keys && g'.adj[x][i].dst in g'.nodes.Keys
    {
      assert EdgesOf(g'.adj, x) == g'.adj[x];
      if i < |EdgesOf(g.adj, x)| {
        assert x in g.adj && g'.adj[x][i] == g.adj[x][i];
      }
    }
  }

  /** `Graph.update` keeps everything. */
  lemma UpdateKept(g: L.Graph)
    requires L.Wf(g)
    ensures Kept(g, L.Update(g))
  {
    var r := L.Update(g);
    UpdateEndsIn(g.adj, g.ids, g.nodes.Keys);
    UpdateKeys(g.adj, g.ids, g.nodes.Keys);
  }

  /** The data edge a binding adds: from the node bound to into the
      referring node. */
  function DataEdge(y: string, x: string): (r: Edge)
    ensures r.src == y && r.dst == x && r.name == "data"
  {
    Edge(y + "_" + x, "data", y, x, false)
  }

  /** Node `x` with new `arguments` and a data edge from `y` on its list. */
  function Relink(g: L.Graph, x: string, args: Json, y: string): (r: L.Graph)
    requires x in g.nodes && y in g.nodes && g.nodes[x].content.JObj?
    ensures Kept(g, r)
    ensures Member(r.nodes[x].content, "arguments") == Ok(args)
    ensures forall k | k != "arguments" :: Field(r.nodes[x].content, k) == Field(g.nodes[x].content, k)
    ensures forall z | z in g.nodes && z != x :: r.nodes[z] == g.nodes[z]
    ensures EdgesOf(r.adj, x) == AddEdge(EdgesOf(g.adj, x), DataEdge(y, x))
    ensures forall z | z != x :: EdgesOf(r.adj, z) == EdgesOf(g.adj, z)
  {
    var c := g.nodes[x].content;
    var r := L.Graph(g.ids, g.nodes[x := g.nodes[x].(content := JObj(Put(c.entries, "arguments", args)))],
      AddEdgeAt(g.adj, x, DataEdge(y, x)));
    forall z, i | z in r.adj && |EdgesOf(g.adj, z)| <= i < |r.adj[z]|
      ensures r.adj[z][i].src in g.nodes && r.adj[z][i].dst in g.nodes
    {
      assert EdgesOf(r.adj, z) == r.adj[z];
      assert z == x;
      assert r.adj[z][i] == DataEdge(y, x);
    }
    r
  }

  /* ---------------------------------------------------------------------
     from_node / adjust_from_nodes
     --------------------------------------------------------------------- */

  /** `from_node(nodes, node_name)` over the nodes `peers[i..]`: the first
      whose name equals the value (only a string can). */
  function FromNode(g: L.Graph, peers: seq<string>, name: Json, i: nat): (r: Option<string>)
    requires i <= |peers| && forall y | y in peers :: y in g.nodes
    ensures r.None? <==> forall k | i <= k < |peers| :: JStr(g.nodes[peers[k]].name) != name
    ensures r.Some? ==> exists k | i <= k < |peers| :: (peers[k] == r.value &&
      JStr(g.nodes[peers[k]].name) == name && forall t | i <= t < k :: JStr(g.nodes[peers[t]].name) != name)
    decreases |peers| - i
  {
    if i == |peers| then None
    else if JStr(g.nodes[peers[i]].name) == name then Some(peers[i])
    else FromNode(g, peers, name, i + 1)
  }

  /** The value at path `p` of node `x`'s `arguments`. */
  function RefAt(g: L.Graph, x: string, p: Path): Result<Json>
    requires x in g.nodes
  {
    var args :- Member(g.nodes[x].content, "arguments");
    GetPath(args, p)
  }

  /** One `from_node` reference of node `x` at path `p`: a value that
      already is a node id stays; a list or dictionary cannot be looked up
      among the ids; otherwise the first of `peers` with that name is
      written there, quoted and spliced as text, and gets a data edge into
      `x`; a name no peer has is an error. */
  function FromNodeRef(g: L.Graph, peers: seq<string>, x: string, p: Path): (r: Result<L.Graph>)
    requires x in g.nodes && forall y | y in peers :: y in g.nodes
    ensures r.Ok? ==> Kept(g, r.value)
    ensures r.Ok? ==> forall z | z in g.nodes && z != x :: r.value.nodes[z] == g.nodes[z]
  {
    var args :- Member(g.nodes[x].content, "arguments");
    var data :- GetPath(args, p);
    if data.JObj? || data.JArr? then Err(BadType)
    else if data.JStr? && data.s in g.ids then
      KeptRefl(g);
      Ok(g)
    else
      match FromNode(g, peers, data, 0)
      case None => Err(WrongFromNode)
      case Some(y) =>
        var args' :- SetObjElemFromKeys(args, p, JStr("'" + y + "'"));
        Ok(Relink(g, x, args', y))
  }

  /** A reference that is still a name: a string that is no node id. */
  predicate Unresolved(g: L.Graph, x: string, p: Path) {
    x in g.nodes && RefAt(g, x, p).Ok? && RefAt(g, x, p).value.JStr? && RefAt(g, x, p).value.s !in g.ids
  }

  /** A name is resolved exactly when some peer has it (and otherwise
      the wrong-reference error is raised); the peer chosen is the first
      with that name, its id is now stored at `p`, and the data edge from
      it is on `x`'s list.  Node ids here need no escape between quotes (no
      quote, backslash, line break or NUL), so they survive being spliced
      as text. */
  lemma FromNodeBinds(g: L.Graph, peers: seq<string>, x: string, p: Path) returns (k: nat)
    requires Unresolved(g, x, p) && |p| > 0 && p[|p| - 1].KStr?
    requires (forall y | y in peers :: y in g.nodes && IsPlainLiteralBody(y))
    ensures FromNodeRef(g, peers, x, p).Ok? <==> exists y | y in peers :: g.nodes[y].name == RefAt(g, x, p).value.s
    ensures FromNodeRef(g, peers, x, p).Err? ==> FromNodeRef(g, peers, x, p).error == WrongFromNode
    ensures FromNodeRef(g, peers, x, p).Ok? ==>
      k < |peers| && g.nodes[peers[k]].name == RefAt(g, x, p).value.s &&
      (forall t | 0 <= t < k :: g.nodes[peers[t]].name != RefAt(g, x, p).value.s) &&
      RefAt(FromNodeRef(g, peers, x, p).value, x, p) == Ok(JStr(peers[k])) &&
      Has(EdgesOf(FromNodeRef(g, peers, x, p).value.adj, x), DataEdge(peers[k], x))
  {
    var name := RefAt(g, x, p).value;
    var args := Member(g.nodes[x].content, "arguments").value;
    assert forall y | y in peers :: (JStr(g.nodes[y].name) != name <==> g.nodes[y].name != name.s);
    k := 0;
    if FromNode(g, peers, name, 0).Some? {
      var y := FromNode(g, peers, name, 0).value;
      k :| 0 <= k < |peers| && peers[k] == y && JStr(g.nodes[peers[k]].name) == name &&
        forall t | 0 <= t < k :: JStr(g.nodes[peers[t]].name) != name;
      assert forall t | 0 <= t < k :: g.nodes[peers[t]].name != name.s by {
        forall t | 0 <= t < k ensures g.nodes[peers[t]].name != name.s {
          assert JStr(g.nodes[peers[t]].name) != name;
        }
      }
      assert y in peers;
      SpliceQuoted(y);
      ReadBelowKey(args, p);
      SetWhereReadable(args, p, JStr(y));
      GetAfterSet(args, p, JStr(y));
    }
  }

  /** Resolving a reference a second time changes nothing, as long as no
      node id needs an escape between quotes. */
  lemma FromNodeRerun(g: L.Graph, peers: seq<string>, x: string, p: Path)
    requires L.Wf(g) && x in g.nodes && |p| > 0 && p[|p| - 1].KStr?
    requires (forall y | y in peers :: y in g.nodes && IsPlainLiteralBody(y))
    requires FromNodeRef(g, peers, x, p).Ok?
    ensures FromNodeRef(FromNodeRef(g, peers, x, p).value, peers, x, p) == FromNodeRef(g, peers, x, p)
  {
    var g1 := FromNodeRef(g, peers, x, p).value;
    var data := RefAt(g, x, p).value;
    if data.JStr? && data.s in g.ids {
      ResolvedKept(g, peers, x, p);
    } else {
      var k := FromNodeBinds(g, peers, x, p);
      assert peers[k] in g1.ids;
      ResolvedKept(g1, peers, x, p);
    }
  }

  /** A reference that already holds a node id is left alone. */
  lemma ResolvedKept(g: L.Graph, peers: seq<string>, x: string, p: Path)
    requires x in g.nodes && (forall y | y in peers :: y in g.nodes)
    requires RefAt(g, x, p).Ok? && RefAt(g, x, p).value.JStr? && RefAt(g, x, p).value.s in g.ids
    ensures FromNodeRef(g, peers, x, p) == Ok(g)
  {
  }

  /** The references `ps[i..]` of node `x`, in order. */
  function FromNodeRefs(g: L.Graph, peers: seq<string>, x: string, ps: seq<Path>, i: nat): (r: Result<L.Graph>)
    requires x in g.nodes && (forall y | y in peers :: y in g.nodes) && i <= |ps|
    ensures r.Ok? ==> Kept(g, r.value)
    ensures r.Ok? ==> forall z | z in g.nodes && z != x :: r.value.nodes[z] == g.nodes[z]
    decreases |ps| - i
  {
    if i == |ps| then
      KeptRefl(g);
      Ok(g)
    else
      var g1 :- FromNodeRef(g, peers, x, ps[i]);
      var r :- FromNodeRefs(g1, peers, x, ps, i + 1);
      KeptTrans(g, g1, r);
      Ok(r)
  }

  /** Resolving one reference leaves every path that parts ways with it as
      it was. */
  lemma FromNodeRefKeeps(g: L.Graph, peers: seq<string>, x: string, p: Path, q: Path)
    requires x in g.nodes && (forall y | y in peers :: y in g.nodes)
    requires FromNodeRef(g, peers, x, p).Ok? && Diverge(p, q)
    ensures RefAt(FromNodeRef(g, peers, x, p).value, x, q) == RefAt(g, x, q)
  {
    var args := Member(g.nodes[x].content, "arguments").value;
    var data := GetPath(args, p).value;
    if !(data.JStr? && data.s in g.ids) {
      var y := FromNode(g, peers, data, 0).value;
      SetLeavesOthers(args, p, Splice(JStr("'" + y + "'")).value, q);
    }
  }

  /** Resolving `ps[i..]` leaves every path that parts ways with all of them
      as it was. */
  lemma {:induction false} FromNodeRefsKeep(g: L.Graph, peers: seq<string>, x: string, ps: seq<Path>, i: nat, q: Path)
    requires x in g.nodes && (forall y | y in peers :: y in g.nodes) && i <= |ps|
    requires FromNodeRefs(g, peers, x, ps, i).Ok? && forall k | i <= k < |ps| :: Diverge(ps[k], q)
    ensures RefAt(FromNodeRefs(g, peers, x, ps, i).value, x, q) == RefAt(g, x, q)
    decreases |ps| - i
  {
    if i < |ps| {
      var g1 := FromNodeRef(g, peers, x, ps[i]).value;
      FromNodeRefKeeps(g, peers, x, ps[i], q);
      FromNodeRefsKeep(g1, peers, x, ps, i + 1, q);
    }
  }

  /** A resolved reference holds a node id: a value other than a string
      names no peer. */
  lemma FromNodeRefBound(g: L.Graph, peers: seq<string>, x: string, p: Path)
    requires L.Wf(g) && x in g.nodes && |p| > 0 && p[|p| - 1].KStr?
    requires (forall y | y in peers :: y in g.nodes && IsPlainLiteralBody(y))
    requires FromNodeRef(g, peers, x, p).Ok?
    ensures RefAt(FromNodeRef(g, peers, x, p).value, x, p).Ok?
    ensures RefAt(FromNodeRef(g, peers, x, p).value, x, p).value.JStr?
    ensures RefAt(FromNodeRef(g, peers, x, p).value, x, p).value.s in g.ids
  {
    var data := RefAt(g, x, p).value;
    if data.JStr? && data.s !in g.ids {
      var k := FromNodeBinds(g, peers, x, p);
    }
  }

  /** After the pass over a node's references that part ways and end in a
      dictionary key, every one of them holds a node id. */
  lemma {:induction false} FromNodeRefsBind(g: L.Graph, peers: seq<string>, x: string, ps: seq<Path>, i: nat)
    requires L.Wf(g) && x in g.nodes && i <= |ps|
    requires (forall y | y in peers :: y in g.nodes && IsPlainLiteralBody(y))
    requires Independent(ps) && forall k | 0 <= k < |ps| :: |ps[k]| > 0 && ps[k][|ps[k]| - 1].KStr?
    requires FromNodeRefs(g, peers, x, ps, i).Ok?
    ensures forall k | i <= k < |ps| ::
      var v := RefAt(FromNodeRefs(g, peers, x, ps, i).value, x, ps[k]);
      v.Ok? && v.value.JStr? && v.value.s in g.ids
    decreases |ps| - i
  {
    if i < |ps| {
      var g1 := FromNodeRef(g, peers, x, ps[i]).value;
      KeptWf(g, g1);
      FromNodeRefsBind(g1, peers, x, ps, i + 1);
      FromNodeRefsKeep(g1, peers, x, ps, i + 1, ps[i]);
      FromNodeRefBound(g, peers, x, ps[i]);
    }
  }

  /** The nodes a node's `from_node` names are looked up among: those
      with the same enclosing node along `callback` edges, itself last. */
  lemma PeersInGraph(g: L.Graph, x: string)
    requires L.Wf(g) && x in g.nodes && L.NodesAtSameLevel(g, x, "callback", true).Ok?
    ensures forall y | y in L.NodesAtSameLevel(g, x, "callback", true).value :: y in g.nodes
  {
  }

  /** `adjust_from_nodes` from the `i`-th node on. */
  function FromNodesFrom(g: L.Graph, i: nat): (r: Result<L.Graph>)
    requires L.Wf(g) && i <= |g.ids|
    ensures r.Ok? ==> Kept(g, r.value) && L.Wf(r.value)
    decreases |g.ids| - i
  {
    if i == |g.ids| then
      KeptRefl(g);
      Ok(g)
    else
      var x := g.ids[i];
      var peers :- L.NodesAtSameLevel(g, x, "callback", true);
      PeersInGraph(g, x);
      var ps :- FindNodeInputs(g.nodes[x].content, "from_node");
      var g1 :- FromNodeRefs(g, peers, x, ps, 0);
      KeptWf(g, g1);
      var r :- FromNodesFrom(g1, i + 1);
      KeptTrans(g, g1, r);
      Ok(r)
  }

  /** `adjust_from_nodes(graph)`. */
  function AdjustFromNodes(g: L.Graph): (r: Result<L.Graph>)
    requires L.Wf(g)
    ensures r.Ok? ==> Kept(g, r.value) && L.Wf(r.value)
  {
    FromNodesFrom(g, 0)
  }

  /* ---------------------------------------------------------------------
     adjust_from_arguments
     --------------------------------------------------------------------- */

  /** A path without its last key (`key_lineage[:-1]`). */
  function Init(p: Path): (r: Path)
    ensures |p| > 0 ==> r == p[..|p| - 1]
    ensures |p| == 0 ==> r == []
  {
    if |p| == 0 then [] else p[..|p| - 1]
  }

  /** The node that feeds a node along `data`, if any, is in the graph. */
  lemma ParentInGraph(g: L.Graph, root: string)
    requires L.Wf(g) && L.Parent(g.adj, root, "data").Ok? && L.Parent(g.adj, root, "data").value.Some?
    ensures L.Parent(g.adj, root, "data").value.value in g.nodes
  {
    var e :| e in EdgesOf(g.adj, root) && L.G.Links(e, root, Some("data"), true) && e.src == L.Parent(g.adj, root, "data").value.value;
    var i :| 0 <= i < |g.adj[root]| && g.adj[root][i] == e;
  }

  /** One `from_argument` reference of node `x` at path `p`: the chain of
      enclosing nodes along `callback` edges must be nonempty; whatever
      feeds its outermost node along `data` (if anything) replaces the
      dictionary holding the reference by a `from_node` to it, with a data
      edge into `x`. */
  function FromArgumentRef(g: L.Graph, x: string, p: Path): (r: Result<L.Graph>)
    requires L.Wf(g) && x in g.nodes
    ensures r.Ok? ==> Kept(g, r.value)
    ensures r.Ok? ==> forall z | z in g.nodes && z != x :: r.value.nodes[z] == g.nodes[z]
  {
    var up :- OuterFeed(g, x);
    match up
    case None =>
      KeptRefl(g);
      Ok(g)
    case Some(y) =>
      BindFromArgument(g, x, p, y)
  }

  /** What feeds the outermost node enclosing `x` along `data`, if anything;
      a node outside every callback is an error. */
  function OuterFeed(g: L.Graph, x: string): (r: Result<Option<string>>)
    requires L.Wf(g) && x in g.nodes
    ensures r.Ok? && r.value.Some? ==> r.value.value in g.nodes
  {
    var lineage :- L.NodeLineage(g, x, "callback", false);
    if lineage == [] then Err(WrongFromArgument)
    else
      var root := lineage[|lineage| - 1];
      var up := L.Parent(g.adj, root, "data");
      if up.Ok? && up.value.Some? then ParentInGraph(g, root); up else up
  }

  /** The dictionary holding the `from_argument` reference at `p` of node
      `x` becomes a `from_node` to `y`, with a data edge into `x`. */
  function BindFromArgument(g: L.Graph, x: string, p: Path, y: string): (r: Result<L.Graph>)
    requires L.Wf(g) && x in g.nodes && y in g.nodes
    ensures r.Ok? ==> Kept(g, r.value)
    ensures r.Ok? ==> forall z | z in g.nodes && z != x :: r.value.nodes[z] == g.nodes[z]
  {
    var args :- Member(g.nodes[x].content, "arguments");
    var args' :- SetObjElemFromKeys(args, Init(p), FromNodeArg(y));
    Ok(Relink(g, x, args', y))
  }

  /** A node outside every callback has no enclosing node, and a
      `from_argument` in it is an error. */
  lemma FromArgumentUnscoped(g: L.Graph, x: string, p: Path)
    requires L.Wf(g) && x in g.nodes && L.Relatives(g.adj, x, "callback", false) == []
    ensures FromArgumentRef(g, x, p) == Err(WrongFromArgument)
  {
    var step := L.Step(g.adj, "callback", false);
    assert [x][..0] == [];
    assert L.G.Expand(step, [x]) == [];
  }

  /** Inside a callback, with a node feeding the outermost enclosing node
      `root` along `data`: the dictionary holding the reference becomes a
      `from_node` to that node, and the data edge from it is on `x`'s
      list. */
  lemma FromArgumentBinds(g: L.Graph, x: string, p: Path, root: string, y: string)
    requires L.Wf(g) && x in g.nodes && |p| >= 2
    requires L.NodeLineage(g, x, "callback", false).Ok?
    requires L.NodeLineage(g, x, "callback", false).value != []
    requires root == L.NodeLineage(g, x, "callback", false).value[|L.NodeLineage(g, x, "callback", false).value| - 1]
    requires L.Parent(g.adj, root, "data") == Ok(Some(y))
    requires FromArgumentRef(g, x, p).Ok?
    ensures RefAt(FromArgumentRef(g, x, p).value, x, Init(p)) == Ok(FromNodeArg(y))
    ensures Has(EdgesOf(FromArgumentRef(g, x, p).value.adj, x), DataEdge(y, x))
  {
    assert OuterFeed(g, x) == Ok(Some(y));
    FedByBinds(g, x, p, y);
    BindFromArgumentReadsBack(g, x, p, y);
  }

  /** With a node `y` feeding the outermost enclosing node, the reference is
      bound to `y`. */
  lemma FedByBinds(g: L.Graph, x: string, p: Path, y: string)
    requires L.Wf(g) && x in g.nodes && OuterFeed(g, x) == Ok(Some(y))
    ensures y in g.nodes && FromArgumentRef(g, x, p) == BindFromArgument(g, x, p, y)
  {
  }

  /** After the binding, the reference's dictionary reads back as the
      `from_node` to `y`, and the data edge is on `x`'s list. */
  lemma BindFromArgumentReadsBack(g: L.Graph, x: string, p: Path, y: string)
    requires L.Wf(g) && x in g.nodes && y in g.nodes && |p| >= 2
    requires BindFromArgument(g, x, p, y).Ok?
    ensures RefAt(BindFromArgument(g, x, p, y).value, x, Init(p)) == Ok(FromNodeArg(y))
    ensures Has(EdgesOf(BindFromArgument(g, x, p, y).value.adj, x), DataEdge(y, x))
  {
    var args := Member(g.nodes[x].content, "arguments").value;
    GetAfterSet(args, Init(p), FromNodeArg(y));
  }

  /** With no node feeding the outermost enclosing node, the reference is
      left as it is. */
  lemma FromArgumentUnfed(g: L.Graph, x: string, p: Path)
    requires L.Wf(g) && x in g.nodes
    requires L.NodeLineage(g, x, "callback", false).Ok?
    requires L.NodeLineage(g, x, "callback", false).value != []
    requires L.Parent(g.adj, L.NodeLineage(g, x, "callback", false).value[|L.NodeLineage(g, x, "callback", false).value| - 1], "data") == Ok(None)
    ensures FromArgumentRef(g, x, p) == Ok(g)
  {
  }

  /** The references `ps[i..]` of node `x`, in order. */
  function FromArgumentRefs(g: L.Graph, x: string, ps: seq<Path>, i: nat): (r: Result<L.Graph>)
    requires L.Wf(g) && x in g.nodes && i <= |ps|
    ensures r.Ok? ==> Kept(g, r.value) && L.Wf(r.value)
    decreases |ps| - i
  {
    if i == |ps| then
      KeptRefl(g);
      Ok(g)
    else
      var g1 :- FromArgumentRef(g, x, ps[i]);
      KeptWf(g, g1);
      var r :- FromArgumentRefs(g1, x, ps, i + 1);
      KeptTrans(g, g1, r);
      Ok(r)
  }

  /** `adjust_from_arguments` from the `i`-th node on. */
  function FromArgumentsFrom(g: L.Graph, i: nat): (r: Result<L.Graph>)
    requires L.Wf(g) && i <= |g.ids|
    ensures r.Ok? ==> Kept(g, r.value) && L.Wf(r.value)
    decreases |g.ids| - i
  {
    if i == |g.ids| then
      KeptRefl(g);
      Ok(g)
    else
      var x := g.ids[i];
      var ps :- FindNodeInputs(g.nodes[x].content, "from_argument");
      var g1 :- FromArgumentRefs(g, x, ps, 0);
      var r :- FromArgumentsFrom(g1, i + 1);
      KeptTrans(g, g1, r);
      Ok(r)
  }

  /** `adjust_from_arguments(graph)`. */
  function AdjustFromArguments(g: L.Graph): (r: Result<L.Graph>)
    requires L.Wf(g)
    ensures r.Ok? ==> Kept(g, r.value) && L.Wf(r.value)
  {
    FromArgumentsFrom(g, 0)
  }

  /* ---------------------------------------------------------------------
     adjust_callbacks
     --------------------------------------------------------------------- */

  /** A node flagged as the result of its callback: a truthy `result`. */
  predicate IsResult(c: Json) {
    Field(c, "result").Some? && Truthy(Field(c, "result").value)
  }

  /** The first of the nodes `kids[i..]` flagged as a result; looking at a
      node whose content is not a dictionary fails. */
  function FirstResult(g: L.Graph, kids: seq<string>, i: nat): (r: Result<Option<string>>)
    requires i <= |kids| && forall k | k in kids :: k in g.nodes
    ensures r.Ok? && r.value.Some? ==> exists t | i <= t < |kids| :: (kids[t] == r.value.value &&
      IsResult(g.nodes[kids[t]].content) && forall u | i <= u < t :: !IsResult(g.nodes[kids[u]].content))
    ensures r == Ok(None) <==> forall t | i <= t < |kids| :: g.nodes[kids[t]].content.JObj? && !IsResult(g.nodes[kids[t]].content)
    decreases |kids| - i
  {
    if i == |kids| then Ok(None)
    else
      var c := g.nodes[kids[i]].content;
      if !c.JObj? then Err(BadType)
      else if IsResult(c) then Ok(Some(kids[i]))
      else FirstResult(g, kids, i + 1)
  }

  /** The nodes directly inside node `x`'s callbacks: the sources of the
      `callback` edges into it, in edge order. */
  function Kids(g: L.Graph, x: string): (r: seq<string>)
    requires L.Wf(g)
    ensures forall k | k in r :: k in g.nodes
  {
    var r := L.Relatives(g.adj, x, "callback", true);
    assert forall k | k in r :: k in g.nodes by {
      forall k | k in r ensures k in g.nodes {
        var e :| e in EdgesOf(g.adj, x) && L.G.Links(e, x, Some("callback"), true) && L.G.Other(e, true) == k;
        var i :| 0 <= i < |g.adj[x]| && g.adj[x][i] == e;
      }
    }
    r
  }

  /** What `adjust_callbacks` makes of node `x`'s content: a node with no
      callback child keeps it; otherwise every callback argument becomes a
      `from_node` to the first child flagged as a result, and there must
      be one. */
  function CallbackContent(g: L.Graph, x: string): (r: Result<Json>)
    requires L.Wf(g) && x in g.nodes
    ensures Kids(g, x) == [] ==> r == Ok(g.nodes[x].content)
    ensures Kids(g, x) != [] && FirstResult(g, Kids(g, x), 0) == Ok(None) ==> r == Err(NoResultNode)
    ensures Kids(g, x) != [] && r.Ok? ==>
      FirstResult(g, Kids(g, x), 0).Ok? && FirstResult(g, Kids(g, x), 0).value.Some? &&
      r == T.ReplaceCallback(g.nodes[x].content, FromNodeArg(FirstResult(g, Kids(g, x), 0).value.value)) &&
      T.Trimmed(r.value, FromNodeArg(FirstResult(g, Kids(g, x), 0).value.value))
  {
    var kids := Kids(g, x);
    if kids == [] then Ok(g.nodes[x].content)
    else
      var found :- FirstResult(g, kids, 0);
      match found
      case None => Err(NoResultNode)
      case Some(k) =>
        var c :- T.ReplaceCallback(g.nodes[x].content, FromNodeArg(k));
        T.ReplaceCallbackSettles(g.nodes[x].content, FromNodeArg(k));
        Ok(c)
  }

  /** Two graphs that differ at most in the `arguments` of node contents. */
  ghost predicate ArgsOnly(g: L.Graph, g': L.Graph) {
    g'.ids == g.ids && g'.adj == g.adj && g'.nodes.Keys == g.nodes.Keys &&
    forall x | x in g.nodes :: g'.nodes[x].id == g.nodes[x].id && g'.nodes[x].name == g.nodes[x].name &&
      g'.nodes[x].content.JObj? == g.nodes[x].content.JObj? &&
      forall k | k != "arguments" :: Field(g'.nodes[x].content, k) == Field(g.nodes[x].content, k)
  }

  lemma ArgsOnlyTrans(g1: L.Graph, g2: L.Graph, g3: L.Graph)
    requires ArgsOnly(g1, g2) && ArgsOnly(g2, g3)
    ensures ArgsOnly(g1, g3)
  {
  }

  /** Rewriting `arguments` changes no node's answer. */
  lemma FirstResultArgsOnly(g: L.Graph, g': L.Graph, kids: seq<string>, i: nat)
    requires ArgsOnly(g, g') && i <= |kids| && forall k | k in kids :: k in g.nodes
    ensures FirstResult(g', kids, i) == FirstResult(g, kids, i)
  {
    forall j | 0 <= j < |kids| ensures SameFlags(g, g', kids[j]) {
      SameAnswer(g, g', kids[j]);
    }
    FirstResultSame(g, g', kids, i);
  }

  /** Node `x` is in both graphs, a dictionary in both or in neither, and
      flagged as a result in both or in neither. */
  predicate SameFlags(g: L.Graph, g': L.Graph, x: string) {
    x in g.nodes && x in g'.nodes && g'.nodes[x].content.JObj? == g.nodes[x].content.JObj? &&
    IsResult(g'.nodes[x].content) == IsResult(g.nodes[x].content)
  }

  /** Two graphs that agree on the flags of the children give the same answer. */
  lemma {:induction false} FirstResultSame(g: L.Graph, g': L.Graph, kids: seq<string>, i: nat)
    requires i <= |kids| && (forall k | k in kids :: k in g.nodes && k in g'.nodes)
    requires forall j | 0 <= j < |kids| :: SameFlags(g, g', kids[j])
    ensures FirstResult(g', kids, i) == FirstResult(g, kids, i)
    decreases |kids| - i
  {
    if i < |kids| {
      var x := kids[i];
      assert SameFlags(g, g', x);
      if !g.nodes[x].content.JObj? {
        assert FirstResult(g, kids, i) == Err(BadType) == FirstResult(g', kids, i);
      } else if IsResult(g.nodes[x].content) {
        assert FirstResult(g, kids, i) == Ok(Some(x)) == FirstResult(g', kids, i);
      } else {
        FirstResultSame(g, g', kids, i + 1);
        assert FirstResult(g, kids, i) == FirstResult(g, kids, i + 1);
        assert FirstResult(g', kids, i) == FirstResult(g', kids, i + 1);
      }
    }
  }

  /** Rewriting `arguments` keeps whether a node is a dictionary and whether
      it is flagged as a result. */
  lemma SameAnswer(g: L.Graph, g': L.Graph, x: string)
    requires ArgsOnly(g, g') && x in g.nodes
    ensures g'.nodes[x].content.JObj? == g.nodes[x].content.JObj?
    ensures IsResult(g'.nodes[x].content) == IsResult(g.nodes[x].content)
  {
    assert Field(g'.nodes[x].content, "result") == Field(g.nodes[x].content, "result");
  }

  lemma CallbackContentArgsOnly(g: L.Graph, g': L.Graph, x: string)
    requires L.Wf(g) && L.Wf(g') && ArgsOnly(g, g') && x in g.nodes && g'.nodes[x] == g.nodes[x]
    ensures CallbackContent(g', x) == CallbackContent(g, x)
  {
    FirstResultArgsOnly(g, g', Kids(g, x), 0);
  }

  /** `adjust_callbacks` from the `i`-th node on. */
  function CallbacksFrom(g: L.Graph, i: nat): (r: Result<L.Graph>)
    requires L.Wf(g) && i <= |g.ids|
    ensures r.Ok? ==> ArgsOnly(g, r.value) && L.Wf(r.value)
    ensures r.Ok? ==> forall t | 0 <= t < i :: r.value.nodes[g.ids[t]] == g.nodes[g.ids[t]]
    decreases |g.ids| - i
  {
    if i == |g.ids| then Ok(g)
    else
      var x := g.ids[i];
      var c :- CallbackContent(g, x);
      var g1 := SetContent(g, x, c);
      CallbackArgsOnly(g, x);
      assert forall t | 0 <= t < i :: g.ids[t] != x;
      var r :- CallbacksFrom(g1, i + 1);
      ArgsOnlyTrans(g, g1, r);
      Ok(r)
  }

  /** `adjust_callbacks(graph)`. */
  function AdjustCallbacks(g: L.Graph): (r: Result<L.Graph>)
    requires L.Wf(g)
    ensures r.Ok? ==> ArgsOnly(g, r.value) && L.Wf(r.value)
  {
    CallbacksFrom(g, 0)
  }

  /** Setting one node's content to its callback form. */
  function SetContent(g: L.Graph, x: string, c: Json): (r: L.Graph)
    requires L.Wf(g) && x in g.nodes
    ensures r.ids == g.ids && r.adj == g.adj && r.nodes.Keys == g.nodes.Keys
    ensures L.Wf(r) && r.nodes[x] == g.nodes[x].(content := c)
    ensures forall y | y in g.nodes && y != x :: r.nodes[y] == g.nodes[y]
  {
    L.Graph(g.ids, g.nodes[x := g.nodes[x].(content := c)], g.adj)
  }

  /** Giving a node its callback form touches only its arguments. */
  lemma CallbackArgsOnly(g: L.Graph, x: string)
    requires L.Wf(g) && x in g.nodes && CallbackContent(g, x).Ok?
    ensures ArgsOnly(g, SetContent(g, x, CallbackContent(g, x).value))
  {
    var g1 := SetContent(g, x, CallbackContent(g, x).value);
    forall y | y in g.nodes
      ensures g1.nodes[y].content.JObj? == g.nodes[y].content.JObj?
      ensures forall k | k != "arguments" :: Field(g1.nodes[y].content, k) == Field(g.nodes[y].content, k)
    {
    }
  }

  /** The nodes after position `i` see the same callback forms in the
      graph where node `i` already has its own. */
  lemma CallbackContentLater(g: L.Graph, i: nat)
    requires L.Wf(g) && i < |g.ids| && CallbackContent(g, g.ids[i]).Ok?
    ensures forall t | i < t < |g.ids| ::
      CallbackContent(SetContent(g, g.ids[i], CallbackContent(g, g.ids[i]).value), g.ids[t]) == CallbackContent(g, g.ids[t])
  {
    var x := g.ids[i];
    var g1 := SetContent(g, x, CallbackContent(g, x).value);
    CallbackArgsOnly(g, x);
    forall t | i < t < |g.ids| ensures CallbackContent(g1, g.ids[t]) == CallbackContent(g, g.ids[t]) {
      assert g.ids[t] != x;
      CallbackContentArgsOnly(g, g1, g.ids[t]);
    }
  }

  /** One step of the pass. */
  lemma CallbacksFromStep(g: L.Graph, i: nat)
    requires L.Wf(g) && i < |g.ids|
    ensures CallbackContent(g, g.ids[i]).Err? ==> CallbacksFrom(g, i).Err?
    ensures CallbackContent(g, g.ids[i]).Ok? ==>
      CallbacksFrom(g, i) == CallbacksFrom(SetContent(g, g.ids[i], CallbackContent(g, g.ids[i]).value), i + 1)
  {
  }

  /** Where the pass succeeds, each node from position `i` on ends up
      with its callback form, computed on the graph as it was before the
      pass: rewriting one node's arguments never changes which node is
      another's result. */
  lemma {:induction false} CallbacksFromAt(g: L.Graph, i: nat, t: nat)
    requires L.Wf(g) && i <= t < |g.ids| && CallbacksFrom(g, i).Ok?
    ensures CallbackContent(g, g.ids[t]).Ok?
    ensures CallbacksFrom(g, i).value.nodes[g.ids[t]].content == CallbackContent(g, g.ids[t]).value
    decreases |g.ids| - i
  {
    var x := g.ids[i];
    CallbacksFromStep(g, i);
    var g1 := SetContent(g, x, CallbackContent(g, x).value);
    if t == i {
      assert CallbacksFrom(g1, i + 1).value.nodes[x] == g1.nodes[x];
    } else {
      CallbacksFromAt(g1, i + 1, t);
      CallbackArgsOnly(g, x);
      assert g.ids[t] != x;
      CallbackContentArgsOnly(g, g1, g.ids[t]);
    }
  }

  /** The pass fails only at a node whose callback form does not exist. */
  lemma {:induction false} CallbacksFromOk(g: L.Graph, i: nat)
    requires L.Wf(g) && i <= |g.ids|
    requires forall t | i <= t < |g.ids| :: CallbackContent(g, g.ids[t]).Ok?
    ensures CallbacksFrom(g, i).Ok?
    decreases |g.ids| - i
  {
    if i < |g.ids| {
      CallbacksFromStep(g, i);
      CallbackContentLater(g, i);
      CallbacksFromOk(SetContent(g, g.ids[i], CallbackContent(g, g.ids[i]).value), i + 1);
    }
  }

  lemma AdjustCallbacksContents(g: L.Graph)
    requires L.Wf(g)
    ensures AdjustCallbacks(g).Ok? <==> forall x | x in g.nodes :: CallbackContent(g, x).Ok?
    ensures AdjustCallbacks(g).Ok? ==> forall x | x in g.nodes ::
      AdjustCallbacks(g).value.nodes[x].content == CallbackContent(g, x).value
  {
    if AdjustCallbacks(g).Ok? {
      AdjustCallbacksAt(g);
    } else if forall x | x in g.nodes :: CallbackContent(g, x).Ok? {
      assert forall t | 0 <= t < |g.ids| :: g.ids[t] in g.nodes;
      CallbacksFromOk(g, 0);
    }
  }

  /** Where the pass succeeds, every node has its callback form. */
  lemma AdjustCallbacksAt(g: L.Graph)
    requires L.Wf(g) && AdjustCallbacks(g).Ok?
    ensures forall x | x in g.nodes ::
      CallbackContent(g, x).Ok? && AdjustCallbacks(g).value.nodes[x].content == CallbackContent(g, x).value
  {
    forall x | x in g.nodes
      ensures CallbackContent(g, x).Ok? && AdjustCallbacks(g).value.nodes[x].content == CallbackContent(g, x).value
    {
      var t :| 0 <= t < |g.ids| && g.ids[t] == x;
      CallbacksFromAt(g, 0, t);
    }
  }

  /** A pass that rewrites only arguments keeps the graph's shape. */
  lemma ArgsOnlyKept(g: L.Graph, g': L.Graph)
    requires ArgsOnly(g, g')
    ensures Kept(g, g')
  {
  }

  /* ---------------------------------------------------------------------
     link_nodes / translate_graph
     --------------------------------------------------------------------- */

  /** `link_nodes(graph)`: update, resolve `from_node`, update, resolve
      `from_argument`, update, point callbacks at their result nodes.
      Nodes, ids and names survive; edges are only appended, between
      nodes of the graph; every node's final content is its callback form
      in the graph the last update produced. */
  function LinkNodes(g: L.Graph): (r: Result<L.Graph>)
    requires L.Wf(g)
    ensures r.Ok? ==> Kept(g, r.value) && L.Wf(r.value)
    ensures r.Ok? ==> exists g5: L.Graph | L.Wf(g5) && Kept(g, g5) && r.value.adj == g5.adj ::
      forall x | x in g5.nodes :: CallbackContent(g5, x) == Ok(r.value.nodes[x].content)
  {
    var g1 := L.Update(g);
    UpdateKept(g);
    KeptWf(g, g1);
    var g2 :- AdjustFromNodes(g1);
    KeptTrans(g, g1, g2);
    var g3 := L.Update(g2);
    UpdateKept(g2);
    KeptWf(g2, g3);
    KeptTrans(g, g2, g3);
    var g4 :- AdjustFromArguments(g3);
    KeptTrans(g, g3, g4);
    var g5 := L.Update(g4);
    UpdateKept(g4);
    KeptWf(g4, g5);
    KeptTrans(g, g4, g5);
    var g6 :- AdjustCallbacks(g5);
    ArgsOnlyKept(g5, g6);
    KeptTrans(g, g5, g6);
    AdjustCallbacksContents(g5);
    Ok(g6)
  }

  /** `translate_graph` on an already loaded document: walk it into nodes,
      then link them.  As intended, every process of the document becomes
      one node. */
  function TranslateGraph(v: Version, tok: nat -> string, doc: Json): (r: Result<L.Graph>)
    requires T.Tokens(tok)
    ensures !doc.JObj? ==> r == Err(BadType)
    ensures r.Ok? ==> T.WalkPgGraph(v, tok, doc).Ok? && Kept(T.WalkPgGraph(v, tok, doc).value, r.value)
    ensures r.Ok? ==> L.Wf(r.value) && |r.value.ids| <= T.Processes(doc)
    ensures r.Ok? && v.AsIntended? ==> |r.value.ids| == T.Processes(doc)
  {
    var g :- T.WalkPgGraph(v, tok, doc);
    T.WalkPgGraphBuilds(v, tok, doc);
    LinkNodes(g)
  }
}
