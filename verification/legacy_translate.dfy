/** The translator of the legacy python generation
    (`openeo_pg_parser_python/translate_process_graph.py`): a walk over the
    document that turns every process dictionary into a node with a fresh
    random id and a `callback` edge to its enclosing node, and the linking
    passes that resolve `from_node` and `from_argument` references and
    point every callback argument at its result node.  Every pass is a
    function from graph to graph or error, on the graph store of module
    LegacyGraph. */
module LegacyTranslate {
  import opened Results
  import opened Seqs
  import opened Dicts
  import opened Json
  import Utils
  import opened Adjacency
  import L = LegacyGraph
  import KeyWalk

  /* ---------------------------------------------------------------------
     replace_callback
     --------------------------------------------------------------------- */

  /** An argument that holds a callback: a dictionary with a `callback` key. */
  predicate IsCallback(v: Json) {
    v.JObj? && HasKey(v.entries, "callback")
  }

  /** The placeholder the walk leaves where a callback was. */
  const CallbackNone: Json := JObj([("callback", JNull)])

  /** A process dictionary with a dictionary under `arguments`. */
  predicate HasArgs(c: Json) {
    Field(c, "arguments").Some? && Field(c, "arguments").value.JObj?
  }

  function ArgsOf(c: Json): Dict<string, Json>
    requires HasArgs(c)
  {
    Field(c, "arguments").value.entries
  }

  /** Every argument that holds a callback replaced by `value`. */
  function ReplaceAll(args: Dict<string, Json>, value: Json): (r: Dict<string, Json>)
    ensures |r| == |args|
    ensures forall i | 0 <= i < |args| :: r[i].0 == args[i].0
    ensures forall i | 0 <= i < |args| && !IsCallback(args[i].1) :: r[i].1 == args[i].1
    ensures forall i | 0 <= i < |args| && IsCallback(args[i].1) :: r[i].1 == value
  {
    seq(|args|, i requires 0 <= i < |args| => (args[i].0, if IsCallback(args[i].1) then value else args[i].1))
  }

  /** `replace_callback(pg_graph, value)`: the arguments holding a
      callback are set to `value` in place; the content must be a
      dictionary whose `arguments` is a dictionary. */
  function ReplaceCallback(c: Json, value: Json): (r: Result<Json>)
    ensures r.Ok? <==> HasArgs(c)
    ensures r.Ok? ==> r.value.JObj? && Keys(r.value.entries) == Keys(c.entries)
    ensures r.Ok? ==> forall k | k != "arguments" :: Field(r.value, k) == Field(c, k)
    ensures r.Ok? ==> HasArgs(r.value) && ArgsOf(r.value) == ReplaceAll(ArgsOf(c), value)
  {
    if !HasArgs(c) then
      if c.JObj? && HasKey(c.entries, "arguments") then Err(BadType) else Err(MissingKey)
    else
      Ok(JObj(Put(c.entries, "arguments", JObj(ReplaceAll(ArgsOf(c), value)))))
  }

  /** No argument holds a callback other than `value`. */
  predicate Trimmed(c: Json, value: Json) {
    HasArgs(c) && forall i | 0 <= i < |ArgsOf(c)| :: IsCallback(ArgsOf(c)[i].1) ==> ArgsOf(c)[i].1 == value
  }

  /** After `replace_callback` the only callbacks left are the value
      itself, and a second call with the same value changes nothing. */
  lemma ReplaceCallbackSettles(c: Json, value: Json)
    requires ReplaceCallback(c, value).Ok?
    ensures Trimmed(ReplaceCallback(c, value).value, value)
    ensures ReplaceCallback(ReplaceCallback(c, value).value, value) == ReplaceCallback(c, value)
  {
    var c1 := ReplaceCallback(c, value).value;
    assert ReplaceAll(ArgsOf(c1), value) == ArgsOf(c1);
    PutExisting(c1.entries, "arguments", JObj(ArgsOf(c1)));
  }

  /* ---------------------------------------------------------------------
     walk_pg_graph
     --------------------------------------------------------------------- */

  /** `secrets.token_hex(nbytes=8)` as a parameter: the token of the n-th
      node created, sixteen characters long and different from every
      other token drawn. */
  ghost predicate Tokens(tok: nat -> string) {
    (forall n :: |tok(n)| == 16) && (forall m, n | m != n :: tok(m) != tok(n))
  }

  /** A node id: the key the process was found under, "_", and a token. */
  function NodeId(key: string, token: string): string {
    key + "_" + token
  }

  /** Tokens of one length can be read back from the ids, so different
      tokens give different ids whatever the keys. */
  lemma NodeIdToken(k1: string, t1: string, k2: string, t2: string)
    requires |t1| == |t2| && NodeId(k1, t1) == NodeId(k2, t2)
    ensures t1 == t2
  {
    var s := NodeId(k1, t1);
    assert s[|s| - |t1|..] == t1;
    assert s[|s| - |t2|..] == t2;
  }

  /** A dictionary the walk turns into a node. */
  predicate IsProcess(v: Json) {
    v.JObj? && HasKey(v.entries, "process_id")
  }

  /** The last node id on a list of optional ids: its position, with no
      id after it. */
  lemma {:induction false} SomesLastAt(xs: seq<Option<string>>) returns (j: nat)
    requires Somes(xs) != []
    ensures j < |xs| && xs[j] == Some(Somes(xs)[|Somes(xs)| - 1])
    ensures forall k | j < k < |xs| :: xs[k].None?
    decreases |xs|
  {
    var rest := xs[1..];
    if Somes(rest) != [] {
      var j' := SomesLastAt(rest);
      j := j' + 1;
      assert xs[j] == rest[j'];
      forall k | j < k < |xs| ensures xs[k].None? {
        assert xs[k] == rest[k - 1];
      }
    } else {
      assert forall x :: Some(x) !in rest;
      forall k | 0 < k < |xs| ensures xs[k].None? {
        assert xs[k] == rest[k - 1] && xs[k] in rest;
      }
      assert xs[0].Some? && Somes(xs) == [xs[0].value];
      j := 0;
    }
  }

  lemma SomesLast(xs: seq<Option<string>>)
    requires Somes(xs) != []
    ensures exists j | 0 <= j < |xs| :: (xs[j] == Some(Somes(xs)[|Somes(xs)| - 1]) &&
      forall k | j < k < |xs| :: xs[k].None?)
  {
    var j := SomesLastAt(xs);
  }

  /** The nearest enclosing node on the list the walk keeps of the
      dictionaries it is inside (an entry per dictionary: the node's id,
      or none for a dictionary that is not a process): the last entry
      that is a node.  The empty list means top level; a nonempty list
      without any node makes the source's `[-1]` fail. */
  function Enclosing(stack: seq<Option<string>>): (r: Result<Option<string>>)
    ensures r.Err? <==> stack != [] && Somes(stack) == []
    ensures r == Ok(None) <==> stack == []
    ensures r.Ok? && r.value.Some? ==> exists j | 0 <= j < |stack| :: (stack[j] == r.value &&
      forall k | j < k < |stack| :: stack[k].None?)
  {
    if stack == [] then Ok(None)
    else
      var ps := Somes(stack);
      if ps == [] then Err(BadIndex)
      else
        SomesLast(stack);
        Ok(Some(ps[|ps| - 1]))
  }

  /** The callback edge from a node to its enclosing node. */
  function CallbackEdge(id: string, p: string): Edge {
    Edge(id + "_" + p, "callback", id, p, false)
  }

  /** Some node has a callback edge to `p` on its list. */
  predicate HasChild(adj: Adj, p: string) {
    exists x | x in adj :: exists e | e in adj[x] :: e.name == "callback" && e.dst == p
  }

  /** What the walk does on meeting the process dictionary `value` under
      `key`: a node with the next token, stored under its id (an id met
      before would keep its position); below another node, a callback edge
      to the nearest enclosing node on the new node's own list only, and
      that node's callback arguments replaced by the placeholder. */
  function AddNode(tok: nat -> string, g: L.Graph, key: string, value: Json, stack: seq<Option<string>>): (r: Result<(L.Graph, string)>)
    ensures r.Ok? ==> r.value.1 == NodeId(key, tok(|g.ids|))
    ensures r.Ok? <==> Enclosing(stack).Ok? && (Enclosing(stack).value.Some? ==>
      Enclosing(stack).value.value in g.nodes && HasArgs(g.nodes[Enclosing(stack).value.value].content))
  {
    var id := NodeId(key, tok(|g.ids|));
    var up :- Enclosing(stack);
    var g1 :- (match up
      case None => Ok(L.Graph(g.ids, g.nodes, g.adj[id := []]))
      case Some(p) =>
        if p !in g.nodes then Err(MissingKey)
        else
          var c :- ReplaceCallback(g.nodes[p].content, CallbackNone);
          Ok(L.Graph(g.ids, g.nodes[p := g.nodes[p].(content := c)], g.adj[id := [CallbackEdge(id, p)]])));
    Ok((L.Graph(if id in g1.nodes then g1.ids else g1.ids + [id], g1.nodes[id := L.Node(id, key, value)], g1.adj), id))
  }

  /** A dictionary value met by the walk: a node for a process
      dictionary, nothing otherwise; and the entry the walk pushes on its
      list for it. */
  function Visit(tok: nat -> string, g: L.Graph, key: string, value: Json, stack: seq<Option<string>>): (r: Result<(L.Graph, Option<string>)>)
    ensures !IsProcess(value) ==> r == Ok((g, None))
    ensures IsProcess(value) ==> (r.Ok? <==> AddNode(tok, g, key, value, stack).Ok?)
    ensures IsProcess(value) && r.Ok? ==> r.value == (AddNode(tok, g, key, value, stack).value.0, Some(AddNode(tok, g, key, value, stack).value.1))
  {
    if IsProcess(value) then
      var a :- AddNode(tok, g, key, value, stack);
      Ok((a.0, Some(a.1)))
    else Ok((g, None))
  }

  /** Whether the walk, iterating over the `arguments` of the node
      `owner`, finds a callback argument already replaced by the
      placeholder (which holds no dictionary, so nothing is found below
      it).  The source iterates over the live dictionary, and the first
      node created below `owner` replaces every callback argument at once
      (`AsWritten`); `AsIntended` walks the document as it was given. */
  predicate Replaced(v: Version, adj: Adj, owner: Option<string>, orig: Json) {
    v.AsWritten? && owner.Some? && HasChild(adj, owner.value) && IsCallback(orig)
  }

  /** `walk_pg_graph` over the entries `data[i..]` of a dictionary:
      `stack` lists the dictionaries it is inside, `self` is the node
      `data` is the content of, and `owner` the node whose `arguments`
      `data` is.  Only dictionary values are entered; lists are not. */
  function Loop(v: Version, tok: nat -> string, g: L.Graph, data: Json, i: nat,
                stack: seq<Option<string>>, self: Option<string>, owner: Option<string>): (r: Result<L.Graph>)
    requires data.JObj? && i <= |data.entries|
    decreases data, |data.entries| - i
  {
    if i == |data.entries| then Ok(g)
    else
      match data
      case JObj(es) =>
        var key := es[i].0;
        if !es[i].1.JObj? || Replaced(v, g.adj, owner, es[i].1) then Loop(v, tok, g, data, i + 1, stack, self, owner)
        else
          var step :- Visit(tok, g, key, es[i].1, stack);
          var g2 :- Loop(v, tok, step.0, es[i].1, 0, stack + [step.1], step.1, if key == "arguments" then self else None);
          Loop(v, tok, g2, data, i + 1, stack, self, owner)
  }

  /** `walk_pg_graph(nodes, data)` on a whole document, from an empty
      node dictionary. */
  function WalkPgGraph(v: Version, tok: nat -> string, doc: Json): (r: Result<L.Graph>)
    ensures !doc.JObj? ==> r == Err(BadType)
  {
    if !doc.JObj? then Err(BadType)
    else Loop(v, tok, L.Graph([], map[], map[]), doc, 0, [], None, None)
  }

  /* ---------------------------------------------------------------------
     What the walk builds
     --------------------------------------------------------------------- */

  /** The process dictionaries below `v` that a walk entering only
      dictionary values meets. */
  function Processes(v: Json): nat
    decreases v, 1
  {
    if v.JObj? then ProcessesFrom(v, 0) else 0
  }

  function ProcessesFrom(v: Json, i: nat): nat
    requires v.JObj? && i <= |v.entries|
    decreases v, 0, |v.entries| - i
  {
    if i == |v.entries| then 0
    else
      match v
      case JObj(es) =>
        (if es[i].1.JObj? then (if IsProcess(es[i].1) then 1 else 0) + Processes(es[i].1) else 0)
        + ProcessesFrom(v, i + 1)
  }

  /** `a` comes before `b` in `ids`. */
  predicate Before(ids: seq<string>, a: string, b: string) {
    exists i, j | 0 <= i < j < |ids| :: ids[i] == a && ids[j] == b
  }

  /** What holds of the nodes built so far: one entry per id, the j-th
      node's id made from its key and the j-th token, every node's edge
      list empty or a single callback edge from it to an earlier node, and
      every node with a callback child left without callbacks but the
      placeholder. */
  ghost predicate Built(tok: nat -> string, g: L.Graph) {
    IdsOk(g) && Named(tok, g) && EdgesOk(g) && TrimOk(g)
  }

  ghost predicate IdsOk(g: L.Graph) {
    NoDup(g.ids) &&
    (forall x | x in g.ids :: x in g.nodes) &&
    (forall x | x in g.nodes :: x in g.ids && g.nodes[x].id == x)
  }

  ghost predicate Named(tok: nat -> string, g: L.Graph)
    requires IdsOk(g)
  {
    forall j | 0 <= j < |g.ids| :: g.ids[j] == NodeId(g.nodes[g.ids[j]].name, tok(j))
  }

  ghost predicate EdgesOk(g: L.Graph) {
    forall x | x in g.adj :: x in g.nodes && |g.adj[x]| <= 1 &&
      forall e | e in g.adj[x] :: e == CallbackEdge(x, e.dst) && e.dst in g.nodes && Before(g.ids, e.dst, x)
  }

  ghost predicate TrimOk(g: L.Graph) {
    forall p | p in g.nodes && HasChild(g.adj, p) :: Trimmed(g.nodes[p].content, CallbackNone)
  }

  /** How a later state of the walk relates to an earlier one: ids are
      only appended, nodes keep id and name, a node's content changes only
      by the placeholder replacement, which happens when it gains its first
      callback child, and edge lists of earlier nodes stay as they are. */
  ghost predicate Grown(g: L.Graph, g': L.Graph) {
    g.ids <= g'.ids &&
    (forall q | q in g.nodes :: q in g'.nodes && g'.nodes[q].id == g.nodes[q].id &&
       g'.nodes[q].name == g.nodes[q].name &&
       (g'.nodes[q].content == g.nodes[q].content ||
        (HasChild(g'.adj, q) && ReplaceCallback(g.nodes[q].content, CallbackNone) == Ok(g'.nodes[q].content)))) &&
    (forall q | q in g.nodes && HasChild(g'.adj, q) && !HasChild(g.adj, q) ::
       ReplaceCallback(g.nodes[q].content, CallbackNone) == Ok(g'.nodes[q].content)) &&
    (forall q | q in g.adj :: q in g'.adj && g'.adj[q] == g.adj[q])
  }

  lemma GrownRefl(g: L.Graph)
    ensures Grown(g, g)
  {
  }

  lemma GrownTrans(g1: L.Graph, g2: L.Graph, g3: L.Graph)
    requires Grown(g1, g2) && Grown(g2, g3)
    ensures Grown(g1, g3)
  {
    forall q | q in g1.adj ensures HasChild(g1.adj, q) ==> HasChild(g2.adj, q) {
      if HasChild(g1.adj, q) {
        var x, e :| x in g1.adj && e in g1.adj[x] && e.name == "callback" && e.dst == q;
        assert x in g2.adj && e in g2.adj[x];
      }
    }
    forall q | q in g1.nodes
      ensures (g3.nodes[q].content == g1.nodes[q].content ||
        (HasChild(g3.adj, q) && ReplaceCallback(g1.nodes[q].content, CallbackNone) == Ok(g3.nodes[q].content)))
      ensures HasChild(g3.adj, q) && !HasChild(g1.adj, q) ==>
        ReplaceCallback(g1.nodes[q].content, CallbackNone) == Ok(g3.nodes[q].content)
    {
      var c1, c2, c3 := g1.nodes[q].content, g2.nodes[q].content, g3.nodes[q].content;
      HasChildGrows(g1.adj, g2.adj, q);
      HasChildGrows(g2.adj, g3.adj, q);
      if c2 != c1 {
        ReplaceCallbackSettles(c1, CallbackNone);
      }
    }
  }

  /** A callback child stays a callback child when edge lists only gain
      new nodes. */
  lemma HasChildGrows(adj: Adj, adj': Adj, p: string)
    requires forall q | q in adj :: q in adj' && adj'[q] == adj[q]
    ensures HasChild(adj, p) ==> HasChild(adj', p)
  {
    if HasChild(adj, p) {
      var x, e :| x in adj && e in adj[x] && e.name == "callback" && e.dst == p;
      assert x in adj' && e in adj'[x];
    }
  }

  /** With fresh tokens the next id is new. */
  lemma NextIdFresh(tok: nat -> string, g: L.Graph, key: string)
    requires Tokens(tok) && Built(tok, g)
    ensures NodeId(key, tok(|g.ids|)) !in g.nodes
  {
    var id := NodeId(key, tok(|g.ids|));
    if id in g.nodes {
      var j :| 0 <= j < |g.ids| && g.ids[j] == id;
      NodeIdToken(g.nodes[g.ids[j]].name, tok(j), key, tok(|g.ids|));
    }
  }

  /** The nodes after one more is stored under a fresh id. */
  lemma AddIds(tok: nat -> string, g: L.Graph, g': L.Graph, id: string, key: string)
    requires IdsOk(g) && Named(tok, g) && id !in g.nodes && id == NodeId(key, tok(|g.ids|))
    requires g'.ids == g.ids + [id] && g'.nodes.Keys == g.nodes.Keys + {id}
    requires g'.nodes[id].id == id && g'.nodes[id].name == key
    requires forall q | q in g.nodes :: g'.nodes[q].id == g.nodes[q].id && g'.nodes[q].name == g.nodes[q].name
    ensures IdsOk(g') && Named(tok, g')
  {
    assert forall j | 0 <= j < |g.ids| :: g'.ids[j] == g.ids[j] && g'.ids[j] != id;
  }

  /** Callback children after a fresh node joins with edge list `es`. */
  lemma HasChildAdd(adj: Adj, id: string, es: seq<Edge>, q: string)
    requires id !in adj
    ensures HasChild(adj[id := es], q) <==> HasChild(adj, q) || exists e | e in es :: e.name == "callback" && e.dst == q
  {
    HasChildGrows(adj, adj[id := es], q);
    if HasChild(adj[id := es], q) {
      var x, e :| x in adj[id := es] && e in adj[id := es][x] && e.name == "callback" && e.dst == q;
      if x != id { assert x in adj && e in adj[x]; }
    }
    if exists e | e in es :: e.name == "callback" && e.dst == q {
      var e :| e in es && e.name == "callback" && e.dst == q;
      assert id in adj[id := es] && e in adj[id := es][id];
    }
  }

  lemma HasChildAddOne(adj: Adj, id: string, e: Edge, q: string)
    requires id !in adj
    ensures HasChild(adj[id := [e]], q) <==> HasChild(adj, q) || (e.name == "callback" && e.dst == q)
  {
    HasChildAdd(adj, id, [e], q);
    assert e in [e];
  }

  /** The edge lists after a fresh node joins with no edge or with a
      callback edge to an existing node. */
  lemma AddEdges(g: L.Graph, g': L.Graph, id: string, es: seq<Edge>)
    requires IdsOk(g) && EdgesOk(g) && id !in g.nodes
    requires g'.ids == g.ids + [id] && g'.nodes.Keys == g.nodes.Keys + {id} && g'.adj == g.adj[id := es]
    requires es == [] || (|es| == 1 && es[0] == CallbackEdge(id, es[0].dst) && es[0].dst in g.nodes)
    ensures EdgesOk(g')
  {
    forall x | x in g'.adj
      ensures forall e | e in g'.adj[x] :: e == CallbackEdge(x, e.dst) && e.dst in g'.nodes && Before(g'.ids, e.dst, x)
    {
      forall e | e in g'.adj[x] ensures Before(g'.ids, e.dst, x) {
        if x == id {
          var a :| 0 <= a < |g.ids| && g.ids[a] == e.dst;
          assert g'.ids[a] == e.dst && g'.ids[|g.ids|] == id;
        } else {
          var a, b :| 0 <= a < b < |g.ids| && g.ids[a] == e.dst && g.ids[b] == x;
          assert g'.ids[a] == e.dst && g'.ids[b] == x;
        }
      }
    }
  }

  /** A node added at top level keeps everything the walk promises. */
  lemma AddTopBuilds(tok: nat -> string, g: L.Graph, key: string, value: Json, id: string)
    requires Tokens(tok) && Built(tok, g) && id == NodeId(key, tok(|g.ids|))
    ensures id !in g.nodes
    ensures Built(tok, L.Graph(g.ids + [id], g.nodes[id := L.Node(id, key, value)], g.adj[id := []]))
    ensures Grown(g, L.Graph(g.ids + [id], g.nodes[id := L.Node(id, key, value)], g.adj[id := []]))
  {
    NextIdFresh(tok, g, key);
    var g' := L.Graph(g.ids + [id], g.nodes[id := L.Node(id, key, value)], g.adj[id := []]);
    AddIds(tok, g, g', id, key);
    AddEdges(g, g', id, []);
    forall q ensures HasChild(g'.adj, q) == HasChild(g.adj, q) {
      HasChildAdd(g.adj, id, [], q);
    }
  }

  /** A node added below the node `p` keeps everything the walk promises. */
  lemma AddBelowBuilds(tok: nat -> string, g: L.Graph, key: string, value: Json, id: string, p: string, c: Json)
    requires Tokens(tok) && Built(tok, g) && id == NodeId(key, tok(|g.ids|))
    requires p in g.nodes && ReplaceCallback(g.nodes[p].content, CallbackNone) == Ok(c)
    ensures id !in g.nodes
    ensures Built(tok, L.Graph(g.ids + [id], g.nodes[p := g.nodes[p].(content := c)][id := L.Node(id, key, value)],
                               g.adj[id := [CallbackEdge(id, p)]]))
    ensures Grown(g, L.Graph(g.ids + [id], g.nodes[p := g.nodes[p].(content := c)][id := L.Node(id, key, value)],
                             g.adj[id := [CallbackEdge(id, p)]]))
  {
    NextIdFresh(tok, g, key);
    var g' := L.Graph(g.ids + [id], g.nodes[p := g.nodes[p].(content := c)][id := L.Node(id, key, value)],
                      g.adj[id := [CallbackEdge(id, p)]]);
    AddIds(tok, g, g', id, key);
    AddEdges(g, g', id, [CallbackEdge(id, p)]);
    forall q ensures HasChild(g'.adj, q) == (HasChild(g.adj, q) || q == p) {
      HasChildAddOne(g.adj, id, CallbackEdge(id, p), q);
    }
    AddBelowTrim(g, g', id, p, c);
    AddBelowGrown(g, g', id, p, c);
  }

  /** After a node joins below `p`, every node with a callback child is
      still trimmed. */
  lemma AddBelowTrim(g: L.Graph, g': L.Graph, id: string, p: string, c: Json)
    requires EdgesOk(g) && TrimOk(g) && id !in g.nodes && p in g.nodes
    requires ReplaceCallback(g.nodes[p].content, CallbackNone) == Ok(c)
    requires g'.nodes.Keys == g.nodes.Keys + {id} && g'.nodes[p] == g.nodes[p].(content := c)
    requires forall q | q in g.nodes && q != p :: g'.nodes[q] == g.nodes[q]
    requires forall q :: HasChild(g'.adj, q) == (HasChild(g.adj, q) || q == p)
    ensures TrimOk(g')
  {
    ReplaceCallbackSettles(g.nodes[p].content, CallbackNone);
    forall q | q in g'.nodes && HasChild(g'.adj, q) ensures Trimmed(g'.nodes[q].content, CallbackNone) {
    }
  }

  /** The state after a node joins below `p` has grown from the one
      before. */
  lemma AddBelowGrown(g: L.Graph, g': L.Graph, id: string, p: string, c: Json)
    requires id !in g.adj && p in g.nodes && ReplaceCallback(g.nodes[p].content, CallbackNone) == Ok(c)
    requires g'.ids == g.ids + [id] && g'.adj == g.adj[id := [CallbackEdge(id, p)]]
    requires g'.nodes.Keys == g.nodes.Keys + {id} && g'.nodes[p] == g.nodes[p].(content := c)
    requires forall q | q in g.nodes && q != p :: g'.nodes[q] == g.nodes[q]
    requires forall q :: HasChild(g'.adj, q) == (HasChild(g.adj, q) || q == p)
    ensures Grown(g, g')
  {
    assert g.ids <= g'.ids;
  }

  /** Creating a node keeps everything the walk promises; the new node's
      edge list is a callback edge to the nearest enclosing node, or empty
      at top level. */
  lemma AddNodeBuilds(tok: nat -> string, g: L.Graph, key: string, value: Json, stack: seq<Option<string>>)
    requires Tokens(tok) && Built(tok, g) && AddNode(tok, g, key, value, stack).Ok?
    ensures Built(tok, AddNode(tok, g, key, value, stack).value.0)
    ensures Grown(g, AddNode(tok, g, key, value, stack).value.0)
    ensures AddNode(tok, g, key, value, stack).value.0.ids == g.ids + [AddNode(tok, g, key, value, stack).value.1]
  {
    var id := NodeId(key, tok(|g.ids|));
    NextIdFresh(tok, g, key);
    match Enclosing(stack).value
    case None =>
      AddTopBuilds(tok, g, key, value, id);
    case Some(p) =>
      AddBelowBuilds(tok, g, key, value, id, p, ReplaceCallback(g.nodes[p].content, CallbackNone).value);
  }

  /** Meeting a dictionary keeps everything the walk promises and adds
      one node exactly for a process dictionary. */
  lemma VisitBuilds(tok: nat -> string, g: L.Graph, key: string, value: Json, stack: seq<Option<string>>)
    requires Tokens(tok) && Built(tok, g) && Visit(tok, g, key, value, stack).Ok?
    ensures Built(tok, Visit(tok, g, key, value, stack).value.0)
    ensures Grown(g, Visit(tok, g, key, value, stack).value.0)
    ensures |Visit(tok, g, key, value, stack).value.0.ids| == |g.ids| + (if IsProcess(value) then 1 else 0)
  {
    if IsProcess(value) {
      AddNodeBuilds(tok, g, key, value, stack);
    } else {
      GrownRefl(g);
    }
  }

  /** The walk keeps everything it promises. */
  lemma {:induction false} LoopBuilds(v: Version, tok: nat -> string, g: L.Graph, data: Json, i: nat,
                                      stack: seq<Option<string>>, self: Option<string>, owner: Option<string>)
    requires Tokens(tok) && Built(tok, g) && data.JObj? && i <= |data.entries|
    requires Loop(v, tok, g, data, i, stack, self, owner).Ok?
    ensures Built(tok, Loop(v, tok, g, data, i, stack, self, owner).value)
    decreases data, |data.entries| - i
  {
    if i < |data.entries| {
      match data
      case JObj(es) =>
        var key := es[i].0;
        if !es[i].1.JObj? || Replaced(v, g.adj, owner, es[i].1) {
          LoopBuilds(v, tok, g, data, i + 1, stack, self, owner);
        } else {
          var step := Visit(tok, g, key, es[i].1, stack).value;
          VisitBuilds(tok, g, key, es[i].1, stack);
          var owner' := if key == "arguments" then self else None;
          LoopBuilds(v, tok, step.0, es[i].1, 0, stack + [step.1], step.1, owner');
          var g2 := Loop(v, tok, step.0, es[i].1, 0, stack + [step.1], step.1, owner').value;
          LoopBuilds(v, tok, g2, data, i + 1, stack, self, owner);
        }
    }
  }

  /** The walk only adds: earlier nodes keep their place, name and edges,
      and a node's content changes only by the callback replacement when
      it gains a child. */
  lemma {:induction false} LoopGrows(v: Version, tok: nat -> string, g: L.Graph, data: Json, i: nat,
                                     stack: seq<Option<string>>, self: Option<string>, owner: Option<string>)
    requires Tokens(tok) && Built(tok, g) && data.JObj? && i <= |data.entries|
    requires Loop(v, tok, g, data, i, stack, self, owner).Ok?
    ensures Grown(g, Loop(v, tok, g, data, i, stack, self, owner).value)
    decreases data, |data.entries| - i, 1
  {
    if i == |data.entries| {
      GrownRefl(g);
    } else {
      var e := data.entries[i];
      if !e.1.JObj? || Replaced(v, g.adj, owner, e.1) {
        LoopGrows(v, tok, g, data, i + 1, stack, self, owner);
      } else {
        LoopGrowsEntered(v, tok, g, data, i, stack, self, owner);
      }
    }
  }

  /** `LoopGrows` at an entry the walk enters. */
  lemma {:induction false} LoopGrowsEntered(v: Version, tok: nat -> string, g: L.Graph, data: Json, i: nat,
                                            stack: seq<Option<string>>, self: Option<string>, owner: Option<string>)
    requires Tokens(tok) && Built(tok, g) && data.JObj? && i < |data.entries|
    requires data.entries[i].1.JObj? && !Replaced(v, g.adj, owner, data.entries[i].1)
    requires Loop(v, tok, g, data, i, stack, self, owner).Ok?
    ensures Grown(g, Loop(v, tok, g, data, i, stack, self, owner).value)
    decreases data, |data.entries| - i, 0
  {
    var key := data.entries[i].0;
    var child := data.entries[i].1;
    assert child < data;
    var step := Visit(tok, g, key, child, stack).value;
    VisitBuilds(tok, g, key, child, stack);
    var owner' := if key == "arguments" then self else None;
    LoopBuilds(v, tok, step.0, child, 0, stack + [step.1], step.1, owner');
    LoopGrows(v, tok, step.0, child, 0, stack + [step.1], step.1, owner');
    var g2 := Loop(v, tok, step.0, child, 0, stack + [step.1], step.1, owner').value;
    var r := Loop(v, tok, g2, data, i + 1, stack, self, owner).value;
    assert Loop(v, tok, g, data, i, stack, self, owner) == Loop(v, tok, g2, data, i + 1, stack, self, owner);
    LoopGrows(v, tok, g2, data, i + 1, stack, self, owner);
    GrownTrans(g, step.0, g2);
    GrownTrans(g, g2, r);
  }

  /** As intended the walk creates one node per process dictionary it can
      reach through dictionaries; as written never more. */
  lemma {:induction false} LoopCount(v: Version, tok: nat -> string, g: L.Graph, data: Json, i: nat,
                                     stack: seq<Option<string>>, self: Option<string>, owner: Option<string>)
    requires Tokens(tok) && Built(tok, g) && data.JObj? && i <= |data.entries|
    requires Loop(v, tok, g, data, i, stack, self, owner).Ok?
    ensures v.AsIntended? ==> |Loop(v, tok, g, data, i, stack, self, owner).value.ids| == |g.ids| + ProcessesFrom(data, i)
    ensures |Loop(v, tok, g, data, i, stack, self, owner).value.ids| <= |g.ids| + ProcessesFrom(data, i)
    decreases data, |data.entries| - i, 1
  {
    if i < |data.entries| {
      var e := data.entries[i];
      if !e.1.JObj? || Replaced(v, g.adj, owner, e.1) {
        LoopCount(v, tok, g, data, i + 1, stack, self, owner);
        assert ProcessesFrom(data, i) >= ProcessesFrom(data, i + 1);
      } else {
        LoopCountEntered(v, tok, g, data, i, stack, self, owner);
      }
    }
  }

  /** `LoopCount` at an entry the walk enters. */
  lemma {:induction false} LoopCountEntered(v: Version, tok: nat -> string, g: L.Graph, data: Json, i: nat,
                                            stack: seq<Option<string>>, self: Option<string>, owner: Option<string>)
    requires Tokens(tok) && Built(tok, g) && data.JObj? && i < |data.entries|
    requires data.entries[i].1.JObj? && !Replaced(v, g.adj, owner, data.entries[i].1)
    requires Loop(v, tok, g, data, i, stack, self, owner).Ok?
    ensures v.AsIntended? ==> |Loop(v, tok, g, data, i, stack, self, owner).value.ids| == |g.ids| + ProcessesFrom(data, i)
    ensures |Loop(v, tok, g, data, i, stack, self, owner).value.ids| <= |g.ids| + ProcessesFrom(data, i)
    decreases data, |data.entries| - i, 0
  {
    var key := data.entries[i].0;
    var child := data.entries[i].1;
    assert child < data;
    var step := Visit(tok, g, key, child, stack).value;
    VisitBuilds(tok, g, key, child, stack);
    var owner' := if key == "arguments" then self else None;
    LoopBuilds(v, tok, step.0, child, 0, stack + [step.1], step.1, owner');
    LoopCount(v, tok, step.0, child, 0, stack + [step.1], step.1, owner');
    var g2 := Loop(v, tok, step.0, child, 0, stack + [step.1], step.1, owner').value;
    LoopCount(v, tok, g2, data, i + 1, stack, self, owner);
    assert Loop(v, tok, g, data, i, stack, self, owner) == Loop(v, tok, g2, data, i + 1, stack, self, owner);
    assert ProcessesFrom(data, i) ==
      (if IsProcess(child) then 1 else 0) + ProcessesFrom(child, 0) + ProcessesFrom(data, i + 1);
  }

  /** What the walk keeps is a well-formed graph. */
  lemma BuiltWf(tok: nat -> string, g: L.Graph)
    requires Built(tok, g)
    ensures L.Wf(g)
  {
    forall x, i | x in g.adj && 0 <= i < |g.adj[x]|
      ensures g.adj[x][i].src in g.nodes.Keys && g.adj[x][i].dst in g.nodes.Keys
    {
      assert g.adj[x][i] in g.adj[x];
    }
  }

  /** The walk over a whole document yields a well-formed graph whose
      j-th node is named after its key and carries the j-th token, whose
      nodes each have at most a callback edge to a node created before
      them, and whose nodes with callback children have had their callback
      arguments replaced.  As intended it has one node per process
      dictionary reachable through dictionaries; as written at most that
      many. */
  lemma WalkPgGraphBuilds(v: Version, tok: nat -> string, doc: Json)
    requires Tokens(tok) && WalkPgGraph(v, tok, doc).Ok?
    ensures Built(tok, WalkPgGraph(v, tok, doc).value)
    ensures L.Wf(WalkPgGraph(v, tok, doc).value)
    ensures v.AsIntended? ==> |WalkPgGraph(v, tok, doc).value.ids| == Processes(doc)
    ensures |WalkPgGraph(v, tok, doc).value.ids| <= Processes(doc)
  {
    var g0 := L.Graph([], map[], map[]);
    assert Built(tok, g0);
    LoopBuilds(v, tok, g0, doc, 0, [], None, None);
    LoopCount(v, tok, g0, doc, 0, [], None, None);
    BuiltWf(tok, WalkPgGraph(v, tok, doc).value);
  }

  /* A process `p` with two callback arguments `a` and `b`, holding the
     processes `q` and `r`. */
  const ProcQ: Json := JObj([("process_id", JStr("y"))])
  const ProcR: Json := JObj([("process_id", JStr("z"))])
  const CallbackA: Json := JObj([("callback", JObj([("q", ProcQ)]))])
  const CallbackB: Json := JObj([("callback", JObj([("r", ProcR)]))])
  const ArgsP: Json := JObj([("a", CallbackA), ("b", CallbackB)])
  const ProcP: Json := JObj([("process_id", JStr("x")), ("arguments", ArgsP)])
  const TwoCallbacks: Json := JObj([("p", ProcP)])

  /** `p` with both callback arguments replaced by the placeholder. */
  const TrimmedP: Json := JObj([("process_id", JStr("x")), ("arguments", JObj([("a", CallbackNone), ("b", CallbackNone)]))])

  /** Three tokens, in the order they are drawn. */
  function Tok3(n: nat): string {
    if n == 0 then "A" else if n == 1 then "B" else "C"
  }

  lemma TrimP()
    ensures ReplaceCallback(ProcP, CallbackNone) == Ok(TrimmedP)
    ensures ReplaceCallback(TrimmedP, CallbackNone) == Ok(TrimmedP)
  {
    var trimmedArgs := [("a", CallbackNone), ("b", CallbackNone)];
    assert IndexOf(ProcP.entries, "arguments") == 1 by {
      assert ProcP.entries[1].0 == "arguments";
    }
    assert HasArgs(ProcP) && ArgsOf(ProcP) == ArgsP.entries;
    assert IsCallback(CallbackA) by { assert CallbackA.entries[0].0 == "callback"; }
    assert IsCallback(CallbackB) by { assert CallbackB.entries[0].0 == "callback"; }
    assert IsCallback(CallbackNone) by { assert CallbackNone.entries[0].0 == "callback"; }
    assert ReplaceAll(ArgsP.entries, CallbackNone) == trimmedArgs;
    assert Put(ProcP.entries, "arguments", JObj(trimmedArgs)) == ProcP.entries[1 := ("arguments", JObj(trimmedArgs))];
    assert ProcP.entries[1 := ("arguments", JObj(trimmedArgs))] == TrimmedP.entries;
    assert IndexOf(TrimmedP.entries, "arguments") == 1 by {
      assert TrimmedP.entries[1].0 == "arguments";
    }
    assert HasArgs(TrimmedP) && ArgsOf(TrimmedP) == trimmedArgs;
    assert ReplaceAll(trimmedArgs, CallbackNone) == trimmedArgs;
    assert Put(TrimmedP.entries, "arguments", JObj(trimmedArgs)) == TrimmedP.entries[1 := ("arguments", JObj(trimmedArgs))];
    assert TrimmedP.entries[1 := ("arguments", JObj(trimmedArgs))] == TrimmedP.entries;
  }

  /** The graph after `p`, and after `q` below it. */
  function WalkedP(): L.Graph {
    L.Graph(["p_A"], map["p_A" := L.Node("p_A", "p", ProcP)], map["p_A" := []])
  }

  function WalkedQ(): L.Graph {
    L.Graph(["p_A", "q_B"], map["p_A" := L.Node("p_A", "p", TrimmedP), "q_B" := L.Node("q_B", "q", ProcQ)],
      map["p_A" := [], "q_B" := [CallbackEdge("q_B", "p_A")]])
  }

  function WalkedR(): L.Graph {
    L.Graph(["p_A", "q_B", "r_C"],
      map["p_A" := L.Node("p_A", "p", TrimmedP), "q_B" := L.Node("q_B", "q", ProcQ), "r_C" := L.Node("r_C", "r", ProcR)],
      map["p_A" := [], "q_B" := [CallbackEdge("q_B", "p_A")], "r_C" := [CallbackEdge("r_C", "p_A")]])
  }

  lemma AddP()
    ensures AddNode(Tok3, L.Graph([], map[], map[]), "p", ProcP, []) == Ok((WalkedP(), "p_A"))
  {
    assert NodeId("p", Tok3(0)) == "p_A";
    var r := AddNode(Tok3, L.Graph([], map[], map[]), "p", ProcP, []);
    assert r.Ok?;
    assert r.value.1 == "p_A";
    assert r.value.0.ids == ["p_A"];
    assert r.value.0.nodes == WalkedP().nodes;
    assert r.value.0.adj == WalkedP().adj;
  }

  /** The list of enclosing dictionaries at `q` and at `r`. */
  const BelowP: seq<Option<string>> := [Some("p_A"), None, None, None]

  lemma EnclosingP()
    ensures Enclosing(BelowP) == Ok(Some("p_A"))
  {
    assert Somes(BelowP) == ["p_A"];
  }

  lemma AddQ()
    ensures AddNode(Tok3, WalkedP(), "q", ProcQ, BelowP) == Ok((WalkedQ(), "q_B"))
  {
    TrimP();
    EnclosingP();
    assert NodeId("q", Tok3(1)) == "q_B";
    var r := AddNode(Tok3, WalkedP(), "q", ProcQ, BelowP);
    assert r.Ok?;
    assert r.value.1 == "q_B";
    assert r.value.0.ids == ["p_A", "q_B"];
    assert r.value.0.nodes == WalkedQ().nodes;
    assert r.value.0.adj == WalkedQ().adj;
  }

  lemma AddR()
    ensures AddNode(Tok3, WalkedQ(), "r", ProcR, BelowP) == Ok((WalkedR(), "r_C"))
  {
    TrimP();
    EnclosingP();
    assert NodeId("r", Tok3(2)) == "r_C";
    var r := AddNode(Tok3, WalkedQ(), "r", ProcR, BelowP);
    assert r.Ok?;
    assert r.value.1 == "r_C";
    assert r.value.0.ids == ["p_A", "q_B", "r_C"];
    assert r.value.0.nodes == WalkedR().nodes;
    assert r.value.0.adj == WalkedR().adj;
  }

  /** The walk down to `q`, the same in both readings. */
  lemma WalkToQ(v: Version)
    ensures Loop(v, Tok3, WalkedP(), CallbackA, 0, [Some("p_A"), None, None], None, None) == Ok(WalkedQ())
  {
    AddQ();
    assert IsProcess(ProcQ) by { assert ProcQ.entries[0].0 == "process_id"; }
    assert Visit(Tok3, WalkedP(), "q", ProcQ, BelowP) == Ok((WalkedQ(), Some("q_B")));
    assert Loop(v, Tok3, WalkedQ(), ProcQ, 1, BelowP + [Some("q_B")], Some("q_B"), None) == Ok(WalkedQ());
    assert Loop(v, Tok3, WalkedQ(), ProcQ, 0, BelowP + [Some("q_B")], Some("q_B"), None) == Ok(WalkedQ());
    var holder := JObj([("q", ProcQ)]);
    assert Loop(v, Tok3, WalkedQ(), holder, 1, BelowP, None, None) == Ok(WalkedQ());
    assert Loop(v, Tok3, WalkedP(), holder, 0, BelowP, None, None) == Ok(WalkedQ());
    assert [Some("p_A"), None, None] + [None] == BelowP;
    assert Loop(v, Tok3, WalkedQ(), CallbackA, 1, [Some("p_A"), None, None], None, None) == Ok(WalkedQ());
  }

  /** `p` has a callback child once `q` exists, and none before. */
  lemma ChildOfP()
    ensures !HasChild(WalkedP().adj, "p_A")
    ensures HasChild(WalkedQ().adj, "p_A")
  {
    assert CallbackEdge("q_B", "p_A") in WalkedQ().adj["q_B"];
  }

  /** The walk from the arguments of `p` up to the document, given what
      the arguments yield. */
  lemma WalkFromArgs(v: Version, g: L.Graph)
    requires Loop(v, Tok3, WalkedP(), ArgsP, 0, [Some("p_A"), None], None, Some("p_A")) == Ok(g)
    ensures WalkPgGraph(v, Tok3, TwoCallbacks) == Ok(g)
  {
    AddP();
    assert IsProcess(ProcP) by { assert ProcP.entries[0].0 == "process_id"; }
    assert Loop(v, Tok3, g, ProcP, 2, [Some("p_A")], Some("p_A"), None) == Ok(g);
    assert !IsProcess(ArgsP);
    assert ProcP.entries[1] == ("arguments", ArgsP);
    assert Visit(Tok3, WalkedP(), "arguments", ArgsP, [Some("p_A")]) == Ok((WalkedP(), None));
    assert [Some("p_A")] + [None] == [Some("p_A"), None];
    assert Loop(v, Tok3, WalkedP(), ProcP, 1, [Some("p_A")], Some("p_A"), None) == Ok(g);
    assert Loop(v, Tok3, WalkedP(), ProcP, 0, [Some("p_A")], Some("p_A"), None) == Ok(g);
    assert Loop(v, Tok3, g, TwoCallbacks, 1, [], None, None) == Ok(g);
    assert Visit(Tok3, L.Graph([], map[], map[]), "p", ProcP, []) == Ok((WalkedP(), Some("p_A")));
    assert [] + [Some("p_A")] == [Some("p_A")];
  }

  /** As written, creating `q` replaces both callback arguments of `p`
      in the dictionary being iterated, so `r` is never reached. */
  lemma SecondCallbackSkipped()
    ensures WalkPgGraph(AsWritten, Tok3, TwoCallbacks) == Ok(WalkedQ())
  {
    WalkToQ(AsWritten);
    ChildOfP();
    assert IsCallback(CallbackB) by { assert CallbackB.entries[0].0 == "callback"; }
    assert Loop(AsWritten, Tok3, WalkedQ(), ArgsP, 2, [Some("p_A"), None], None, Some("p_A")) == Ok(WalkedQ());
    assert Loop(AsWritten, Tok3, WalkedQ(), ArgsP, 1, [Some("p_A"), None], None, Some("p_A")) == Ok(WalkedQ());
    assert [Some("p_A"), None] + [None] == [Some("p_A"), None, None];
    assert Loop(AsWritten, Tok3, WalkedP(), ArgsP, 0, [Some("p_A"), None], None, Some("p_A")) == Ok(WalkedQ());
    WalkFromArgs(AsWritten, WalkedQ());
  }

  /** The walk down to `r`, reached only as intended. */
  lemma WalkToR()
    ensures Loop(AsIntended, Tok3, WalkedQ(), CallbackB, 0, [Some("p_A"), None, None], None, None) == Ok(WalkedR())
  {
    AddR();
    var v := AsIntended;
    assert IsProcess(ProcR) by { assert ProcR.entries[0].0 == "process_id"; }
    assert Visit(Tok3, WalkedQ(), "r", ProcR, BelowP) == Ok((WalkedR(), Some("r_C")));
    assert Loop(v, Tok3, WalkedR(), ProcR, 1, BelowP + [Some("r_C")], Some("r_C"), None) == Ok(WalkedR());
    assert Loop(v, Tok3, WalkedR(), ProcR, 0, BelowP + [Some("r_C")], Some("r_C"), None) == Ok(WalkedR());
    var holder := JObj([("r", ProcR)]);
    assert Loop(v, Tok3, WalkedR(), holder, 1, BelowP, None, None) == Ok(WalkedR());
    assert Loop(v, Tok3, WalkedQ(), holder, 0, BelowP, None, None) == Ok(WalkedR());
    assert [Some("p_A"), None, None] + [None] == BelowP;
    assert Loop(v, Tok3, WalkedR(), CallbackB, 1, [Some("p_A"), None, None], None, None) == Ok(WalkedR());
  }

  /** As intended all three processes become nodes, `q` and `r` both
      below `p`. */
  lemma SecondCallbackWalked()
    ensures WalkPgGraph(AsIntended, Tok3, TwoCallbacks) == Ok(WalkedR())
  {
    WalkToQ(AsIntended);
    WalkToR();
    var v := AsIntended;
    assert Loop(v, Tok3, WalkedR(), ArgsP, 2, [Some("p_A"), None], None, Some("p_A")) == Ok(WalkedR());
    assert [Some("p_A"), None] + [None] == [Some("p_A"), None, None];
    assert Loop(v, Tok3, WalkedQ(), ArgsP, 1, [Some("p_A"), None], None, Some("p_A")) == Ok(WalkedR());
    assert Loop(v, Tok3, WalkedP(), ArgsP, 0, [Some("p_A"), None], None, Some("p_A")) == Ok(WalkedR());
    WalkFromArgs(v, WalkedR());
  }
}
