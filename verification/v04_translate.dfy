/** The translator of the v04 processing container
    (`processing_container_v04/translate_process_graph.py`): its forest of
    nodes and edges keyed by id, the helpers `create_links` and
    `from_node`, the node and edge id formats of `translate`, and the
    `update_sub_graphs` pass.  `walkdict` is `KeyWalk.WalkDict`. */
module V04Translate {
  import opened Results
  import opened Strs
  import opened Dicts
  import opened Json

  /** A node: its id, its name and its process dictionary. */
  datatype Node = Node(id: string, name: string, content: Json)

  /** An edge from the node `src` to the node `dst`, named after an
      argument. */
  datatype Edge = Edge(id: string, name: string, src: string, dst: string)

  /** The forest: nodes and edges in insertion order keyed by id, and each
      node's level (position in its key branch) and tree. */
  datatype Forest = Forest(nodes: Dict<string, Node>, edges: Dict<string, Edge>,
                           levels: map<string, int>, treeIds: map<string, int>)

  /** Every node is stored once, under its own id. */
  predicate Wf(f: Forest) {
    UniqueKeys(f.nodes) && forall i | 0 <= i < |f.nodes| :: f.nodes[i].1.id == f.nodes[i].0
  }

  /* ---------------------------------------------------------------------
     create_links
     --------------------------------------------------------------------- */

  /** `create_links(branch_keys)`: every key that immediately follows an
      `arguments` key, in order. */
  function CreateLinks(keys: seq<string>): (r: seq<string>)
    ensures |r| < |keys| || keys == []
  {
    if |keys| < 2 then []
    else CreateLinks(keys[..|keys| - 1]) + (if keys[|keys| - 2] == "arguments" then [keys[|keys| - 1]] else [])
  }

  /** A key is a link exactly when it immediately follows an `arguments`
      key. */
  lemma {:induction false} CreateLinksMembers(keys: seq<string>)
    ensures forall x :: x in CreateLinks(keys) <==>
      exists i | 1 <= i < |keys| :: keys[i - 1] == "arguments" && keys[i] == x
  {
    if |keys| >= 2 {
      var init := keys[..|keys| - 1];
      CreateLinksMembers(init);
      assert forall i | 0 <= i < |init| :: init[i] == keys[i];
    }
  }

  /** The link across the seam of `a + b`: the first key of `b` when `a`
      ends in `arguments`. */
  function Seam(a: seq<string>, b: seq<string>): seq<string> {
    if a != [] && b != [] && a[|a| - 1] == "arguments" then [b[0]] else []
  }

  /** The links of a concatenation: those of each part, and the first key
      of the second part when the first part ends in `arguments`. */
  lemma {:induction false} CreateLinksAppend(a: seq<string>, b: seq<string>)
    ensures CreateLinks(a + b) == CreateLinks(a) + Seam(a, b) + CreateLinks(b)
    decreases |b|
  {
    if b == [] {
      assert a + b == a;
    } else {
      var b', k := b[..|b| - 1], b[|b| - 1];
      assert b == b' + [k];
      CreateLinksAppend(a, b');
      if b' == [] {
        CreateLinksAppendOne(a, k);
      } else {
        CreateLinksAppendStep(a, b', k);
      }
    }
  }

  /** `CreateLinksAppend` for a one-key second part. */
  lemma CreateLinksAppendOne(a: seq<string>, k: string)
    ensures CreateLinks(a + [k]) == CreateLinks(a) + Seam(a, [k]) + CreateLinks([k])
  {
    CreateLinksSnoc(a, k);
    assert CreateLinks([k]) == [];
  }

  /** One more key after a non-empty second part extends both sides of
      `CreateLinksAppend` alike. */
  lemma CreateLinksAppendStep(a: seq<string>, b: seq<string>, k: string)
    requires b != []
    requires CreateLinks(a + b) == CreateLinks(a) + Seam(a, b) + CreateLinks(b)
    ensures CreateLinks(a + (b + [k])) == CreateLinks(a) + Seam(a, b + [k]) + CreateLinks(b + [k])
  {
    ConcatSnoc(a, b, k);
    CreateLinksSnoc(a + b, k);
    CreateLinksSnoc(b, k);
    var z := if b[|b| - 1] == "arguments" then [k] else [];
    Reassociate(CreateLinks(a + b), CreateLinks(a) + Seam(a, b), CreateLinks(b), z,
                CreateLinks((a + b) + [k]), CreateLinks(b + [k]));
  }

  /** The sequence facts `CreateLinksAppendStep` needs about one more key. */
  lemma ConcatSnoc(a: seq<string>, b: seq<string>, k: string)
    requires b != []
    ensures a + (b + [k]) == (a + b) + [k]
    ensures (a + b)[|a + b| - 1] == b[|b| - 1]
    ensures Seam(a, b + [k]) == Seam(a, b)
  {
  }

  /** Regrouping a concatenation with one more part at the end. */
  lemma Reassociate(l: seq<string>, p: seq<string>, q: seq<string>, z: seq<string>, m: seq<string>, n: seq<string>)
    requires l == p + q && m == l + z && n == q + z
    ensures m == p + n
  {
    assert (p + q) + z == p + (q + z);
  }

  /** The links after one more key: the key itself when the keys so far
      end in `arguments`. */
  lemma CreateLinksSnoc(a: seq<string>, k: string)
    ensures CreateLinks(a + [k]) == CreateLinks(a) + (if a != [] && a[|a| - 1] == "arguments" then [k] else [])
  {
    if a != [] {
      assert (a + [k])[..|a + [k]| - 1] == a;
      assert (a + [k])[|a + [k]| - 2] == a[|a| - 1];
    }
  }

  /** The link order follows the key order: for a key branch that extends
      another, the links of the shorter one come first. */
  lemma CreateLinksPrefix(a: seq<string>, b: seq<string>)
    requires a <= b
    ensures CreateLinks(a) <= CreateLinks(b)
  {
    var rest := b[|a|..];
    assert b == a + rest;
    CreateLinksAppend(a, rest);
  }

  /* ---------------------------------------------------------------------
     from_node
     --------------------------------------------------------------------- */

  /** Whether node entry `i` carries the name `name` (a name that is not a
      string matches no node). */
  predicate Named(nodes: Dict<string, Node>, i: nat, name: Json)
    requires i < |nodes|
  {
    name == JStr(nodes[i].1.name)
  }

  /** `from_node(forest, node_name)` over the first `n` nodes: the id of
      the last node with that name, or none. */
  function FromNode(nodes: Dict<string, Node>, name: Json, n: nat): (r: Option<string>)
    requires n <= |nodes|
    ensures r.Some? <==> exists i | 0 <= i < n :: Named(nodes, i, name)
    ensures r.Some? ==> exists i | 0 <= i < n :: (Named(nodes, i, name) && r.value == nodes[i].1.id &&
      forall j | i < j < n :: !Named(nodes, j, name))
  {
    if n == 0 then None
    else if Named(nodes, n - 1, name) then Some(nodes[n - 1].1.id)
    else FromNode(nodes, name, n - 1)
  }

  /** The node `from_node` finds for `name` in the whole forest. */
  function FromNodeIn(f: Forest, name: Json): Option<string> {
    FromNode(f.nodes, name, |f.nodes|)
  }

  /** In a well-formed forest the id found is the key of a node with that
      name. */
  lemma FromNodeFinds(f: Forest, name: Json)
    requires Wf(f) && FromNodeIn(f, name).Some?
    ensures HasKey(f.nodes, FromNodeIn(f, name).value)
    ensures JStr(Get(f.nodes, FromNodeIn(f, name).value).value.name) == name
  {
    var y := FromNodeIn(f, name).value;
    var i :| 0 <= i < |f.nodes| && Named(f.nodes, i, name) && y == f.nodes[i].1.id;
    GetEntry(f.nodes, i);
    assert HasKey(f.nodes, f.nodes[i].0);
  }

  /* ---------------------------------------------------------------------
     Id formats
     --------------------------------------------------------------------- */

  /** The first component of a node id: `C` for a callback key, the key
      itself otherwise. */
  function IdHead(key: string): string {
    if key == "callback" then "C" else key
  }

  /** `"_".join([head, str(tree_id), str(branch_id), str(i)])`. */
  function NodeId(key: string, tree: nat, branch: nat, i: nat): string {
    IdHead(key) + "_" + NatStr(tree) + "_" + NatStr(branch) + "_" + NatStr(i)
  }

  /** A callback node is named by its id, any other node by its key. */
  function NodeName(key: string, tree: nat, branch: nat, i: nat): (r: string)
    ensures key == "callback" ==> r == NodeId(key, tree, branch, i)
    ensures key != "callback" ==> r == key
  {
    if key == "callback" then NodeId(key, tree, branch, i) else key
  }

  /** A node id determines the tree, the branch, the position within the
      branch and the id's head: nodes created at different positions
      never share an id. */
  lemma NodeIdInjective(k1: string, t1: nat, b1: nat, i1: nat, k2: string, t2: nat, b2: nat, i2: nat)
    requires NodeId(k1, t1, b1, i1) == NodeId(k2, t2, b2, i2)
    ensures t1 == t2 && b1 == b2 && i1 == i2 && IdHead(k1) == IdHead(k2)
  {
    NatStrNoUnderscore(t1); NatStrNoUnderscore(t2);
    NatStrNoUnderscore(b1); NatStrNoUnderscore(b2);
    NatStrNoUnderscore(i1); NatStrNoUnderscore(i2);
    SplitAtLastUnderscore(IdHead(k1) + "_" + NatStr(t1) + "_" + NatStr(b1), NatStr(i1),
                          IdHead(k2) + "_" + NatStr(t2) + "_" + NatStr(b2), NatStr(i2));
    SplitAtLastUnderscore(IdHead(k1) + "_" + NatStr(t1), NatStr(b1), IdHead(k2) + "_" + NatStr(t2), NatStr(b2));
    SplitAtLastUnderscore(IdHead(k1), NatStr(t1), IdHead(k2), NatStr(t2));
    NatStrInjective(t1, t2);
    NatStrInjective(b1, b2);
    NatStrInjective(i1, i2);
  }

  /** `"{}__{}__{}".format(src, arg, dst)`. */
  function EdgeId(src: string, arg: string, dst: string): string {
    src + "__" + arg + "__" + dst
  }

  /** Between the same two nodes, edges for different arguments get
      different ids, so none overwrites another in the edge dictionary. */
  lemma EdgeIdArgs(src: string, a1: string, a2: string, dst: string)
    requires EdgeId(src, a1, dst) == EdgeId(src, a2, dst)
    ensures a1 == a2
  {
    var s := EdgeId(src, a1, dst);
    assert |a1| == |a2|;
    assert a1 == s[|src| + 2..|src| + 2 + |a1|];
    assert a2 == s[|src| + 2..|src| + 2 + |a2|];
  }

  /** From one node along one argument, edges to different nodes get
      different ids. */
  lemma EdgeIdTargets(src: string, arg: string, d1: string, d2: string)
    requires EdgeId(src, arg, d1) == EdgeId(src, arg, d2)
    ensures d1 == d2
  {
    var s := EdgeId(src, arg, d1);
    var n := |src| + 2 + |arg| + 2;
    assert d1 == s[n..];
    assert d2 == s[n..];
  }

  /** The edge `translate` records for argument `arg` from `parent` to `node`. */
  function MakeEdge(parent: string, arg: string, node: string): (e: Edge)
    ensures e.src == parent && e.dst == node && e.name == arg
  {
    Edge(EdgeId(parent, arg, node), arg, parent, node)
  }

  /** The edge to a node inside a callback: named after the last link of
      the node's key branch; a branch with no key after an `arguments` key
      has no last link. */
  function CallbackEdge(parent: string, parentKeys: seq<string>, node: string): (r: Result<Edge>)
    ensures r.Ok? <==> CreateLinks(parentKeys) != []
    ensures r.Ok? ==> (r.value.src == parent && r.value.dst == node &&
      exists i | 1 <= i < |parentKeys| :: parentKeys[i - 1] == "arguments" && parentKeys[i] == r.value.name)
    ensures r.Ok? ==> r.value.name == CreateLinks(parentKeys)[|CreateLinks(parentKeys)| - 1]
    ensures r.Ok? ==> r.value.id == EdgeId(parent, r.value.name, node)
  {
    var links := CreateLinks(parentKeys);
    if links == [] then Err(BadIndex)
    else
      CreateLinksMembers(parentKeys);
      assert links[|links| - 1] in links;
      Ok(MakeEdge(parent, links[|links| - 1], node))
  }

  /* ---------------------------------------------------------------------
     update_sub_graphs
     --------------------------------------------------------------------- */

  /** Whether `update_sub_graphs` rewrites along an edge: both endpoints
      are tagged, in the same tree, on different levels. */
  predicate Tagged(f: Forest, e: Edge) {
    e.src in f.treeIds && e.dst in f.treeIds && e.src in f.levels && e.dst in f.levels
  }

  predicate Crosses(f: Forest, e: Edge)
    requires Tagged(f, e)
  {
    f.treeIds[e.src] == f.treeIds[e.dst] && f.levels[e.src] != f.levels[e.dst]
  }

  /** A node whose arguments can be assigned to: a dictionary under
      `arguments` of a dictionary. */
  predicate Assignable(f: Forest, x: string) {
    HasKey(f.nodes, x) && Field(Get(f.nodes, x).value.content, "arguments").Some? &&
    Field(Get(f.nodes, x).value.content, "arguments").value.JObj?
  }

  /** An edge the pass can handle. */
  predicate EdgeOk(f: Forest, e: Edge) {
    Tagged(f, e) && (Crosses(f, e) ==> Assignable(f, e.src))
  }

  /** `content['arguments'][name] = value`. */
  function SetArgument(c: Json, name: string, value: Json): (r: Result<Json>)
    ensures r.Ok? <==> Field(c, "arguments").Some? && Field(c, "arguments").value.JObj?
    ensures r.Ok? ==> r.value.JObj? && Keys(r.value.entries) == Keys(c.entries)
    ensures r.Ok? ==> forall k | k != "arguments" :: Field(r.value, k) == Field(c, k)
    ensures r.Ok? ==> Field(r.value, "arguments").Some? && Field(r.value, "arguments").value.JObj?
    ensures r.Ok? ==> forall k :: (Field(Field(r.value, "arguments").value, k) ==
      if k == name then Some(value) else Field(Field(c, "arguments").value, k))
  {
    var args :- Member(c, "arguments");
    if !args.JObj? then Err(BadType)
    else Ok(JObj(Put(c.entries, "arguments", JObj(Put(args.entries, name, value)))))
  }

  /** One edge of the pass. */
  function Rewrite(f: Forest, e: Edge): (r: Result<Forest>)
    ensures r.Ok? <==> EdgeOk(f, e)
    ensures r.Ok? ==> r.value.edges == f.edges && r.value.levels == f.levels && r.value.treeIds == f.treeIds
    ensures r.Ok? && !Crosses(f, e) ==> r.value == f
  {
    if !Tagged(f, e) then Err(MissingKey)
    else if !Crosses(f, e) then Ok(f)
    else
      match Get(f.nodes, e.src)
      case None => Err(MissingKey)
      case Some(node) =>
        var c :- SetArgument(node.content, e.name, FromNodeArg(e.dst));
        Ok(f.(nodes := Put(f.nodes, node.id, node.(content := c))))
  }

  /** `update_sub_graphs` over the edges from position `i` on. */
  function UpdateFrom(f: Forest, i: nat): (r: Result<Forest>)
    requires i <= |f.edges|
    ensures r.Ok? ==> r.value.edges == f.edges && r.value.levels == f.levels && r.value.treeIds == f.treeIds
    decreases |f.edges| - i
  {
    if i == |f.edges| then Ok(f)
    else
      var f1 :- Rewrite(f, f.edges[i].1);
      UpdateFrom(f1, i + 1)
  }

  /** `update_sub_graphs(forest)`. */
  function UpdateSubGraphs(f: Forest): (r: Result<Forest>)
    ensures r.Ok? ==> r.value.edges == f.edges && r.value.levels == f.levels && r.value.treeIds == f.treeIds
  {
    UpdateFrom(f, 0)
  }

  /** Edge `e` is one the pass rewrites into argument `k` of node `x`. */
  predicate RewritesInto(f: Forest, e: Edge, x: string, k: string) {
    Tagged(f, e) && Crosses(f, e) && e.src == x && e.name == k
  }

  /** The target of the last edge from position `i` on that the pass
      rewrites into argument `k` of node `x`: none iff no such edge
      follows, and otherwise one with no such edge after it. */
  function LastRewrite(f: Forest, x: string, k: string, i: nat): (r: Option<string>)
    requires i <= |f.edges|
    ensures r.None? <==> forall j | i <= j < |f.edges| :: !RewritesInto(f, f.edges[j].1, x, k)
    ensures r.Some? ==> exists j | i <= j < |f.edges| :: (var e := f.edges[j].1;
      RewritesInto(f, e, x, k) && e.dst == r.value &&
      forall l | j < l < |f.edges| :: !RewritesInto(f, f.edges[l].1, x, k))
    decreases |f.edges| - i
  {
    if i == |f.edges| then None
    else
      var later := LastRewrite(f, x, k, i + 1);
      var e := f.edges[i].1;
      if later.Some? then later
      else if RewritesInto(f, e, x, k) then Some(e.dst)
      else None
  }

  /** The argument `k` of node `x`, if it has one. */
  function ArgAt(f: Forest, x: string, k: string): Option<Json> {
    if !HasKey(f.nodes, x) then None
    else
      var a := Field(Get(f.nodes, x).value.content, "arguments");
      if a.None? then None else Field(a.value, k)
  }

  /** Rewriting along one edge changes exactly the one argument. */
  lemma RewriteArg(f: Forest, e: Edge, x: string, k: string)
    requires Wf(f) && Rewrite(f, e).Ok?
    ensures Wf(Rewrite(f, e).value)
    ensures Keys(Rewrite(f, e).value.nodes) == Keys(f.nodes)
    ensures ArgAt(Rewrite(f, e).value, x, k) ==
      if Crosses(f, e) && e.src == x && e.name == k then Some(FromNodeArg(e.dst)) else ArgAt(f, x, k)
    ensures forall y | Assignable(f, y) :: Assignable(Rewrite(f, e).value, y)
  {
    RewriteWf(f, e);
    RewriteOneArg(f, e, x, k);
    forall y | Assignable(f, y) ensures Assignable(Rewrite(f, e).value, y) {
      RewriteAssignable(f, e, y);
    }
  }

  /** A rewrite keeps the forest consistent and its node ids. */
  lemma RewriteWf(f: Forest, e: Edge)
    requires Wf(f) && Rewrite(f, e).Ok?
    ensures Wf(Rewrite(f, e).value) && Keys(Rewrite(f, e).value.nodes) == Keys(f.nodes)
  {
    if Crosses(f, e) {
      var node := Get(f.nodes, e.src).value;
      assert node.id == e.src;
    }
  }

  /** A rewrite sets the one argument the crossing edge names. */
  lemma RewriteOneArg(f: Forest, e: Edge, x: string, k: string)
    requires Wf(f) && Rewrite(f, e).Ok?
    ensures ArgAt(Rewrite(f, e).value, x, k) ==
      if Crosses(f, e) && e.src == x && e.name == k then Some(FromNodeArg(e.dst)) else ArgAt(f, x, k)
  {
    if Crosses(f, e) {
      var node := Get(f.nodes, e.src).value;
      assert node.id == e.src;
    }
  }

  /** A rewrite keeps every assignable node assignable. */
  lemma RewriteAssignable(f: Forest, e: Edge, y: string)
    requires Wf(f) && Rewrite(f, e).Ok? && Assignable(f, y)
    ensures Assignable(Rewrite(f, e).value, y)
  {
    if Crosses(f, e) {
      var node := Get(f.nodes, e.src).value;
      assert node.id == e.src;
    }
  }

  /** The pass succeeds iff every edge is tagged and every crossing edge
      leaves a node with assignable arguments; and then each argument of
      each node holds the reference written by the last crossing edge into
      it, or what it held before. */
  lemma {:induction false} UpdateFromArgs(f: Forest, i: nat, x: string, k: string)
    requires Wf(f) && i <= |f.edges| && UpdateFrom(f, i).Ok?
    ensures Keys(UpdateFrom(f, i).value.nodes) == Keys(f.nodes)
    ensures ArgAt(UpdateFrom(f, i).value, x, k) ==
      if LastRewrite(f, x, k, i).Some? then Some(FromNodeArg(LastRewrite(f, x, k, i).value)) else ArgAt(f, x, k)
    decreases |f.edges| - i
  {
    if i < |f.edges| {
      var e := f.edges[i].1;
      var f1 := Rewrite(f, e).value;
      RewriteArg(f, e, x, k);
      assert UpdateFrom(f, i) == UpdateFrom(f1, i + 1);
      UpdateFromArgs(f1, i + 1, x, k);
      LastRewriteSame(f, f1, x, k, i + 1);
    }
  }

  /** `LastRewrite` depends only on the edges and the tags. */
  lemma {:induction false} LastRewriteSame(f: Forest, f': Forest, x: string, k: string, i: nat)
    requires f'.edges == f.edges && f'.levels == f.levels && f'.treeIds == f.treeIds && i <= |f.edges|
    ensures LastRewrite(f', x, k, i) == LastRewrite(f, x, k, i)
    decreases |f.edges| - i
  {
    if i < |f.edges| {
      var e := f.edges[i].1;
      LastRewriteSame(f, f', x, k, i + 1);
      assert RewritesInto(f', e, x, k) == RewritesInto(f, e, x, k);
      assert LastRewrite(f, x, k, i) ==
        if LastRewrite(f, x, k, i + 1).Some? then LastRewrite(f, x, k, i + 1)
        else if RewritesInto(f, e, x, k) then Some(e.dst) else None;
    }
  }

  /** The pass fails exactly at an edge it cannot handle. */
  lemma {:induction false} UpdateFromOk(f: Forest, i: nat)
    requires Wf(f) && i <= |f.edges|
    ensures UpdateFrom(f, i).Ok? <==> forall j | i <= j < |f.edges| :: EdgeOk(f, f.edges[j].1)
    decreases |f.edges| - i
  {
    if i < |f.edges| {
      var e := f.edges[i].1;
      if Rewrite(f, e).Ok? {
        var f1 := Rewrite(f, e).value;
        RewriteArg(f, e, "", "");
        assert UpdateFrom(f, i) == UpdateFrom(f1, i + 1);
        UpdateFromOk(f1, i + 1);
        forall j | i < j < |f.edges| ensures EdgeOk(f1, f.edges[j].1) <==> EdgeOk(f, f.edges[j].1) {
          RewriteKeepsEdgeOk(f, e, f.edges[j].1);
        }
        UpdateFromOkStep(f, f1, i, UpdateFrom(f1, i + 1).Ok?);
      }
    }
  }

  /** The first edge is fine, so the rest decide. */
  lemma UpdateFromOkStep(f: Forest, f1: Forest, i: nat, ok: bool)
    requires i < |f.edges| && f1.edges == f.edges && EdgeOk(f, f.edges[i].1)
    requires ok <==> forall j | i + 1 <= j < |f1.edges| :: EdgeOk(f1, f1.edges[j].1)
    requires forall j | i < j < |f.edges| :: EdgeOk(f1, f.edges[j].1) <==> EdgeOk(f, f.edges[j].1)
    ensures ok <==> forall j | i <= j < |f.edges| :: EdgeOk(f, f.edges[j].1)
  {
  }

  /** A rewrite neither breaks nor mends any edge. */
  lemma RewriteKeepsEdgeOk(f: Forest, e: Edge, d: Edge)
    requires Wf(f) && Rewrite(f, e).Ok?
    ensures EdgeOk(Rewrite(f, e).value, d) <==> EdgeOk(f, d)
  {
    var f1 := Rewrite(f, e).value;
    RewriteArg(f, e, "", "");
    assert Tagged(f1, d) == Tagged(f, d);
    if Tagged(f, d) && Crosses(f, d) {
      assert Assignable(f, d.src) ==> Assignable(f1, d.src);
      assert Assignable(f1, d.src) ==> Assignable(f, d.src) by {
        if Assignable(f1, d.src) { AssignableBack(f, e, d.src); }
      }
    }
  }

  /** A rewrite creates no assignable node. */
  lemma AssignableBack(f: Forest, e: Edge, y: string)
    requires Wf(f) && Rewrite(f, e).Ok? && Assignable(Rewrite(f, e).value, y)
    ensures Assignable(f, y)
  {
    if Crosses(f, e) {
      var node := Get(f.nodes, e.src).value;
      if y == node.id {
        assert Assignable(f, e.src);
      }
    }
  }

  /** `update_sub_graphs` in one statement: it succeeds iff every edge is
      tagged and every crossing edge starts at a node with assignable
      arguments, keeps the nodes, the edges and the tags, and leaves in
      argument `k` of node `x` the reference to the target of the last
      crossing edge named `k` out of `x`, or the old value when there is
      none. */
  lemma UpdateSubGraphsArgs(f: Forest, x: string, k: string)
    requires Wf(f)
    ensures UpdateSubGraphs(f).Ok? <==> forall j | 0 <= j < |f.edges| :: EdgeOk(f, f.edges[j].1)
    ensures UpdateSubGraphs(f).Ok? ==> (Keys(UpdateSubGraphs(f).value.nodes) == Keys(f.nodes) &&
      ArgAt(UpdateSubGraphs(f).value, x, k) ==
        if LastRewrite(f, x, k, 0).Some? then Some(FromNodeArg(LastRewrite(f, x, k, 0).value)) else ArgAt(f, x, k))
  {
    UpdateFromOk(f, 0);
    if UpdateSubGraphs(f).Ok? { UpdateFromArgs(f, 0, x, k); }
  }
}
