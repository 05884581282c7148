/** `walk_process_graph`: the recursive walk that turns the nested process
    graph document into numbered nodes.  Every dictionary reached through
    dictionaries is visited in document order; one that has a `process_id`
    entry becomes a node named after its key, numbered by the count of
    nodes created before it, and linked by a `callback` edge to the nearest
    enclosing node.  The walk's `node_ids` stack, `level` counter and key
    list behave as values: a call hands its children the stack and key list
    extended by one entry, and every call gives them back unchanged, so the
    stack always holds one entry per key of the current path and the level
    always equals the path's length. */
module Walk {
  import opened Results
  import opened Seqs
  import opened Strs
  import opened Dicts
  import opened Json
  import opened Utils
  import opened Definitions
  import opened Adjacency
  import G = Graph

  /** The nodes created so far, in creation order, and their edge lists. */
  datatype Build = Build(order: seq<string>, nodes: map<string, G.Node>, adj: Adj)

  /** A dictionary the walk turns into a node. */
  predicate IsProcessDict(v: Json) {
    v.JObj? && HasKey(v.entries, "process_id")
  }

  /** The document holds a node's dictionary at this key path. */
  predicate NodeAt(doc: Json, keys: seq<string>) {
    GetPath(doc, StrPath(keys)).Ok? && IsProcessDict(GetPath(doc, StrPath(keys)).value)
  }

  /** The first `j` keys lead to the nearest node enclosing the value at
      `keys`: a node is there and none lies between it and the value. */
  predicate Nearest(doc: Json, keys: seq<string>, j: nat) {
    1 <= j < |keys| && NodeAt(doc, keys[..j]) &&
    forall j' | j < j' < |keys| :: !NodeAt(doc, keys[..j'])
  }

  /** The id a node under `key` gets when `n` nodes exist already. */
  function NodeId(key: string, n: nat): string {
    key + "_" + NatStr(n)
  }

  /** Ids of different numbers differ, whatever their keys. */
  lemma NodeIdInjective(k1: string, n1: nat, k2: string, n2: nat)
    ensures NodeId(k1, n1) == NodeId(k2, n2) ==> k1 == k2 && n1 == n2
  {
    if NodeId(k1, n1) == NodeId(k2, n2) {
      NatStrNoUnderscore(n1);
      NatStrNoUnderscore(n2);
      SplitAtLastUnderscore(k1, NatStr(n1), k2, NatStr(n2));
      NatStrInjective(n1, n2);
    }
  }

  /** The targets of the callback edges leaving `x` along `es`: where
      `child(link="callback")` leads. */
  function Enclosing(es: seq<Edge>, x: string): (r: seq<string>)
    ensures |r| <= |es|
  {
    if |es| == 0 then []
    else
      var init := Enclosing(es[..|es| - 1], x);
      var e := es[|es| - 1];
      if e.name == "callback" && e.src == x then init + [e.dst] else init
  }

  /** The key paths of the process dictionaries that the loop over the
      entries of the dictionary `v` at `keys` meets from entry `i` on, in
      document order: a dictionary-valued entry contributes its own path
      when it is a process and then the paths below it; any other entry
      contributes none. */
  function DocPaths(v: Json, i: nat, keys: seq<string>): seq<seq<string>>
    requires v.JObj? && i <= |v.entries|
    decreases v, |v.entries| - i
  {
    if i == |v.entries| then []
    else
      var k, c := v.entries[i].0, v.entries[i].1;
      (if !c.JObj? then [] else (if IsProcessDict(c) then [keys + [k]] else []) + DocPaths(c, 0, keys + [k]))
      + DocPaths(v, i + 1, keys)
  }

  /** The dictionary `v` leads along `path` to a process dictionary through
      dictionaries only: each key is looked up in the dictionary reached so
      far. */
  predicate ReachesProcess(v: Json, path: seq<string>)
    decreases |path|
  {
    v.JObj? && |path| > 0 && Field(v, path[0]).Some? &&
    if |path| == 1 then IsProcessDict(Field(v, path[0]).value)
    else ReachesProcess(Field(v, path[0]).value, path[1..])
  }

  /** The paths met at entry `t` are among those met from any earlier
      entry on. */
  lemma {:induction false} DocPathsHas(v: Json, i: nat, keys: seq<string>, t: nat, p: seq<string>)
    requires v.JObj? && i <= t < |v.entries| && v.entries[t].1.JObj?
    requires (p == keys + [v.entries[t].0] && IsProcessDict(v.entries[t].1)) ||
             p in DocPaths(v.entries[t].1, 0, keys + [v.entries[t].0])
    ensures p in DocPaths(v, i, keys)
    decreases t - i
  {
    var k, c := v.entries[i].0, v.entries[i].1;
    var head := if !c.JObj? then [] else (if IsProcessDict(c) then [keys + [k]] else []) + DocPaths(c, 0, keys + [k]);
    assert DocPaths(v, i, keys) == head + DocPaths(v, i + 1, keys);
    if i < t {
      DocPathsHas(v, i + 1, keys, t, p);
    } else {
      assert p in head;
    }
  }

  /** Every process dictionary reached through dictionaries is met. */
  lemma {:induction false} DocPathsComplete(v: Json, keys: seq<string>, path: seq<string>)
    requires ReachesProcess(v, path)
    ensures keys + path in DocPaths(v, 0, keys)
    decreases |path|
  {
    var k := path[0];
    var t := IndexOf(v.entries, k);
    assert v.entries[t].0 == k && v.entries[t].1 == Field(v, k).value;
    if |path| == 1 {
      assert keys + path == keys + [k];
      DocPathsHas(v, 0, keys, t, keys + path);
    } else {
      DocPathsComplete(v.entries[t].1, keys + [k], path[1..]);
      assert (keys + [k]) + path[1..] == keys + path;
      DocPathsHas(v, 0, keys, t, keys + path);
    }
  }

  /** Every path met extends `keys` by a path that reaches a process
      dictionary through dictionaries. */
  lemma {:induction false} DocPathsSound(v: Json, i: nat, keys: seq<string>, p: seq<string>)
    requires Wf(v) && v.JObj? && i <= |v.entries| && p in DocPaths(v, i, keys)
    ensures |p| > |keys| && p[..|keys|] == keys && ReachesProcess(v, p[|keys|..])
    decreases v, |v.entries| - i
  {
    var k, c := v.entries[i].0, v.entries[i].1;
    WfChildren(v);
    GetEntry(v.entries, i);
    assert Field(v, k) == Some(c);
    var head := if !c.JObj? then [] else (if IsProcessDict(c) then [keys + [k]] else []) + DocPaths(c, 0, keys + [k]);
    assert DocPaths(v, i, keys) == head + DocPaths(v, i + 1, keys);
    if p in DocPaths(v, i + 1, keys) {
      DocPathsSound(v, i + 1, keys, p);
    } else if !(c.JObj? && p in DocPaths(c, 0, keys + [k])) {
      assert p in head;
      assert IsProcessDict(c) && p == keys + [k];
      assert p[..|keys|] == keys && p[|keys|..] == [k];
    } else {
      DocPathsSound(c, 0, keys + [k], p);
      var rest := p[|keys| + 1..];
      assert p[..|keys|] == keys;
      assert p[|keys|..] == [k] + rest;
      assert ([k] + rest)[1..] == rest;
    }
  }

  /** The key paths met from the top of a document are exactly those that
      reach a process dictionary through dictionaries. */
  lemma DocPathsExactly(pg: Json, p: seq<string>)
    requires Wf(pg) && pg.JObj?
    ensures p in DocPaths(pg, 0, []) <==> ReachesProcess(pg, p)
  {
    if p in DocPaths(pg, 0, []) {
      DocPathsSound(pg, 0, [], p);
      assert p[0..] == p;
    }
    if ReachesProcess(pg, p) {
      DocPathsComplete(pg, [], p);
      assert [] + p == p;
    }
  }

  /** The key paths of the nodes `ids`, in order. */
  function KeysOf(nodes: map<string, G.Node>, ids: seq<string>): (r: seq<seq<string>>)
    requires forall x | x in ids :: x in nodes
    ensures |r| == |ids| && forall n | 0 <= n < |ids| :: r[n] == nodes[ids[n]].keys
  {
    seq(|ids|, n requires 0 <= n < |ids| => nodes[ids[n]].keys)
  }

  /* ---------------------------------------------------------------------
     What the walk maintains
     --------------------------------------------------------------------- */

  /** Node `x` matches the document: it sits at its key path, is named
      after the path's last key, carries its catalogue process, and has one
      callback edge to its nearest enclosing node, one level up, unless it
      is at the top, where it has none and depth 0. */
  predicate NodeOk(doc: Json, catalog: Catalog, b: Build, x: string)
    requires x in b.nodes
  {
    NodeFits(doc, catalog, x, b.nodes[x], Enclosing(EdgesOf(b.adj, x), x), ParentNode(b, x))
  }

  /** The node its single enclosing edge leads to, if that node exists. */
  function ParentNode(b: Build, x: string): Option<G.Node> {
    var up := Enclosing(EdgesOf(b.adj, x), x);
    if |up| == 1 && up[0] in b.nodes then Some(b.nodes[up[0]]) else None
  }

  /** `NodeOk` for node `n` filed under `x`, given the ids its enclosing
      edges lead to and the node the single one of them leads to. */
  predicate NodeFits(doc: Json, catalog: Catalog, x: string, n: G.Node, up: seq<string>, parent: Option<G.Node>) {
    n.id == x && |n.keys| >= 1 && n.name == n.keys[|n.keys| - 1] &&
    GetPath(doc, StrPath(n.keys)) == Ok(n.content) && IsProcessDict(n.content) &&
    FromName(Field(n.content, "process_id").value, catalog) == Ok(n.process) &&
    (if |n.keys| == 1 then up == [] && n.depth == 0
     else |up| == 1 && parent.Some? &&
          Nearest(doc, n.keys, |parent.value.keys|) &&
          parent.value.keys == n.keys[..|parent.value.keys|] &&
          n.depth == parent.value.depth + 1)
  }

  /** Ids follow creation order, numbered from 0. */
  predicate Numbered(b: Build) {
    NoDup(b.order) &&
    (forall x | x in b.nodes :: x in b.order) &&
    (forall n | 0 <= n < |b.order| :: b.order[n] in b.nodes && b.order[n] == NodeId(b.nodes[b.order[n]].name, n))
  }

  /** Edges join created nodes. */
  predicate EdgesJoinNodes(b: Build) {
    (forall x | x in b.adj :: x in b.nodes) &&
    (forall x, i | x in b.adj && 0 <= i < |b.adj[x]| :: b.adj[x][i].src in b.nodes && b.adj[x][i].dst in b.nodes)
  }

  /** Everything the walk keeps true of the nodes it has created. */
  predicate Inv(doc: Json, catalog: Catalog, b: Build) {
    Numbered(b) && EdgesJoinNodes(b) && forall x {:trigger NodeOk(doc, catalog, b, x)} | x in b.nodes :: NodeOk(doc, catalog, b, x)
  }

  /** `b2` extends `b1`: created nodes stay as they are, with the same
      enclosing nodes. */
  predicate Keeps(b1: Build, b2: Build) {
    b1.order <= b2.order &&
    (forall x | x in b1.nodes :: x in b2.nodes && b2.nodes[x] == b1.nodes[x]) &&
    (forall x | x in b1.nodes :: Enclosing(EdgesOf(b2.adj, x), x) == Enclosing(EdgesOf(b1.adj, x), x))
  }

  /** Every id in the creation order is a created node. */
  predicate Listed(b: Build) {
    forall x | x in b.order :: x in b.nodes
  }

  lemma NumberedListed(b: Build)
    requires Numbered(b)
    ensures Listed(b)
  {
  }

  /** `b2` extends the creation order of `b1` and keeps its nodes. */
  predicate Grows(b1: Build, b2: Build) {
    b1.order <= b2.order && forall x | x in b1.nodes :: x in b2.nodes && b2.nodes[x] == b1.nodes[x]
  }

  /** The stack holds, for each key of the current path, the id of the node
      whose dictionary the prefix up to that key reaches, or nothing. */
  predicate StackOk(doc: Json, b: Build, stack: seq<Option<string>>, keys: seq<string>) {
    |stack| == |keys| &&
    forall j | 0 <= j < |stack| ::
      (stack[j].Some? <==> NodeAt(doc, keys[..j + 1])) &&
      (stack[j].Some? ==> stack[j].value in b.nodes && b.nodes[stack[j].value].keys == keys[..j + 1])
  }

  lemma KeepsTrans(b1: Build, b2: Build, b3: Build)
    requires Keeps(b1, b2) && Keeps(b2, b3)
    ensures Keeps(b1, b3)
  {
  }

  lemma StackKept(doc: Json, b1: Build, b2: Build, stack: seq<Option<string>>, keys: seq<string>)
    requires StackOk(doc, b1, stack, keys) && Keeps(b1, b2)
    ensures StackOk(doc, b2, stack, keys)
  {
  }

  /* ---------------------------------------------------------------------
     Creating one node
     --------------------------------------------------------------------- */

  /** The position of the last id on the stack: `filtered_node_ids[-1]`,
      an IndexError when the stack holds none. */
  function LastId(stack: seq<Option<string>>): (r: Result<nat>)
    ensures r.Ok? ==> r.value < |stack| && stack[r.value].Some? &&
                      forall j | r.value < j < |stack| :: stack[j].None?
    ensures r.Err? ==> r.error == BadIndex && forall j | 0 <= j < |stack| :: stack[j].None?
  {
    if |stack| == 0 then Err(BadIndex)
    else if stack[|stack| - 1].Some? then Ok(|stack| - 1)
    else LastId(stack[..|stack| - 1])
  }

  /** A fresh number gives a fresh id. */
  lemma FreshId(b: Build, key: string)
    requires Numbered(b)
    ensures NodeId(key, |b.order|) !in b.nodes
  {
    forall n | 0 <= n < |b.order| ensures b.order[n] != NodeId(key, |b.order|) {
      NodeIdInjective(b.nodes[b.order[n]].name, n, key, |b.order|);
    }
  }

  /** Appending an edge that does not leave `x` keeps `x`'s callback targets. */
  lemma EnclosingSnoc(es: seq<Edge>, e: Edge, x: string)
    ensures Enclosing(es + [e], x) ==
      Enclosing(es, x) + (if e.name == "callback" && e.src == x then [e.dst] else [])
  {
    assert (es + [e])[..|es|] == es;
  }

  /** The callback edge from a new node `c` to its enclosing node `p`
      changes no other node's callback targets and gives `c` exactly one. */
  lemma CallbackEdge(adj: Adj, c: string, p: string)
    requires c != p && c !in adj
    ensures var adj' := CreateEdge(adj, c, p, "callback", false);
      Enclosing(EdgesOf(adj', c), c) == [p] &&
      forall x | x != c :: Enclosing(EdgesOf(adj', x), x) == Enclosing(EdgesOf(adj, x), x)
  {
    var e := Edge(EdgeId(c, p), "callback", c, p, false);
    var adj' := CreateEdge(adj, c, p, "callback", false);
    assert EdgesOf(adj, c) == [];
    assert EdgesOf(adj', c) == [] + [e];
    EnclosingSnoc([], e, c);
    forall x | x != c ensures Enclosing(EdgesOf(adj', x), x) == Enclosing(EdgesOf(adj, x), x) {
      if x == p {
        var es := EdgesOf(adj, p);
        if !Has(es, e) {
          EnclosingSnoc(es, e, p);
        }
      }
    }
  }

  /** The key path of a child of the dictionary at `keys`. */
  lemma ChildPath(doc: Json, v: Json, keys: seq<string>, i: nat)
    requires v.JObj? && i < |v.entries| && Wf(v)
    requires GetPath(doc, StrPath(keys)) == Ok(v)
    ensures GetPath(doc, StrPath(keys + [v.entries[i].0])) == Ok(v.entries[i].1)
    ensures Wf(v.entries[i].1)
  {
    WfChildren(v);
    GetEntry(v.entries, i);
    var k := v.entries[i].0;
    assert StrPath(keys + [k]) == StrPath(keys) + [KStr(k)];
    GetPathConcat(doc, StrPath(keys), [KStr(k)]);
    assert [KStr(k)][1..] == [];
  }

  /** `OpenEONode(...)` for the dictionary `c` under the last key of `keys`:
      its process comes from the catalogue (ValueError when unknown); a node
      below another gets a callback edge to the nearest enclosing node and
      sits one level below it. */
  function Visit(doc: Json, catalog: Catalog, b: Build, stack: seq<Option<string>>,
                 keys: seq<string>, c: Json): (r: Result<(Build, Option<string>)>)
    requires |keys| >= 1 && GetPath(doc, StrPath(keys)) == Ok(c)
    requires Inv(doc, catalog, b) && StackOk(doc, b, stack, keys[..|keys| - 1])
    ensures r.Ok? ==> Inv(doc, catalog, r.value.0) && Keeps(b, r.value.0)
    ensures r.Ok? ==> (r.value.1.Some? <==> NodeAt(doc, keys))
    ensures r.Ok? && r.value.1.Some? ==>
      (r.value.1.value in r.value.0.nodes && r.value.0.nodes[r.value.1.value].keys == keys)
    ensures r.Ok? ==> r.value.0.order == b.order + (if r.value.1.Some? then [r.value.1.value] else [])
  {
    if !IsProcessDict(c) then Ok((b, None))
    else if |stack| == 0 then VisitTop(doc, catalog, b, keys, c)
    else VisitNested(doc, catalog, b, stack, keys, c)
  }

  /** A process dictionary outside every callback becomes a node of depth 0. */
  function VisitTop(doc: Json, catalog: Catalog, b: Build, keys: seq<string>, c: Json): (r: Result<(Build, Option<string>)>)
    requires |keys| >= 1 && GetPath(doc, StrPath(keys)) == Ok(c) && IsProcessDict(c)
    requires Inv(doc, catalog, b) && StackOk(doc, b, [], keys[..|keys| - 1])
    ensures r.Ok? ==> Inv(doc, catalog, r.value.0) && Keeps(b, r.value.0)
    ensures r.Ok? ==> r.value.1.Some? && NodeAt(doc, keys)
    ensures r.Ok? ==> r.value.1.value in r.value.0.nodes && r.value.0.nodes[r.value.1.value].keys == keys
    ensures r.Ok? ==> r.value.0.order == b.order + [r.value.1.value]
  {
    var key := keys[|keys| - 1];
    var id := NodeId(key, |b.order|);
    var process :- FromName(Field(c, "process_id").value, catalog);
    FreshId(b, key);
    var n := G.Node(id, key, c, 0, keys, process);
    var b' := Build(b.order + [id], b.nodes[id := n], b.adj);
    AddTop(doc, catalog, b, id, n);
    Ok((b', Some(id)))
  }

  /** A process dictionary inside a callback becomes a node one level below
      the nearest enclosing node, with a callback edge to it. */
  function VisitNested(doc: Json, catalog: Catalog, b: Build, stack: seq<Option<string>>,
                       keys: seq<string>, c: Json): (r: Result<(Build, Option<string>)>)
    requires |keys| >= 1 && GetPath(doc, StrPath(keys)) == Ok(c) && IsProcessDict(c) && |stack| > 0
    requires Inv(doc, catalog, b) && StackOk(doc, b, stack, keys[..|keys| - 1])
    ensures r.Ok? ==> Inv(doc, catalog, r.value.0) && Keeps(b, r.value.0)
    ensures r.Ok? ==> r.value.1.Some? && NodeAt(doc, keys)
    ensures r.Ok? ==> r.value.1.value in r.value.0.nodes && r.value.0.nodes[r.value.1.value].keys == keys
    ensures r.Ok? ==> r.value.0.order == b.order + [r.value.1.value]
  {
    var key := keys[|keys| - 1];
    var id := NodeId(key, |b.order|);
    var process :- FromName(Field(c, "process_id").value, catalog);
    FreshId(b, key);
    var j :- LastId(stack);
    var p := stack[j].value;
    var n := G.Node(id, key, c, b.nodes[p].depth + 1, keys, process);
    var adj' := CreateEdge(b.adj, id, p, "callback", false);
    var b' := Build(b.order + [id], b.nodes[id := n], adj');
    CallbackEnds(b, id, p);
    CallbackEdge(b.adj, id, p);
    StackNearest(doc, b, stack, keys, j);
    AddNumbered(b, id, n, adj');
    AddNested(doc, catalog, b, keys, j + 1, p, id, n, adj');
    Ok((b', Some(id)))
  }

  /** The numbering and the edge endpoints survive adding a fresh node. */
  lemma AddNumbered(b: Build, id: string, n: G.Node, adj': Adj)
    requires Numbered(b) && EdgesJoinNodes(b) && id !in b.nodes
    requires id == NodeId(n.name, |b.order|)
    requires adj'.Keys <= b.adj.Keys + {id} + b.nodes.Keys
    requires forall x, i | x in adj' && 0 <= i < |adj'[x]| :: adj'[x][i].src in b.nodes || adj'[x][i].src == id
    requires forall x, i | x in adj' && 0 <= i < |adj'[x]| :: adj'[x][i].dst in b.nodes || adj'[x][i].dst == id
    ensures Numbered(Build(b.order + [id], b.nodes[id := n], adj'))
    ensures EdgesJoinNodes(Build(b.order + [id], b.nodes[id := n], adj'))
  {
    AddNumberedOrder(b, id, n, adj');
    AddJoinsNodes(b, id, n, adj');
  }

  /** The numbering half of `AddNumbered`. */
  lemma AddNumberedOrder(b: Build, id: string, n: G.Node, adj': Adj)
    requires Numbered(b) && id !in b.nodes && id == NodeId(n.name, |b.order|)
    ensures Numbered(Build(b.order + [id], b.nodes[id := n], adj'))
  {
    var o := b.order + [id];
    var nodes := b.nodes[id := n];
    assert forall k | 0 <= k < |b.order| :: o[k] == b.order[k];
    assert id !in b.order;
    assert NoDup(o);
    forall k | 0 <= k < |o| ensures o[k] in nodes && o[k] == NodeId(nodes[o[k]].name, k) {
      if k < |b.order| {
        assert o[k] == b.order[k] && o[k] != id;
      }
    }
  }

  /** The edge half of `AddNumbered`. */
  lemma AddJoinsNodes(b: Build, id: string, n: G.Node, adj': Adj)
    requires EdgesJoinNodes(b)
    requires adj'.Keys <= b.adj.Keys + {id} + b.nodes.Keys
    requires forall x, i | x in adj' && 0 <= i < |adj'[x]| :: adj'[x][i].src in b.nodes || adj'[x][i].src == id
    requires forall x, i | x in adj' && 0 <= i < |adj'[x]| :: adj'[x][i].dst in b.nodes || adj'[x][i].dst == id
    ensures EdgesJoinNodes(Build(b.order + [id], b.nodes[id := n], adj'))
  {
  }

  /** A node's facts survive when the nodes stay and its callback targets
      do not change. */
  lemma NodeOkKept(doc: Json, catalog: Catalog, b: Build, b': Build, x: string)
    requires x in b.nodes && NodeOk(doc, catalog, b, x)
    requires forall y | y in b.nodes :: y in b'.nodes && b'.nodes[y] == b.nodes[y]
    requires Enclosing(EdgesOf(b'.adj, x), x) == Enclosing(EdgesOf(b.adj, x), x)
    ensures NodeOk(doc, catalog, b', x)
  {
    var up := Enclosing(EdgesOf(b.adj, x), x);
    if |up| == 1 && up[0] in b.nodes {
      assert b'.nodes[up[0]] == b.nodes[up[0]];
    }
    assert ParentNode(b', x) == ParentNode(b, x);
  }

  /** Adding a top-level node keeps the invariant. */
  lemma AddTop(doc: Json, catalog: Catalog, b: Build, id: string, n: G.Node)
    requires Inv(doc, catalog, b) && id !in b.nodes
    requires n.id == id && id == NodeId(n.name, |b.order|) && |n.keys| == 1 && n.name == n.keys[0]
    requires GetPath(doc, StrPath(n.keys)) == Ok(n.content) && IsProcessDict(n.content)
    requires FromName(Field(n.content, "process_id").value, catalog) == Ok(n.process) && n.depth == 0
    ensures Inv(doc, catalog, Build(b.order + [id], b.nodes[id := n], b.adj))
    ensures Keeps(b, Build(b.order + [id], b.nodes[id := n], b.adj))
  {
    var b' := Build(b.order + [id], b.nodes[id := n], b.adj);
    AddNumbered(b, id, n, b.adj);
    assert EdgesOf(b.adj, id) == [];
    assert NodeOk(doc, catalog, b', id);
    AllKept(doc, catalog, b, b', id);
  }

  /** The nearest node enclosing a new node is the last one on the stack. */
  lemma StackNearest(doc: Json, b: Build, stack: seq<Option<string>>, keys: seq<string>, j: nat)
    requires |keys| >= 2 && StackOk(doc, b, stack, keys[..|keys| - 1])
    requires j < |stack| && stack[j].Some? && forall j' | j < j' < |stack| :: stack[j'].None?
    ensures b.nodes[stack[j].value].keys == keys[..j + 1]
    ensures Nearest(doc, keys, j + 1)
  {
    var ks := keys[..|keys| - 1];
    assert ks[..j + 1] == keys[..j + 1];
    forall j' | j + 1 < j' < |keys| ensures !NodeAt(doc, keys[..j']) {
      assert ks[..j'] == keys[..j'];
      assert stack[j' - 1].None?;
    }
  }

  /** The endpoints of the edges after adding the callback edge `c -> p`. */
  lemma CallbackEnds(b: Build, c: string, p: string)
    requires EdgesJoinNodes(b) && p in b.nodes
    ensures var adj' := CreateEdge(b.adj, c, p, "callback", false);
      adj'.Keys <= b.adj.Keys + {c} + b.nodes.Keys &&
      (forall x, i | x in adj' && 0 <= i < |adj'[x]| :: adj'[x][i].src in b.nodes || adj'[x][i].src == c) &&
      (forall x, i | x in adj' && 0 <= i < |adj'[x]| :: adj'[x][i].dst in b.nodes || adj'[x][i].dst == c)
  {
    var adj': Adj := CreateEdge(b.adj, c, p, "callback", false);
    var e := Edge(EdgeId(c, p), "callback", c, p, false);
    forall x: string, i: int | x in adj' && 0 <= i < |adj'[x]|
      ensures (adj'[x][i].src in b.nodes || adj'[x][i].src == c) && (adj'[x][i].dst in b.nodes || adj'[x][i].dst == c)
    {
      assert EdgesOf(adj', x) == adj'[x];
      if i >= |EdgesOf(b.adj, x)| {
        assert adj'[x][i] == e;
      } else {
        assert x in b.adj && adj'[x][i] == b.adj[x][i];
      }
    }
  }

  /** Adding a node below the nearest enclosing node `p` on the stack, with
      an edge store `adj'` that gives it `p` as its only callback target and
      leaves every other node's targets alone, keeps the invariant. */
  lemma AddNested(doc: Json, catalog: Catalog, b: Build, keys: seq<string>, j: nat,
                  p: string, id: string, n: G.Node, adj': Adj)
    requires forall x {:trigger NodeOk(doc, catalog, b, x)} | x in b.nodes :: NodeOk(doc, catalog, b, x)
    requires id !in b.nodes && |keys| >= 2 && j < |keys|
    requires p in b.nodes && b.nodes[p].keys == keys[..j] && Nearest(doc, keys, j)
    requires n.id == id && n.keys == keys && n.name == keys[|keys| - 1]
    requires GetPath(doc, StrPath(keys)) == Ok(n.content) && IsProcessDict(n.content)
    requires FromName(Field(n.content, "process_id").value, catalog) == Ok(n.process)
    requires n.depth == b.nodes[p].depth + 1
    requires Enclosing(EdgesOf(adj', id), id) == [p]
    requires forall x | x != id :: Enclosing(EdgesOf(adj', x), x) == Enclosing(EdgesOf(b.adj, x), x)
    ensures forall x {:trigger NodeOk(doc, catalog, Build(b.order + [id], b.nodes[id := n], adj'), x)} | x in b.nodes[id := n] :: NodeOk(doc, catalog, Build(b.order + [id], b.nodes[id := n], adj'), x)
    ensures Keeps(b, Build(b.order + [id], b.nodes[id := n], adj'))
  {
    var b' := Build(b.order + [id], b.nodes[id := n], adj');
    NestedOk(doc, catalog, b', id, p, j, n);
    AllKept(doc, catalog, b, b', id);
    AllOk(doc, catalog, b.nodes, b', id);
  }

  /** The old nodes and the new one together are all the nodes. */
  lemma AllOk(doc: Json, catalog: Catalog, prev: map<string, G.Node>, b: Build, id: string)
    requires id in b.nodes && b.nodes.Keys == prev.Keys + {id} && NodeOk(doc, catalog, b, id)
    requires forall x {:trigger NodeOk(doc, catalog, b, x)} | x in prev :: NodeOk(doc, catalog, b, x)
    ensures forall x {:trigger NodeOk(doc, catalog, b, x)} | x in b.nodes :: NodeOk(doc, catalog, b, x)
  {
  }

  /** The facts of a new node below `p`. */
  lemma NestedOk(doc: Json, catalog: Catalog, b: Build, id: string, p: string, j: nat, n: G.Node)
    requires id in b.nodes && p in b.nodes && b.nodes[id] == n
    requires Enclosing(EdgesOf(b.adj, id), id) == [p]
    requires n.id == id && |n.keys| >= 2 && n.name == n.keys[|n.keys| - 1]
    requires GetPath(doc, StrPath(n.keys)) == Ok(n.content) && IsProcessDict(n.content)
    requires FromName(Field(n.content, "process_id").value, catalog) == Ok(n.process)
    requires Nearest(doc, n.keys, j)
    requires b.nodes[p].keys == n.keys[..j]
    requires n.depth == b.nodes[p].depth + 1
    ensures NodeOk(doc, catalog, b, id)
  {
  }

  /** The facts of every older node survive adding node `id`. */
  lemma AllKept(doc: Json, catalog: Catalog, b: Build, b': Build, id: string)
    requires id !in b.nodes && forall x {:trigger NodeOk(doc, catalog, b, x)} | x in b.nodes :: NodeOk(doc, catalog, b, x)
    requires forall y | y in b.nodes :: y in b'.nodes && b'.nodes[y] == b.nodes[y]
    requires forall x | x != id :: Enclosing(EdgesOf(b'.adj, x), x) == Enclosing(EdgesOf(b.adj, x), x)
    ensures forall x {:trigger NodeOk(doc, catalog, b', x)} | x in b.nodes :: NodeOk(doc, catalog, b', x)
  {
    forall x | x in b.nodes ensures NodeOk(doc, catalog, b', x) {
      NodeOkKept(doc, catalog, b, b', x);
    }
  }

  /* ---------------------------------------------------------------------
     The walk
     --------------------------------------------------------------------- */

  /** The loop over the entries of the dictionary at `keys`, from entry `i`:
      a dictionary-valued entry is visited and then walked into with the
      stack and key path extended by one; any other entry is skipped. */
  function WalkFrom(doc: Json, catalog: Catalog, v: Json, i: nat, b: Build,
                    stack: seq<Option<string>>, keys: seq<string>): (r: Result<Build>)
    requires v.JObj? && i <= |v.entries| && Wf(v)
    requires GetPath(doc, StrPath(keys)) == Ok(v)
    requires Inv(doc, catalog, b) && StackOk(doc, b, stack, keys)
    ensures r.Ok? ==> Inv(doc, catalog, r.value) && Keeps(b, r.value)
    ensures r.Ok? ==> KeysOf(r.value.nodes, r.value.order[|b.order|..]) == DocPaths(v, i, keys)
    decreases v, |v.entries| - i
  {
    if i == |v.entries| then
      assert b.order[|b.order|..] == [];
      Ok(b)
    else
      var k := v.entries[i].0;
      var c := v.entries[i].1;
      if !c.JObj? then
        assert DocPaths(v, i, keys) == DocPaths(v, i + 1, keys);
        WalkFrom(doc, catalog, v, i + 1, b, stack, keys)
      else
        var keys' := keys + [k];
        ChildPath(doc, v, keys, i);
        assert keys'[..|keys'| - 1] == keys;
        var visited :- Visit(doc, catalog, b, stack, keys', c);
        var b1 := visited.0;
        StackKept(doc, b, b1, stack, keys);
        StackPush(doc, b1, stack, keys, k, visited.1);
        var b2 :- WalkFrom(doc, catalog, c, 0, b1, stack + [visited.1], keys');
        KeepsTrans(b, b1, b2);
        StackKept(doc, b, b2, stack, keys);
        var b3 :- WalkFrom(doc, catalog, v, i + 1, b2, stack, keys);
        KeepsTrans(b, b2, b3);
        VisitKeys(doc, b, b1, keys', c, visited.1);
        NumberedListed(b1);
        NumberedListed(b2);
        NumberedListed(b3);
        KeysOfParts(b, b1, b2, b3);
        assert DocPaths(v, i, keys) ==
          (if IsProcessDict(c) then [keys'] else []) + DocPaths(c, 0, keys') + DocPaths(v, i + 1, keys);
        Ok(b3)
  }

  /** The key paths the visit of the dictionary `c` at `keys` adds: its
      own when it is a process, none otherwise. */
  lemma VisitKeys(doc: Json, b: Build, b1: Build, keys: seq<string>, c: Json, x: Option<string>)
    requires Numbered(b1) && GetPath(doc, StrPath(keys)) == Ok(c)
    requires b1.order == b.order + (if x.Some? then [x.value] else [])
    requires x.Some? <==> NodeAt(doc, keys)
    requires x.Some? ==> x.value in b1.nodes && b1.nodes[x.value].keys == keys
    ensures KeysOf(b1.nodes, b1.order[|b.order|..]) == if IsProcessDict(c) then [keys] else []
  {
    assert b1.order[|b.order|..] == if x.Some? then [x.value] else [];
  }

  /** The key paths added over three successive stretches of the walk are
      those of each stretch, in turn. */
  lemma KeysOfParts(b: Build, b1: Build, b2: Build, b3: Build)
    requires Grows(b, b1) && Grows(b1, b2) && Grows(b2, b3)
    requires Listed(b1) && Listed(b2) && Listed(b3)
    ensures KeysOf(b3.nodes, b3.order[|b.order|..]) ==
      KeysOf(b1.nodes, b1.order[|b.order|..]) + KeysOf(b2.nodes, b2.order[|b1.order|..]) +
      KeysOf(b3.nodes, b3.order[|b2.order|..])
  {
    var s1, s2, s3 := b1.order[|b.order|..], b2.order[|b1.order|..], b3.order[|b2.order|..];
    assert b3.order[|b.order|..] == s1 + s2 + s3;
    KeysOfSame(b1.nodes, b3.nodes, s1);
    KeysOfSame(b2.nodes, b3.nodes, s2);
    KeysOfConcat(b3.nodes, s1 + s2, s3);
    KeysOfConcat(b3.nodes, s1, s2);
  }

  /** Nodes kept as they were keep their key paths. */
  lemma KeysOfSame(nodes: map<string, G.Node>, nodes': map<string, G.Node>, ids: seq<string>)
    requires forall x | x in ids :: x in nodes && x in nodes' && nodes'[x] == nodes[x]
    ensures KeysOf(nodes, ids) == KeysOf(nodes', ids)
  {
  }

  /** The key paths of a concatenation of ids. */
  lemma KeysOfConcat(nodes: map<string, G.Node>, s: seq<string>, t: seq<string>)
    requires forall x | x in s + t :: x in nodes
    ensures KeysOf(nodes, s + t) == KeysOf(nodes, s) + KeysOf(nodes, t)
  {
  }

  /** Pushing the entry of the visited child keeps the stack in step with
      the key path. */
  lemma StackPush(doc: Json, b: Build, stack: seq<Option<string>>, keys: seq<string>, k: string, x: Option<string>)
    requires StackOk(doc, b, stack, keys)
    requires x.Some? <==> NodeAt(doc, keys + [k])
    requires x.Some? ==> x.value in b.nodes && b.nodes[x.value].keys == keys + [k]
    ensures StackOk(doc, b, stack + [x], keys + [k])
  {
    var s := stack + [x];
    var ks := keys + [k];
    assert ks[..|ks|] == ks;
    forall j | 0 <= j < |stack| ensures ks[..j + 1] == keys[..j + 1] && s[j] == stack[j] {
    }
  }

  /** `walk_process_graph` on the process graph dictionary: the nodes in
      creation order and their callback edges.  A process graph that is not
      a dictionary has no `items`. */
  function WalkProcessGraph(pg: Json, catalog: Catalog): (r: Result<Build>)
    requires Wf(pg)
    ensures !pg.JObj? ==> r == Err(BadType)
    ensures r.Ok? ==> Inv(pg, catalog, r.value)
    ensures r.Ok? ==> pg.JObj? && KeysOf(r.value.nodes, r.value.order) == DocPaths(pg, 0, [])
  {
    if !pg.JObj? then Err(BadType)
    else
      var b := Build([], map[], map[]);
      assert GetPath(pg, StrPath([])) == Ok(pg);
      WalkFrom(pg, catalog, pg, 0, b, [], [])
  }

  /** Every process dictionary the document reaches through dictionaries
      becomes a node, and every node is one of them. */
  lemma WalkProcessGraphNodes(pg: Json, catalog: Catalog, p: seq<string>)
    requires Wf(pg) && WalkProcessGraph(pg, catalog).Ok?
    ensures var b := WalkProcessGraph(pg, catalog).value;
      ReachesProcess(pg, p) <==> exists n | 0 <= n < |b.order| :: b.nodes[b.order[n]].keys == p
  {
    var b := WalkProcessGraph(pg, catalog).value;
    DocPathsExactly(pg, p);
    var ks := KeysOf(b.nodes, b.order);
    if p in ks {
      var n :| 0 <= n < |ks| && ks[n] == p;
      assert b.nodes[b.order[n]].keys == p;
    }
  }
}
