/** Edges and per-node edge lists, shared by the current graph store and
    the legacy python generation (`Edge`, `Node.add_edge`, `create_edge`,
    `Graph.update`).  A node's edge list lives in a map from node id to the
    list, and an edge names its endpoints by id. */
module Adjacency {
  import opened Results

  /** A directed edge `src -> dst` of one kind ("callback", "data", "process"). */
  datatype Edge = Edge(id: string, name: string, src: string, dst: string, hidden: bool)

  /** `Edge.__init__`: an endpoint list must have exactly two nodes. */
  function MakeEdge(id: string, name: string, ends: seq<string>, hidden: bool): (r: Result<Edge>)
    ensures r.Ok? <==> |ends| == 2
    ensures r.Err? ==> r.error == EdgeArity
    ensures r.Ok? ==> r.value.src == ends[0] && r.value.dst == ends[1] && r.value.id == id &&
                      r.value.name == name && r.value.hidden == hidden
  {
    if |ends| != 2 then Err(EdgeArity) else Ok(Edge(id, name, ends[0], ends[1], hidden))
  }

  /** `Edge.__eq__`: same ordered endpoint ids and same kind; the id and the
      hidden flag do not take part. */
  predicate SameEdge(a: Edge, b: Edge) {
    a.src == b.src && a.dst == b.dst && a.name == b.name
  }

  /** An edge equal to `e` is listed in `es`. */
  predicate Has(es: seq<Edge>, e: Edge) {
    exists i | 0 <= i < |es| :: SameEdge(es[i], e)
  }

  /** No two listed edges are equal. */
  predicate Distinct(es: seq<Edge>) {
    forall i, j | 0 <= i < j < |es| :: !SameEdge(es[i], es[j])
  }

  /** `Node.add_edge`: appends `e` unless an equal edge is already listed. */
  function AddEdge(es: seq<Edge>, e: Edge): (r: seq<Edge>)
    ensures Has(r, e)
    ensures Has(es, e) ==> r == es
    ensures !Has(es, e) ==> r == es + [e]
    ensures Distinct(es) ==> Distinct(r)
  {
    if Has(es, e) then es
    else
      assert (es + [e])[|es|] == e;
      es + [e]
  }

  /** Edge lists by node id. */
  type Adj = map<string, seq<Edge>>

  /** The edge list of a node; a node without an entry has none. */
  function EdgesOf(adj: Adj, id: string): seq<Edge> {
    if id in adj then adj[id] else []
  }

  /** `add_edge` on the node with id `id`. */
  function AddEdgeAt(adj: Adj, id: string, e: Edge): (r: Adj)
    ensures r.Keys == adj.Keys + {id}
    ensures EdgesOf(r, id) == AddEdge(EdgesOf(adj, id), e)
    ensures forall x | x != id :: EdgesOf(r, x) == EdgesOf(adj, x)
  {
    adj[id := AddEdge(EdgesOf(adj, id), e)]
  }

  /** The id `create_edge` gives an edge: the endpoint ids joined by "_". */
  function EdgeId(src: string, dst: string): string {
    src + "_" + dst
  }

  /** `create_edge`: builds the edge and records it on the target, then on
      the source. */
  function CreateEdge(adj: Adj, src: string, dst: string, name: string, hidden: bool): (r: Adj)
    ensures r.Keys == adj.Keys + {src, dst}
    ensures Has(EdgesOf(r, src), Edge(EdgeId(src, dst), name, src, dst, hidden))
    ensures Has(EdgesOf(r, dst), Edge(EdgeId(src, dst), name, src, dst, hidden))
    ensures forall x | x != src && x != dst :: EdgesOf(r, x) == EdgesOf(adj, x)
    ensures forall x :: Grows(EdgesOf(adj, x), EdgesOf(r, x))
    ensures forall x, i | |EdgesOf(adj, x)| <= i < |EdgesOf(r, x)| ::
      EdgesOf(r, x)[i] == Edge(EdgeId(src, dst), name, src, dst, hidden)
    ensures src != dst ==> EdgesOf(r, src) == AddEdge(EdgesOf(adj, src), Edge(EdgeId(src, dst), name, src, dst, hidden))
    ensures src != dst ==> EdgesOf(r, dst) == AddEdge(EdgesOf(adj, dst), Edge(EdgeId(src, dst), name, src, dst, hidden))
  {
    var e := Edge(EdgeId(src, dst), name, src, dst, hidden);
    var a1 := AddEdgeAt(adj, dst, e);
    var a2 := AddEdgeAt(a1, src, e);
    assert EdgesOf(a2, dst) == EdgesOf(a1, dst) || src == dst;
    a2
  }

  /** `es` is a prefix of `es'`: edges were only appended. */
  predicate Grows(es: seq<Edge>, es': seq<Edge>) {
    es <= es'
  }

  /** Every node's list in `adj` is a prefix of its list in `adj'`. */
  ghost predicate Extends(adj: Adj, adj': Adj) {
    forall x :: Grows(EdgesOf(adj, x), EdgesOf(adj', x))
  }

  /** An edge listed (up to equality) on both of its endpoints. */
  predicate OnBothEnds(adj: Adj, e: Edge) {
    Has(EdgesOf(adj, e.src), e) && Has(EdgesOf(adj, e.dst), e)
  }

  /** Every listed edge is listed on both of its endpoints. */
  predicate Symmetric(adj: Adj) {
    forall x, i | x in adj && 0 <= i < |adj[x]| :: OnBothEnds(adj, adj[x][i])
  }

  /** Every endpoint of a listed edge has an entry. */
  predicate Closed(adj: Adj) {
    forall x, i | x in adj && 0 <= i < |adj[x]| :: adj[x][i].src in adj && adj[x][i].dst in adj
  }

  /* ---------------------------------------------------------------------
     Graph.update
     --------------------------------------------------------------------- */

  /** `add_edge` on endpoint `x` of `e`, unless `x` is the pushing node `n`. */
  function AddUnless(adj: Adj, n: string, x: string, e: Edge): (r: Adj)
    ensures Extends(adj, r)
    ensures EdgesOf(r, n) == EdgesOf(adj, n)
    ensures x != n ==> Has(EdgesOf(r, x), e)
    ensures forall y :: Has(EdgesOf(adj, y), e) ==> Has(EdgesOf(r, y), e)
    ensures forall y, i | |EdgesOf(adj, y)| <= i < |EdgesOf(r, y)| :: EdgesOf(r, y)[i] == e
    ensures adj.Keys <= r.Keys <= adj.Keys + {x}
  {
    if x == n then adj else AddEdgeAt(adj, x, e)
  }

  /** One edge of node `n`: `add_edge` on each endpoint other than `n`. */
  function PushEdge(adj: Adj, n: string, e: Edge): (r: Adj)
    ensures Extends(adj, r)
    ensures EdgesOf(r, n) == EdgesOf(adj, n)
    ensures e.src != n ==> Has(EdgesOf(r, e.src), e)
    ensures e.dst != n ==> Has(EdgesOf(r, e.dst), e)
    ensures forall x, i | |EdgesOf(adj, x)| <= i < |EdgesOf(r, x)| :: EdgesOf(r, x)[i] == e
    ensures r.Keys <= adj.Keys + {e.src, e.dst}
    ensures adj.Keys <= r.Keys
  {
    var a1 := AddUnless(adj, n, e.src, e);
    var a2 := AddUnless(a1, n, e.dst, e);
    assert forall x, i | |EdgesOf(adj, x)| <= i < |EdgesOf(a2, x)| :: EdgesOf(a2, x)[i] == e by {
      forall x, i | |EdgesOf(adj, x)| <= i < |EdgesOf(a2, x)| ensures EdgesOf(a2, x)[i] == e {
        if i < |EdgesOf(a1, x)| {
          assert EdgesOf(a2, x)[i] == EdgesOf(a1, x)[i];
        }
      }
    }
    a2
  }

  /** The edges `es[j..]` of node `n`, pushed in order. */
  function PushEdges(adj: Adj, n: string, es: seq<Edge>, j: nat): (r: Adj)
    requires j <= |es|
    ensures Extends(adj, r)
    ensures EdgesOf(r, n) == EdgesOf(adj, n)
    ensures forall k | j <= k < |es| && es[k].src != n :: Has(EdgesOf(r, es[k].src), es[k])
    ensures forall k | j <= k < |es| && es[k].dst != n :: Has(EdgesOf(r, es[k].dst), es[k])
    ensures forall x, i | |EdgesOf(adj, x)| <= i < |EdgesOf(r, x)| :: EdgesOf(r, x)[i] in es[j..]
    decreases |es| - j
  {
    if j == |es| then adj
    else
      var a1 := PushEdge(adj, n, es[j]);
      var r := PushEdges(a1, n, es, j + 1);
      PushEdgesStep(adj, a1, r, n, es, j);
      r
  }

  /** The step of PushEdges: what pushing `es[j]` and then `es[j + 1..]`
      adds. */
  lemma PushEdgesStep(adj: Adj, a1: Adj, r: Adj, n: string, es: seq<Edge>, j: nat)
    requires j < |es| && a1 == PushEdge(adj, n, es[j])
    requires Extends(a1, r)
    requires forall k | j + 1 <= k < |es| && es[k].src != n :: Has(EdgesOf(r, es[k].src), es[k])
    requires forall k | j + 1 <= k < |es| && es[k].dst != n :: Has(EdgesOf(r, es[k].dst), es[k])
    requires forall x, i | |EdgesOf(a1, x)| <= i < |EdgesOf(r, x)| :: EdgesOf(r, x)[i] in es[j + 1..]
    ensures Extends(adj, r)
    ensures forall k | j <= k < |es| && es[k].src != n :: Has(EdgesOf(r, es[k].src), es[k])
    ensures forall k | j <= k < |es| && es[k].dst != n :: Has(EdgesOf(r, es[k].dst), es[k])
    ensures forall x, i | |EdgesOf(adj, x)| <= i < |EdgesOf(r, x)| :: EdgesOf(r, x)[i] in es[j..]
  {
    if es[j].src != n {
      HasGrows(EdgesOf(a1, es[j].src), EdgesOf(r, es[j].src), es[j]);
    }
    if es[j].dst != n {
      HasGrows(EdgesOf(a1, es[j].dst), EdgesOf(r, es[j].dst), es[j]);
    }
    PushedFromSuffix(adj, a1, r, es, j);
    ExtendsTrans(adj, a1, r);
  }

  /** The edges appended over two pushes come from `es[j..]` when the first
      appended only `es[j]` and the second only edges of `es[j + 1..]`. */
  lemma PushedFromSuffix(adj: Adj, a1: Adj, r: Adj, es: seq<Edge>, j: nat)
    requires j < |es| && Extends(adj, a1) && Extends(a1, r)
    requires forall x, i | |EdgesOf(adj, x)| <= i < |EdgesOf(a1, x)| :: EdgesOf(a1, x)[i] == es[j]
    requires forall x, i | |EdgesOf(a1, x)| <= i < |EdgesOf(r, x)| :: EdgesOf(r, x)[i] in es[j + 1..]
    ensures forall x, i | |EdgesOf(adj, x)| <= i < |EdgesOf(r, x)| :: EdgesOf(r, x)[i] in es[j..]
  {
    forall x, i | |EdgesOf(adj, x)| <= i < |EdgesOf(r, x)| ensures EdgesOf(r, x)[i] in es[j..] {
      assert Grows(EdgesOf(a1, x), EdgesOf(r, x));
      if i < |EdgesOf(a1, x)| {
        assert EdgesOf(r, x)[i] == EdgesOf(a1, x)[i] == es[j] == es[j..][0];
      } else {
        var t :| 0 <= t < |es[j + 1..]| && es[j + 1..][t] == EdgesOf(r, x)[i];
        assert es[j..][t + 1] == es[j + 1..][t];
      }
    }
  }

  /** Appending is transitive. */
  lemma ExtendsTrans(a: Adj, b: Adj, c: Adj)
    requires Extends(a, b) && Extends(b, c)
    ensures Extends(a, c)
  {
    forall x ensures Grows(EdgesOf(a, x), EdgesOf(c, x)) {
      assert Grows(EdgesOf(a, x), EdgesOf(b, x)) && Grows(EdgesOf(b, x), EdgesOf(c, x));
    }
  }

  lemma HasGrows(es: seq<Edge>, es': seq<Edge>, e: Edge)
    requires Grows(es, es') && Has(es, e)
    ensures Has(es', e)
  {
    var i :| 0 <= i < |es| && SameEdge(es[i], e);
    assert es'[i] == es[i];
  }

  /** Every edge listed in `adj` joins two members of `s`. */
  predicate EndsIn(adj: Adj, s: set<string>) {
    forall x, i | x in adj && 0 <= i < |adj[x]| :: adj[x][i].src in s && adj[x][i].dst in s
  }

  /** `Graph.update`: every node, in graph order, pushes each of its edges
      to the other endpoint. */
  function Update(adj: Adj, order: seq<string>): (r: Adj)
    ensures Extends(adj, r)
    decreases |order|
  {
    if |order| == 0 then adj
    else
      var n := order[|order| - 1];
      var a := Update(adj, order[..|order| - 1]);
      PushEdges(a, n, EdgesOf(a, n), 0)
  }

  /** Edge `i` of node `y` is settled once `y` has pushed its edges, or
      when it was appended during the pass. */
  ghost predicate Settled(adj0: Adj, adj: Adj, done: seq<string>) {
    forall y, i | 0 <= i < |EdgesOf(adj, y)| && (y in done || i >= |EdgesOf(adj0, y)|) ::
      OnBothEnds(adj, EdgesOf(adj, y)[i])
  }

  lemma OnBothEndsGrows(adj: Adj, adj': Adj, e: Edge)
    requires Extends(adj, adj') && OnBothEnds(adj, e)
    ensures OnBothEnds(adj', e)
  {
    HasGrows(EdgesOf(adj, e.src), EdgesOf(adj', e.src), e);
    HasGrows(EdgesOf(adj, e.dst), EdgesOf(adj', e.dst), e);
  }

  /** A node that pushed its edges leaves each of them on both endpoints. */
  lemma PushedSettles(a: Adj, n: string, e: Edge)
    requires e in EdgesOf(a, n)
    ensures OnBothEnds(PushEdges(a, n, EdgesOf(a, n), 0), e)
  {
    var es := EdgesOf(a, n);
    var r := PushEdges(a, n, es, 0);
    var k :| 0 <= k < |es| && es[k] == e;
    assert EdgesOf(r, n) == es;
    assert Has(es, e) by { assert SameEdge(es[k], e); }
  }

  /** One more node of the pass keeps every settled edge settled and settles
      that node's edges and every edge it appends. */
  lemma UpdateStep(adj0: Adj, a: Adj, n: string, done: seq<string>)
    requires Extends(adj0, a) && Settled(adj0, a, done)
    ensures Settled(adj0, PushEdges(a, n, EdgesOf(a, n), 0), done + [n])
  {
    var r := PushEdges(a, n, EdgesOf(a, n), 0);
    forall y, i | 0 <= i < |EdgesOf(r, y)| && (y in done + [n] || i >= |EdgesOf(adj0, y)|)
      ensures OnBothEnds(r, EdgesOf(r, y)[i])
    {
      StepOne(adj0, a, n, done, y, i);
    }
  }

  lemma StepOne(adj0: Adj, a: Adj, n: string, done: seq<string>, y: string, i: int)
    requires Extends(adj0, a) && Settled(adj0, a, done)
    requires 0 <= i < |EdgesOf(PushEdges(a, n, EdgesOf(a, n), 0), y)|
    requires y in done + [n] || i >= |EdgesOf(adj0, y)|
    ensures OnBothEnds(PushEdges(a, n, EdgesOf(a, n), 0), EdgesOf(PushEdges(a, n, EdgesOf(a, n), 0), y)[i])
  {
    var es := EdgesOf(a, n);
    var r := PushEdges(a, n, es, 0);
    var e := EdgesOf(r, y)[i];
    if i >= |EdgesOf(a, y)| {
      assert e in es[0..];
      PushedSettles(a, n, e);
    } else if y == n {
      assert e == es[i];
      PushedSettles(a, n, e);
    } else {
      OldEdgeSettled(adj0, a, r, done, y, i);
    }
  }

  /** An edge already settled before the push stays settled after it. */
  lemma OldEdgeSettled(adj0: Adj, a: Adj, r: Adj, done: seq<string>, y: string, i: int)
    requires Extends(a, r) && Settled(adj0, a, done)
    requires 0 <= i < |EdgesOf(a, y)| && (y in done || i >= |EdgesOf(adj0, y)|)
    ensures i < |EdgesOf(r, y)| && OnBothEnds(r, EdgesOf(r, y)[i])
  {
    assert EdgesOf(a, y) <= EdgesOf(r, y);
    var e := EdgesOf(a, y)[i];
    assert OnBothEnds(a, e);
    OnBothEndsGrows(a, r, e);
  }

  lemma {:induction false} UpdateSettles(adj: Adj, order: seq<string>)
    ensures Settled(adj, Update(adj, order), order)
    decreases |order|
  {
    if |order| > 0 {
      UpdateSettles(adj, order[..|order| - 1]);
      SettlesLast(adj, order);
    }
  }

  lemma SettlesLast(adj: Adj, order: seq<string>)
    requires |order| > 0
    requires Settled(adj, Update(adj, order[..|order| - 1]), order[..|order| - 1])
    ensures Settled(adj, Update(adj, order), order)
  {
    var init := order[..|order| - 1];
    var n := order[|order| - 1];
    SnocLast(order);
    UpdateStep(adj, Update(adj, init), n, init);
  }

  lemma SnocLast(s: seq<string>)
    requires |s| > 0
    ensures s[..|s| - 1] + [s[|s| - 1]] == s
  {
  }

  /** After `update` over every node, each listed edge is listed on both of
      its endpoints. */
  lemma UpdateSymmetric(adj: Adj, order: seq<string>)
    requires forall x | x in adj :: x in order
    ensures Symmetric(Update(adj, order))
  {
    UpdateSettles(adj, order);
    var r := Update(adj, order);
    forall x, i | x in r && 0 <= i < |r[x]| ensures OnBothEnds(r, r[x][i]) {
      assert EdgesOf(r, x) == r[x];
      assert x in adj || |EdgesOf(adj, x)| == 0;
    }
  }

  lemma AddEdgeAtNoOp(adj: Adj, id: string, e: Edge)
    requires Has(EdgesOf(adj, id), e)
    ensures AddEdgeAt(adj, id, e) == adj
  {
    assert id in adj;
  }

  /** On a symmetric store, pushing a node's edges changes nothing. */
  lemma {:induction false} PushEdgesNoOp(adj: Adj, n: string, j: nat)
    requires Symmetric(adj) && j <= |EdgesOf(adj, n)|
    ensures PushEdges(adj, n, EdgesOf(adj, n), j) == adj
    decreases |EdgesOf(adj, n)| - j
  {
    var es := EdgesOf(adj, n);
    if j < |es| {
      var e := es[j];
      assert n in adj && e == adj[n][j];
      assert OnBothEnds(adj, e);
      AddEdgeAtNoOp(adj, e.src, e);
      AddEdgeAtNoOp(adj, e.dst, e);
      assert PushEdge(adj, n, e) == adj;
      PushEdgesNoOp(adj, n, j + 1);
    }
  }

  /** On a symmetric store `update` changes nothing. */
  lemma {:induction false} UpdateNoOp(adj: Adj, order: seq<string>)
    requires Symmetric(adj)
    ensures Update(adj, order) == adj
    decreases |order|
  {
    if |order| > 0 {
      UpdateNoOp(adj, order[..|order| - 1]);
      PushEdgesNoOp(adj, order[|order| - 1], 0);
    }
  }

  /** `update` only appends edges, and a second run changes nothing. */
  lemma UpdateIdempotent(adj: Adj, order: seq<string>)
    requires forall x | x in adj :: x in order
    ensures Extends(adj, Update(adj, order))
    ensures Update(Update(adj, order), order) == Update(adj, order)
  {
    UpdateSymmetric(adj, order);
    UpdateNoOp(Update(adj, order), order);
  }

  /** On a closed store `update` adds no node entries and keeps it closed. */
  lemma {:induction false} UpdateClosed(adj: Adj, order: seq<string>)
    requires Closed(adj)
    ensures Update(adj, order).Keys == adj.Keys
    ensures Closed(Update(adj, order))
    decreases |order|
  {
    if |order| > 0 {
      var n := order[|order| - 1];
      UpdateClosed(adj, order[..|order| - 1]);
      var a := Update(adj, order[..|order| - 1]);
      PushEdgesClosed(a, n, 0);
    }
  }

  lemma PushEdgeClosed(a: Adj, n: string, e: Edge)
    requires Closed(a) && e.src in a && e.dst in a
    ensures PushEdge(a, n, e).Keys == a.Keys
    ensures Closed(PushEdge(a, n, e))
  {
    var a1: Adj := PushEdge(a, n, e);
    forall x: string, i: int | x in a1 && 0 <= i < |a1[x]| ensures a1[x][i].src in a1 && a1[x][i].dst in a1 {
      assert EdgesOf(a1, x) == a1[x];
      if i >= |EdgesOf(a, x)| {
        assert a1[x][i] == e;
      } else {
        assert EdgesOf(a, x) <= EdgesOf(a1, x);
        assert a1[x][i] == a[x][i];
      }
    }
  }

  lemma {:induction false} PushEdgesClosed(a: Adj, n: string, j: nat)
    requires Closed(a) && j <= |EdgesOf(a, n)|
    ensures PushEdges(a, n, EdgesOf(a, n), j).Keys == a.Keys
    ensures Closed(PushEdges(a, n, EdgesOf(a, n), j))
    decreases |EdgesOf(a, n)| - j
  {
    var es := EdgesOf(a, n);
    if j < |es| {
      var e := es[j];
      assert n in a && e == a[n][j];
      PushEdgeClosed(a, n, e);
      var a1 := PushEdge(a, n, e);
      assert EdgesOf(a1, n) == es;
      PushEdgesClosed(a1, n, j + 1);
    }
  }

  /** `update` only copies edges that are already listed, so every endpoint
      stays among the members of `s`. */
  lemma {:induction false} UpdateEndsIn(adj: Adj, order: seq<string>, s: set<string>)
    requires EndsIn(adj, s)
    ensures EndsIn(Update(adj, order), s)
    decreases |order|
  {
    if |order| > 0 {
      var n := order[|order| - 1];
      UpdateEndsIn(adj, order[..|order| - 1], s);
      var a := Update(adj, order[..|order| - 1]);
      var r: Adj := PushEdges(a, n, EdgesOf(a, n), 0);
      forall x: string, i: int | x in r && 0 <= i < |r[x]| ensures r[x][i].src in s && r[x][i].dst in s {
        assert EdgesOf(r, x) == r[x];
        if i < |EdgesOf(a, x)| {
          assert x in a && r[x][i] == a[x][i];
        } else {
          assert r[x][i] in EdgesOf(a, n)[0..];
          var k :| 0 <= k < |EdgesOf(a, n)| && EdgesOf(a, n)[k] == r[x][i];
          assert n in a && a[n][k] == r[x][i];
        }
      }
    }
  }

  /** Pushing edges whose endpoints lie in `s` adds entries only for
      members of `s`. */
  lemma {:induction false} PushEdgesKeys(adj: Adj, n: string, es: seq<Edge>, j: nat, s: set<string>)
    requires j <= |es| && forall k | j <= k < |es| :: es[k].src in s && es[k].dst in s
    ensures PushEdges(adj, n, es, j).Keys <= adj.Keys + s
    decreases |es| - j
  {
    if j < |es| {
      PushEdgesKeys(PushEdge(adj, n, es[j]), n, es, j + 1, s);
    }
  }

  /** `update` adds entries only for endpoints of listed edges. */
  lemma {:induction false} UpdateKeys(adj: Adj, order: seq<string>, s: set<string>)
    requires EndsIn(adj, s)
    ensures Update(adj, order).Keys <= adj.Keys + s
    decreases |order|
  {
    if |order| > 0 {
      var n := order[|order| - 1];
      UpdateKeys(adj, order[..|order| - 1], s);
      UpdateEndsIn(adj, order[..|order| - 1], s);
      var a := Update(adj, order[..|order| - 1]);
      forall k | 0 <= k < |EdgesOf(a, n)| ensures EdgesOf(a, n)[k].src in s && EdgesOf(a, n)[k].dst in s {
        assert n in a && a[n][k] == EdgesOf(a, n)[k];
      }
      PushEdgesKeys(a, n, EdgesOf(a, n), 0, s);
    }
  }
}
