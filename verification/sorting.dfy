/** `Graph._linear_sorting` and `Graph.sort`: ordering the nodes of a graph
    by data dependency or by depth.  A node that calls a sub-process is
    visited twice, once entering the callback (`<id>_in`) and once leaving
    it (`<id>_out`); the dependency order is a topological order of these
    markers, collapsed back to node ids. */
module Sorting {
  import opened Results
  import opened Seqs
  import opened Strs
  import opened Adjacency
  import opened Graph

  /* ---------------------------------------------------------------------
     Collecting the edges
     --------------------------------------------------------------------- */

  /** The edge lists of the listed nodes, one after the other. */
  function AllEdges(adj: Adj, ids: seq<string>): (r: seq<Edge>)
    ensures forall e :: e in r <==> exists x | x in ids :: e in EdgesOf(adj, x)
  {
    if |ids| == 0 then []
    else
      var rest := AllEdges(adj, ids[1..]);
      assert forall x | x in ids :: x == ids[0] || x in ids[1..];
      EdgesOf(adj, ids[0]) + rest
  }

  /** Appends the non-callback edges of `es` that are not yet listed. */
  function Collect(es: seq<Edge>, acc: seq<Edge>): (r: seq<Edge>)
    requires Distinct(acc)
    ensures Distinct(r) && acc <= r
    ensures forall i | |acc| <= i < |r| :: r[i] in es && r[i].name != "callback"
    ensures forall e | e in es && e.name != "callback" :: Has(r, e)
    decreases |es|
  {
    if |es| == 0 then acc
    else
      var e := es[0];
      if Has(acc, e) || e.name == "callback" then
        var r := Collect(es[1..], acc);
        assert forall x | x in es[1..] :: x in es;
        r
      else
        var acc' := acc + [e];
        assert acc'[|acc|] == e;
        var r := Collect(es[1..], acc');
        assert r[|acc|] == e && SameEdge(r[|acc|], e);
        assert forall x | x in es[1..] :: x in es;
        r
  }

  /** The edges `_linear_sorting` orders by: every non-callback edge of the
      graph's nodes, each equal edge once. */
  function CollectEdges(g: Graph): (r: seq<Edge>)
    ensures Distinct(r)
    ensures forall e | e in r :: e.name != "callback" && exists x | x in g.ids :: e in EdgesOf(g.adj, x)
    ensures forall x, e | x in g.ids && e in EdgesOf(g.adj, x) && e.name != "callback" :: Has(r, e)
  {
    Collect(AllEdges(g.adj, g.ids), [])
  }

  /* ---------------------------------------------------------------------
     Markers and their dependencies
     --------------------------------------------------------------------- */

  /** A vertex of the dependency graph: a node entering its callback, a
      node leaving it, or a node that uses no callback. */
  datatype Marker = In(id: string) | Out(id: string) | Bare(id: string)

  /** The vertex name the source builds for a marker. */
  function Name(m: Marker): string {
    match m
    case In(x) => x + "_in"
    case Out(x) => x + "_out"
    case Bare(x) => x
  }

  /** A node's marker on the side of the callback it is reached from. */
  function Side(g: Graph, id: string, useSide: bool, side: Marker): Marker {
    if useSide && UsesCallback(g.adj, id) then side else Bare(id)
  }

  /** The dependency one edge contributes: data flowing into a deeper node
      starts from the source entering its callback; a process edge out of a
      deeper node ends at the target leaving its callback; on one level a
      process edge leaves the source and enters the target.  A data edge on
      one level, and an edge of any other name, contributes nothing. */
  function MarkerPair(g: Graph, e: Edge): (r: Option<(Marker, Marker)>)
    requires e.src in g.nodes && e.dst in g.nodes
    ensures r.Some? ==> r.value.0.id == e.src && r.value.1.id == e.dst
  {
    var a := g.nodes[e.src];
    var b := g.nodes[e.dst];
    if a.depth < b.depth then
      if e.name == "data" then Some((In(e.src), Side(g, e.dst, true, In(e.dst)))) else None
    else if a.depth > b.depth then
      if e.name == "process" then Some((Side(g, e.src, true, Out(e.src)), Out(e.dst))) else None
    else if e.name == "process" then
      Some((Side(g, e.src, true, Out(e.src)), Side(g, e.dst, true, In(e.dst))))
    else None
  }

  /** The marker pairs of a list of edges, in edge order. */
  function MarkerPairs(g: Graph, es: seq<Edge>): (r: seq<(Marker, Marker)>)
    requires forall e | e in es :: e.src in g.nodes && e.dst in g.nodes
    ensures forall p :: p in r <==> exists e | e in es :: MarkerPair(g, e) == Some(p)
  {
    if |es| == 0 then []
    else
      var rest := MarkerPairs(g, es[1..]);
      assert forall e | e in es :: e == es[0] || e in es[1..];
      var head := match MarkerPair(g, es[0]) case Some(p) => [p] case None => [];
      head + rest
  }

  /** A named dependency: the first vertex must come before the second. */
  type Arc = (string, string)

  /** The dependency graph `ig.Graph.TupleList` builds from the marker pairs. */
  function Arcs(ps: seq<(Marker, Marker)>): (r: seq<Arc>)
    ensures |r| == |ps|
    ensures forall i | 0 <= i < |ps| :: r[i] == (Name(ps[i].0), Name(ps[i].1))
  {
    if |ps| == 0 then [] else [(Name(ps[0].0), Name(ps[0].1))] + Arcs(ps[1..])
  }

  /** Both ends of every arc, in order. */
  function Ends(arcs: seq<Arc>): (r: seq<string>)
    ensures forall v :: v in r <==> exists a | a in arcs :: v == a.0 || v == a.1
  {
    if |arcs| == 0 then []
    else
      var rest := Ends(arcs[1..]);
      assert forall a | a in arcs :: a == arcs[0] || a in arcs[1..];
      [arcs[0].0, arcs[0].1] + rest
  }

  /** The vertices of the dependency graph, in order of first appearance. */
  function Vertices(arcs: seq<Arc>): (r: seq<string>)
    ensures NoDup(r)
    ensures forall v :: v in r <==> exists a | a in arcs :: v == a.0 || v == a.1
  {
    DedupNoDup(Ends(arcs));
    Dedup(Ends(arcs))
  }

  /* ---------------------------------------------------------------------
     Topological order
     --------------------------------------------------------------------- */

  /** Every dependency of `v` is already placed. */
  predicate Ready(arcs: seq<Arc>, placed: seq<string>, v: string) {
    forall a | a in arcs && a.1 == v :: a.0 in placed
  }

  /** Every placed vertex comes after all of its dependencies. */
  predicate TopoOrdered(arcs: seq<Arc>, order: seq<string>) {
    forall a, j | a in arcs && 0 <= j < |order| && order[j] == a.1 :: a.0 in order[..j]
  }

  /** Placing a ready vertex keeps the order topological. */
  lemma PlaceReady(arcs: seq<Arc>, order: seq<string>, v: string)
    requires TopoOrdered(arcs, order) && Ready(arcs, order, v)
    ensures TopoOrdered(arcs, order + [v])
  {
    var o := order + [v];
    assert o[..|order|] == order;
    forall a, j | a in arcs && 0 <= j < |o| && o[j] == a.1
      ensures a.0 in o[..j]
    {
      if j < |order| {
        assert o[..j] == order[..j];
      }
    }
  }

  /** The position of the first ready vertex of `remaining`, if any. */
  function FirstReady(arcs: seq<Arc>, placed: seq<string>, remaining: seq<string>, i: nat): (r: Option<nat>)
    requires i <= |remaining|
    ensures r.Some? ==> i <= r.value < |remaining| && Ready(arcs, placed, remaining[r.value])
    ensures r.None? ==> forall k | i <= k < |remaining| :: !Ready(arcs, placed, remaining[k])
    decreases |remaining| - i
  {
    if i == |remaining| then None
    else if Ready(arcs, placed, remaining[i]) then Some(i)
    else FirstReady(arcs, placed, remaining, i + 1)
  }

  /** `topological_sorting`: repeatedly places the first vertex whose
      dependencies are all placed; on a cycle the vertices that never become
      ready are left out. */
  function Kahn(arcs: seq<Arc>, placed: seq<string>, remaining: seq<string>): (r: seq<string>)
    requires NoDup(placed + remaining)
    requires TopoOrdered(arcs, placed)
    ensures placed <= r && NoDup(r) && TopoOrdered(arcs, r)
    ensures forall v | v in r :: v in placed || v in remaining
    ensures forall v | v in remaining && v !in r :: !Ready(arcs, r, v)
    decreases |remaining|
  {
    assert forall i | 0 <= i < |placed| :: (placed + remaining)[i] == placed[i];
    match FirstReady(arcs, placed, remaining, 0)
    case None => placed
    case Some(k) =>
      var v := remaining[k];
      var rest := remaining[..k] + remaining[k + 1..];
      PlaceReady(arcs, placed, v);
      NoDupPick(placed, remaining, k);
      var r := Kahn(arcs, placed + [v], rest);
      assert placed <= placed + [v] <= r;
      assert forall u | u in rest :: u in remaining;
      assert r[|placed|] == (placed + [v])[|placed|] == v;
      KahnStuckStep(arcs, remaining, k, r);
      r
  }

  /** The vertices Kahn leaves unplaced in `rest` stay blocked once the
      picked vertex is put back. */
  lemma KahnStuckStep(arcs: seq<Arc>, remaining: seq<string>, k: nat, r: seq<string>)
    requires k < |remaining| && remaining[k] in r
    requires forall u | u in remaining[..k] + remaining[k + 1..] && u !in r :: !Ready(arcs, r, u)
    ensures forall u | u in remaining && u !in r :: !Ready(arcs, r, u)
  {
    forall u | u in remaining && u !in r ensures !Ready(arcs, r, u) {
      var j :| 0 <= j < |remaining| && remaining[j] == u;
      if j < k {
        assert u == (remaining[..k] + remaining[k + 1..])[j];
      } else {
        assert j > k;
        assert u == (remaining[..k] + remaining[k + 1..])[j - 1];
      }
    }
  }

  /** A numbering of the vertices that every arc climbs: such a numbering
      exists exactly when the dependency graph has no cycle. */
  predicate Ranks(arcs: seq<Arc>, rank: map<string, nat>) {
    forall a | a in arcs :: a.0 in rank && a.1 in rank && rank[a.0] < rank[a.1]
  }

  /** Without a cycle every remaining vertex of rank at most `n` is placed:
      an unplaced one waits on an unplaced dependency of lower rank. */
  lemma {:induction false} KahnPlacesRanked(arcs: seq<Arc>, rank: map<string, nat>,
                                            placed: seq<string>, remaining: seq<string>, n: nat)
    requires NoDup(placed + remaining) && TopoOrdered(arcs, placed) && Ranks(arcs, rank)
    requires forall a | a in arcs :: a.0 in placed || a.0 in remaining
    ensures forall v | v in remaining && v in rank && rank[v] <= n :: v in Kahn(arcs, placed, remaining)
  {
    var r := Kahn(arcs, placed, remaining);
    forall v | v in remaining && v in rank && rank[v] <= n ensures v in r {
      if v !in r {
        assert !Ready(arcs, r, v);
        var a :| a in arcs && a.1 == v && a.0 !in r;
        assert a.0 !in placed;
        KahnPlacesRanked(arcs, rank, placed, remaining, rank[v] - 1);
      }
    }
  }

  /** Moving one vertex from the remaining ones to the placed ones keeps
      them free of repetitions. */
  lemma NoDupPick(placed: seq<string>, remaining: seq<string>, k: nat)
    requires k < |remaining| && NoDup(placed + remaining)
    ensures NoDup(placed + [remaining[k]] + (remaining[..k] + remaining[k + 1..]))
  {
    var s := placed + remaining;
    var t := placed + [remaining[k]] + (remaining[..k] + remaining[k + 1..]);
    var pos := (i: nat) => if i < |placed| then i
                          else if i == |placed| then |placed| + k
                          else if i <= |placed| + k then i - 1
                          else i;
    assert forall i | 0 <= i < |t| :: pos(i) < |s| && t[i] == s[pos(i)];
    assert forall i, j | 0 <= i < j < |t| :: pos(i) != pos(j);
  }

  /* ---------------------------------------------------------------------
     Collapsing markers to node ids
     --------------------------------------------------------------------- */

  /** The characters of a string, as `str.rstrip` reads its argument. */
  function CharsOf(s: string): set<char> {
    set c | c in s
  }

  /** What one vertex name contributes to the node order: a name ending in
      the kept tag loses its trailing tag characters, a name ending in the
      other tag is dropped, any other name is kept. */
  function CollapseOne(n: string, useIn: bool): seq<string> {
    var mine := if useIn then "in" else "out";
    var other := if useIn then "out" else "in";
    if EndsWith(n, mine) then [RStrip(n, CharsOf("_" + mine))]
    else if EndsWith(n, other) then []
    else [n]
  }

  /** The node order of a vertex order. */
  function Collapse(ns: seq<string>, useIn: bool): (r: seq<string>)
    ensures forall x | x in r :: exists i | 0 <= i < |ns| :: x in CollapseOne(ns[i], useIn)
  {
    if |ns| == 0 then []
    else
      var init := ns[..|ns| - 1];
      var r := Collapse(init, useIn) + CollapseOne(ns[|ns| - 1], useIn);
      assert forall i | 0 <= i < |init| :: init[i] == ns[i];
      r
  }

  /** The node id a marker stands for in the order, if it is kept. */
  function Keep(m: Marker, useIn: bool): (r: Option<string>)
    ensures r.Some? ==> r.value == m.id
  {
    match m
    case In(x) => if useIn then Some(x) else None
    case Out(x) => if useIn then None else Some(x)
    case Bare(x) => Some(x)
  }

  /** A node id as the translation numbers it: non-empty and ending in a digit. */
  predicate Numbered(id: string) {
    |id| > 0 && IsDigit(id[|id| - 1])
  }

  /** The tag characters `str.rstrip` removes never include a digit. */
  lemma DigitNotTag(c: char, tag: string)
    requires IsDigit(c) && (tag == "in" || tag == "out")
    ensures c !in CharsOf("_" + tag)
  {
  }

  /** A name ending in `_in`: kept without its tag when entries are kept,
      dropped otherwise. */
  lemma CollapseIn(x: string, useIn: bool)
    requires Numbered(x)
    ensures CollapseOne(x + "_in", useIn) == (if useIn then [x] else [])
  {
    var n := x + "_in";
    assert n[|n| - 2..] == "in";
    if useIn {
      DigitNotTag(x[|x| - 1], "in");
      assert forall i | 0 <= i < |"_in"| :: "_in"[i] in CharsOf("_" + "in");
      RStripRecoversHead(x, "_in", CharsOf("_" + "in"));
    } else {
      assert n[|n| - 3..] == "_in";
    }
  }

  /** A name ending in `_out`: kept without its tag when exits are kept,
      dropped otherwise. */
  lemma CollapseOut(x: string, useIn: bool)
    requires Numbered(x)
    ensures CollapseOne(x + "_out", useIn) == (if useIn then [] else [x])
  {
    var n := x + "_out";
    assert n[|n| - 3..] == "out";
    assert n[|n| - 2..] == "ut";
    if !useIn {
      DigitNotTag(x[|x| - 1], "out");
      assert forall i | 0 <= i < |"_out"| :: "_out"[i] in CharsOf("_" + "out");
      RStripRecoversHead(x, "_out", CharsOf("_" + "out"));
    }
  }

  /** For a numbered id, collapsing a marker's name gives exactly the id the
      marker keeps: stripping the tag characters stops at the digit. */
  lemma CollapseMarker(m: Marker, useIn: bool)
    requires Numbered(m.id)
    ensures CollapseOne(Name(m), useIn) == (if Keep(m, useIn).Some? then [Keep(m, useIn).value] else [])
  {
    match m
    case In(x) => CollapseIn(x, useIn);
    case Out(x) => CollapseOut(x, useIn);
    case Bare(x) =>
      assert !EndsWith(x, "in") && !EndsWith(x, "out");
  }

  /** Each id a name contributes appears in the collapsed order at a
      position after everything the earlier names contribute. */
  lemma {:induction false} CollapseAt(ns: seq<string>, i: nat, useIn: bool, x: string) returns (p: nat)
    requires i < |ns| && CollapseOne(ns[i], useIn) == [x]
    ensures p < |Collapse(ns, useIn)| && Collapse(ns, useIn)[p] == x
    ensures |Collapse(ns[..i], useIn)| <= p
    decreases |ns|
  {
    var init := ns[..|ns| - 1];
    assert Collapse(ns, useIn) == Collapse(init, useIn) + CollapseOne(ns[|ns| - 1], useIn);
    if i == |ns| - 1 {
      assert init == ns[..i];
      p := |Collapse(init, useIn)|;
    } else {
      assert init[i] == ns[i] && init[..i] == ns[..i];
      p := CollapseAt(init, i, useIn, x);
    }
  }

  /** Collapsing keeps the relative order of the kept ids. */
  lemma {:induction false} CollapseOrder(ns: seq<string>, i: nat, j: nat, useIn: bool, x: string, y: string)
    returns (p: nat, q: nat)
    requires i < j < |ns|
    requires CollapseOne(ns[i], useIn) == [x] && CollapseOne(ns[j], useIn) == [y]
    ensures p < q < |Collapse(ns, useIn)|
    ensures Collapse(ns, useIn)[p] == x && Collapse(ns, useIn)[q] == y
  {
    q := CollapseAt(ns, j, useIn, y);
    var pre := ns[..j];
    assert pre[i] == ns[i];
    p := CollapseAt(pre, i, useIn, x);
    CollapsePrefix(ns, j, useIn);
  }

  /** The order of a prefix of the names is a prefix of the order. */
  lemma {:induction false} CollapsePrefix(ns: seq<string>, j: nat, useIn: bool)
    requires j <= |ns|
    ensures Collapse(ns[..j], useIn) <= Collapse(ns, useIn)
    decreases |ns|
  {
    if j < |ns| {
      var init := ns[..|ns| - 1];
      assert init[..j] == ns[..j];
      CollapsePrefix(init, j, useIn);
    } else {
      assert ns[..j] == ns;
    }
  }

  /* ---------------------------------------------------------------------
     Graph._linear_sorting
     --------------------------------------------------------------------- */

  /** The collected edges of a consistent graph join nodes of the arena. */
  lemma CollectedEnds(g: Graph)
    requires Wf(g)
    ensures forall e | e in CollectEdges(g) :: e.src in g.nodes && e.dst in g.nodes
  {
    forall e | e in CollectEdges(g) ensures e.src in g.nodes && e.dst in g.nodes {
      var x :| x in g.ids && e in EdgesOf(g.adj, x);
      var i :| 0 <= i < |g.adj[x]| && g.adj[x][i] == e;
    }
  }

  /** The dependency graph of `g`. */
  function DependencyArcs(g: Graph): seq<Arc>
    requires Wf(g)
  {
    CollectedEnds(g);
    Arcs(MarkerPairs(g, CollectEdges(g)))
  }

  /** Every dependency comes from the marker pair of a collected edge. */
  lemma ArcOfEdge(g: Graph, k: nat) returns (e: Edge, pr: (Marker, Marker))
    requires Wf(g) && k < |DependencyArcs(g)|
    ensures e in CollectEdges(g) && e.src in g.nodes && e.dst in g.nodes
    ensures MarkerPair(g, e) == Some(pr)
    ensures DependencyArcs(g)[k] == (Name(pr.0), Name(pr.1))
  {
    CollectedEnds(g);
    var es := CollectEdges(g);
    var ps := MarkerPairs(g, es);
    pr := ps[k];
    assert pr in ps;
    e :| e in es && MarkerPair(g, e) == Some(pr);
  }

  /** The marker pair of a collected edge is a dependency. */
  lemma EdgeArc(g: Graph, e: Edge, u: Marker, v: Marker) returns (k: nat)
    requires Wf(g) && e in CollectEdges(g)
    requires e.src in g.nodes && e.dst in g.nodes && MarkerPair(g, e) == Some((u, v))
    ensures k < |DependencyArcs(g)| && DependencyArcs(g)[k] == (Name(u), Name(v))
  {
    CollectedEnds(g);
    var ps := MarkerPairs(g, CollectEdges(g));
    assert (u, v) in ps;
    k :| 0 <= k < |ps| && ps[k] == (u, v);
  }

  /** Without a cycle the order holds every vertex of the dependency graph. */
  lemma OrderComplete(g: Graph, rank: map<string, nat>, v: string)
    requires Wf(g) && Ranks(DependencyArcs(g), rank) && v in Vertices(DependencyArcs(g))
    ensures v in Order(g)
  {
    var arcs := DependencyArcs(g);
    var vs := Vertices(arcs);
    assert [] + vs == vs;
    var a :| a in arcs && (v == a.0 || v == a.1);
    KahnPlacesRanked(arcs, rank, [], vs, rank[v]);
  }

  /** The topological order of the marker names. */
  function Order(g: Graph): (r: seq<string>)
    requires Wf(g)
    ensures NoDup(r) && TopoOrdered(DependencyArcs(g), r)
    ensures forall v | v in r :: exists k | 0 <= k < |DependencyArcs(g)| ::
      v == DependencyArcs(g)[k].0 || v == DependencyArcs(g)[k].1
  {
    var arcs := DependencyArcs(g);
    Kahn(arcs, [], Vertices(arcs))
  }

  /** `_linear_sorting`: the node ids in dependency order, each node at its
      entry into its callback (`useIn`) or at its exit. */
  function LinearSorting(g: Graph, useIn: bool): seq<string>
    requires Wf(g)
  {
    Collapse(Order(g), useIn)
  }

  /** Every node of a graph with numbered ids. */
  predicate AllNumbered(g: Graph) {
    forall x | x in g.nodes :: Numbered(x)
  }

  /** Every vertex of the order is the marker of an end of a collected edge. */
  lemma OrderVertex(g: Graph, v: string) returns (e: Edge, m: Marker)
    requires Wf(g) && v in Order(g)
    ensures e in CollectEdges(g) && e.src in g.nodes && e.dst in g.nodes && Name(m) == v
    ensures MarkerPair(g, e).Some? && (m == MarkerPair(g, e).value.0 || m == MarkerPair(g, e).value.1)
  {
    var k :| 0 <= k < |DependencyArcs(g)| &&
      (v == DependencyArcs(g)[k].0 || v == DependencyArcs(g)[k].1);
    var pr;
    e, pr := ArcOfEdge(g, k);
    m := if v == DependencyArcs(g)[k].0 then pr.0 else pr.1;
  }

  /** The order holds only ends of non-callback edges of the graph, each by
      a kept marker of the edge's dependency: a node that neither sends nor
      receives data or a process is absent. */
  lemma LinearSortingEnds(g: Graph, useIn: bool, x: string) returns (e: Edge, m: Marker)
    requires Wf(g) && AllNumbered(g) && x in LinearSorting(g, useIn)
    ensures e in CollectEdges(g) && e.src in g.nodes && e.dst in g.nodes
    ensures MarkerPair(g, e).Some? && (m == MarkerPair(g, e).value.0 || m == MarkerPair(g, e).value.1)
    ensures Keep(m, useIn) == Some(x) && (x == e.src || x == e.dst)
  {
    var ns := Order(g);
    var i :| 0 <= i < |ns| && x in CollapseOne(ns[i], useIn);
    e, m := VertexEnds(g, useIn, ns[i], x);
  }

  /** Without a cycle the converse holds too: every kept marker of a
      collected edge's dependency puts its node into the order. */
  lemma LinearSortingHasEnds(g: Graph, useIn: bool, rank: map<string, nat>, e: Edge, m: Marker)
    requires Wf(g) && AllNumbered(g) && Ranks(DependencyArcs(g), rank)
    requires e in CollectEdges(g) && e.src in g.nodes && e.dst in g.nodes
    requires MarkerPair(g, e).Some? && (m == MarkerPair(g, e).value.0 || m == MarkerPair(g, e).value.1)
    requires Keep(m, useIn).Some?
    ensures Keep(m, useIn).value in LinearSorting(g, useIn)
  {
    var pr := MarkerPair(g, e).value;
    var k := EdgeArc(g, e, pr.0, pr.1);
    var arcs := DependencyArcs(g);
    assert arcs[k] in arcs && (Name(m) == arcs[k].0 || Name(m) == arcs[k].1);
    OrderComplete(g, rank, Name(m));
    var ns := Order(g);
    var i :| 0 <= i < |ns| && ns[i] == Name(m);
    CollapseMarker(m, useIn);
    var p := CollapseAt(ns, i, useIn, Keep(m, useIn).value);
  }

  /** A node named by one vertex of the order is an endpoint of an edge. */
  lemma VertexEnds(g: Graph, useIn: bool, v: string, x: string) returns (e: Edge, m: Marker)
    requires Wf(g) && AllNumbered(g) && v in Order(g) && x in CollapseOne(v, useIn)
    ensures e in CollectEdges(g) && e.src in g.nodes && e.dst in g.nodes
    ensures MarkerPair(g, e).Some? && (m == MarkerPair(g, e).value.0 || m == MarkerPair(g, e).value.1)
    ensures Keep(m, useIn) == Some(x) && (x == e.src || x == e.dst)
  {
    e, m := OrderVertex(g, v);
    assert m.id == e.src || m.id == e.dst;
    KeptName(m, useIn, x);
  }

  /** An id a numbered marker's name contributes is the id the marker keeps. */
  lemma KeptName(m: Marker, useIn: bool, x: string)
    requires Numbered(m.id) && x in CollapseOne(Name(m), useIn)
    ensures Keep(m, useIn) == Some(x)
  {
    CollapseMarker(m, useIn);
  }

  /** The dependency order: when an edge makes marker `u` a dependency of
      marker `v` and both markers are kept, the node of `u` comes before the
      node of `v` in a graph without a cycle. */
  lemma LinearSortingOrder(g: Graph, useIn: bool, rank: map<string, nat>, e: Edge, u: Marker, v: Marker) returns (p: nat, q: nat)
    requires Wf(g) && AllNumbered(g)
    requires e in CollectEdges(g) && e.src in g.nodes && e.dst in g.nodes
    requires MarkerPair(g, e) == Some((u, v))
    requires Keep(u, useIn).Some? && Keep(v, useIn).Some?
    requires Ranks(DependencyArcs(g), rank)
    ensures p < q < |LinearSorting(g, useIn)|
    ensures LinearSorting(g, useIn)[p] == Keep(u, useIn).value
    ensures LinearSorting(g, useIn)[q] == Keep(v, useIn).value
  {
    var k := EdgeArc(g, e, u, v);
    assert DependencyArcs(g)[k] in DependencyArcs(g);
    OrderComplete(g, rank, Name(v));
    var ns := Order(g);
    var j :| 0 <= j < |ns| && ns[j] == Name(v);
    assert Name(u) in ns[..j];
    var i :| 0 <= i < j && ns[i] == Name(u);
    assert u.id in g.nodes && v.id in g.nodes;
    CollapseMarker(u, useIn);
    CollapseMarker(v, useIn);
    p, q := CollapseOrder(ns, i, j, useIn, Keep(u, useIn).value, Keep(v, useIn).value);
  }

  /* ---------------------------------------------------------------------
     Sorting by depth
     --------------------------------------------------------------------- */

  /** The depth of a node of the arena. */
  function Depth(g: Graph, x: string): int {
    if x in g.nodes then g.nodes[x].depth else 0
  }

  /** Depth never decreases along `s`. */
  predicate DepthSorted(g: Graph, s: seq<string>) {
    forall i, j | 0 <= i < j < |s| :: Depth(g, s[i]) <= Depth(g, s[j])
  }

  /** Inserts `x` into a depth-sorted list after every node not deeper than it. */
  function InsertByDepth(g: Graph, s: seq<string>, x: string): (r: seq<string>)
    requires DepthSorted(g, s)
    ensures DepthSorted(g, r)
    ensures multiset(r) == multiset(s) + multiset{x}
    decreases |s|
  {
    if |s| == 0 || Depth(g, s[|s| - 1]) <= Depth(g, x) then s + [x]
    else
      var r := InsertByDepth(g, s[..|s| - 1], x);
      InsertBelowLast(g, s, x, r);
      r + [s[|s| - 1]]
  }

  /** The step of `InsertByDepth` that puts the last node back behind the
      insertion into the rest. */
  lemma InsertBelowLast(g: Graph, s: seq<string>, x: string, r: seq<string>)
    requires DepthSorted(g, s) && |s| > 0 && Depth(g, x) < Depth(g, s[|s| - 1])
    requires DepthSorted(g, r) && multiset(r) == multiset(s[..|s| - 1]) + multiset{x}
    ensures DepthSorted(g, r + [s[|s| - 1]])
    ensures multiset(r + [s[|s| - 1]]) == multiset(s) + multiset{x}
  {
    var last := s[|s| - 1];
    var init := s[..|s| - 1];
    assert s == init + [last];
    forall k | 0 <= k < |r| ensures Depth(g, r[k]) <= Depth(g, last) {
      assert r[k] in multiset(r);
      if r[k] != x {
        assert r[k] in multiset(init);
        var j :| 0 <= j < |init| && init[j] == r[k];
        assert s[j] == r[k];
      }
    }
    var t := r + [last];
    forall i, j | 0 <= i < j < |t| ensures Depth(g, t[i]) <= Depth(g, t[j]) {
      if j == |r| { assert t[i] == r[i]; } else { assert t[i] == r[i] && t[j] == r[j]; }
    }
  }

  /** The nodes ordered from lower to higher depth (`np.argsort` of the
      depths); the order among nodes of one depth is not promised. */
  function SortByDepth(g: Graph, s: seq<string>): (r: seq<string>)
    ensures DepthSorted(g, r) && Perm(r, s)
  {
    if |s| == 0 then []
    else
      assert s == s[..|s| - 1] + [s[|s| - 1]];
      InsertByDepth(g, SortByDepth(g, s[..|s| - 1]), s[|s| - 1])
  }

  /* ---------------------------------------------------------------------
     Graph.sort
     --------------------------------------------------------------------- */

  /** `self[node_id]` for every id of a list, stopping at the first that
      fails. */
  function LookUpAll(g: Graph, names: seq<string>): (r: Result<seq<string>>)
    requires Wf(g)
    ensures r.Ok? ==> |r.value| == |names|
    ensures r.Ok? ==> forall i | 0 <= i < |names| :: GetItem(g, ItemStr(names[i])) == Ok(r.value[i])
    ensures r.Err? <==> exists i | 0 <= i < |names| :: GetItem(g, ItemStr(names[i])).Err?
    ensures r.Ok? ==> forall x | x in r.value :: x in g.ids
  {
    if |names| == 0 then Ok([])
    else
      match GetItem(g, ItemStr(names[0]))
      case Err(e) => Err(e)
      case Ok(x) =>
        match LookUpAll(g, names[1..])
        case Err(e) =>
          Err(e)
        case Ok(xs) =>
          assert forall i | 1 <= i < |names| :: names[i] == names[1..][i - 1];
          Ok([x] + xs)
  }

  /** Sorting by dependency (`useIn`) or by result: the graph of the nodes
      the collapsed order names. */
  function SortByDependency(g: Graph, useIn: bool): (r: Result<Graph>)
    requires Wf(g)
    ensures r.Ok? ==> r.value.nodes == g.nodes && r.value.adj == g.adj
    ensures r.Ok? ==> forall x | x in r.value.ids :: x in g.ids
    ensures AllNumbered(g) && (forall x | x in g.nodes :: x in g.ids) ==>
      r == Ok(FromList(g, LinearSorting(g, useIn)))
  {
    LinearSortingListed(g, useIn);
    var ids :- LookUpAll(g, LinearSorting(g, useIn));
    Ok(FromList(g, ids))
  }

  /** Sorting by depth: a permutation of the graph's nodes, shallow first. */
  function SortGraphByDepth(g: Graph): (r: Graph)
    requires Wf(g)
    ensures Perm(r.ids, g.ids) && DepthSorted(g, r.ids)
    ensures r.nodes == g.nodes && r.adj == g.adj
  {
    var s := SortByDepth(g, g.ids);
    PermNoDup(g.ids, s);
    DedupOfDistinct(s);
    FromList(g, s)
  }

  /** `Graph.sort`: by dependency (nodes at their callback entry), by result
      (nodes at their callback exit), or by depth; any other strategy is a
      ValueError. */
  function Sort(g: Graph, strategy: string): (r: Result<Graph>)
    requires Wf(g)
    ensures strategy != "dependency" && strategy != "result" && strategy != "depth" ==> r == Err(UnknownStrategy)
    ensures strategy == "depth" ==> r.Ok? && Perm(r.value.ids, g.ids) && DepthSorted(g, r.value.ids)
    ensures r.Ok? ==> r.value.nodes == g.nodes && r.value.adj == g.adj
    ensures r.Ok? ==> forall x | x in r.value.ids :: x in g.ids
    ensures AllNumbered(g) && (forall x | x in g.nodes :: x in g.ids) ==>
      (strategy == "dependency" ==> r == Ok(FromList(g, LinearSorting(g, true)))) &&
      (strategy == "result" ==> r == Ok(FromList(g, LinearSorting(g, false))))
  {
    if strategy == "dependency" then SortByDependency(g, true)
    else if strategy == "result" then SortByDependency(g, false)
    else if strategy == "depth" then
      var r := SortGraphByDepth(g);
      assert forall x | x in r.ids :: x in multiset(r.ids);
      Ok(r)
    else Err(UnknownStrategy)
  }

  /** Looking up ids the graph lists gives them back. */
  lemma {:induction false} LookUpListed(g: Graph, names: seq<string>)
    requires Wf(g) && forall x | x in names :: x in g.ids
    ensures LookUpAll(g, names) == Ok(names)
  {
    if |names| > 0 {
      assert names[0] in g.ids;
      assert forall x | x in names[1..] :: x in names;
      LookUpListed(g, names[1..]);
      assert names == [names[0]] + names[1..];
    }
  }

  /** On a graph whose every node is listed and numbered, every id of the
      collapsed order looks up itself, so sorting keeps exactly that order,
      de-duplicated. */
  lemma LinearSortingListed(g: Graph, useIn: bool)
    requires Wf(g)
    ensures AllNumbered(g) && (forall x | x in g.nodes :: x in g.ids) ==>
      LookUpAll(g, LinearSorting(g, useIn)) == Ok(LinearSorting(g, useIn))
  {
    if AllNumbered(g) && (forall x | x in g.nodes :: x in g.ids) {
      var names := LinearSorting(g, useIn);
      forall x | x in names ensures x in g.ids {
        var e, m := LinearSortingEnds(g, useIn, x);
      }
      LookUpListed(g, names);
    }
  }
}
