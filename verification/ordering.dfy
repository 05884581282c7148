/** The dependency ordering of the two older generations (`Graph.order`
    with `by="dependency"`): the nodes are taken in graph order and each
    is inserted into the list built so far right behind the dependencies
    already placed.  The scan that finds the insertion point compares
    each position with the current insertion point; the legacy generation
    lets a dependency at the insertion point itself move it (`>=`), the
    v04 generation does not (`>`). */
module Ordering {
  import opened Seqs

  /** Whether a dependency found at position `idx` moves the insertion
      point `at`. */
  predicate Moves(idx: nat, at: nat, strict: bool) {
    if strict then idx > at else idx >= at
  }

  /** The scan for one dependency, from position `i` of the placed list. */
  function Scan(placed: seq<string>, dep: string, strict: bool, at: nat, i: nat): (r: nat)
    ensures at <= r
    ensures at <= |placed| ==> r <= |placed|
    ensures at < r ==> r <= |placed| && placed[r - 1] == dep
    decreases |placed| - i
  {
    if i >= |placed| then at
    else Scan(placed, dep, strict, if Moves(i, at, strict) && placed[i] == dep then i + 1 else at, i + 1)
  }

  /** The scans for all dependencies of a node, in order. */
  function ScanAll(placed: seq<string>, deps: seq<string>, strict: bool, at: nat): (r: nat)
    ensures at <= r
    ensures at <= |placed| ==> r <= |placed|
    ensures at < r ==> r <= |placed| && placed[r - 1] in deps
    decreases |deps|
  {
    if deps == [] then at
    else
      var r := ScanAll(placed, deps[1..], strict, Scan(placed, deps[0], strict, at, 0));
      assert forall d | d in deps[1..] :: d in deps;
      r
  }

  /** Where a node with dependencies `deps` goes: behind the last placed
      dependency, or at the front when none is placed. */
  function InsertAt(placed: seq<string>, deps: seq<string>, strict: bool): (r: nat)
    ensures r <= |placed|
    ensures r > 0 ==> placed[r - 1] in deps
  {
    ScanAll(placed, deps, strict, 0)
  }

  /** The ordered list for the nodes `ids` (in graph order) with
      dependency lists `deps`. */
  function InsertionOrder(ids: seq<string>, deps: string -> seq<string>, strict: bool): (r: seq<string>)
    ensures |r| == |ids|
    decreases |ids|
  {
    if ids == [] then []
    else
      var placed := InsertionOrder(ids[..|ids| - 1], deps, strict);
      var x := ids[|ids| - 1];
      Insert(placed, InsertAt(placed, deps(x), strict), x)
  }

  /* ---------------------------------------------------------------------
     Properties
     --------------------------------------------------------------------- */

  /** Insertion adds exactly one element. */
  lemma InsertMultiset(s: seq<string>, q: nat, x: string)
    requires q <= |s|
    ensures multiset(Insert(s, q, x)) == multiset(s) + multiset{x}
  {
    assert s == s[..q] + s[q..];
  }

  /** A list is its front followed by its last element. */
  lemma SplitLast(s: seq<string>)
    requires s != []
    ensures multiset(s) == multiset(s[..|s| - 1]) + multiset{s[|s| - 1]}
    ensures NoDup(s) ==> NoDup(s[..|s| - 1]) && s[|s| - 1] !in s[..|s| - 1]
  {
    assert s == s[..|s| - 1] + [s[|s| - 1]];
  }

  /** Both scans produce a permutation of the nodes. */
  lemma {:induction false} InsertionOrderPerm(ids: seq<string>, deps: string -> seq<string>, strict: bool)
    ensures Perm(InsertionOrder(ids, deps, strict), ids)
    decreases |ids|
  {
    if ids != [] {
      var init := ids[..|ids| - 1];
      var x := ids[|ids| - 1];
      InsertionOrderPerm(init, deps, strict);
      var placed := InsertionOrder(init, deps, strict);
      InsertMultiset(placed, InsertAt(placed, deps(x), strict), x);
      SplitLast(ids);
    }
  }

  /** With `>=`, the scan for a dependency ends behind every occurrence
      of it from position `i` on. */
  lemma {:induction false} ScanPassesAll(placed: seq<string>, dep: string, at: nat, i: nat)
    ensures forall p | i <= p < |placed| && placed[p] == dep :: p < Scan(placed, dep, false, at, i)
    decreases |placed| - i
  {
    if i < |placed| {
      var at' := if Moves(i, at, false) && placed[i] == dep then i + 1 else at;
      ScanPassesAll(placed, dep, at', i + 1);
    }
  }

  /** With `>=`, the insertion point lies behind every placed dependency. */
  lemma {:induction false} ScanAllPassesAll(placed: seq<string>, deps: seq<string>, at: nat)
    ensures forall p | 0 <= p < |placed| && placed[p] in deps :: p < ScanAll(placed, deps, false, at)
    decreases |deps|
  {
    if deps != [] {
      var at' := Scan(placed, deps[0], false, at, 0);
      ScanPassesAll(placed, deps[0], at, 0);
      ScanAllPassesAll(placed, deps[1..], at');
      forall p | 0 <= p < |placed| && placed[p] in deps
        ensures p < ScanAll(placed, deps, false, at)
      {
        if placed[p] != deps[0] { assert placed[p] in deps[1..]; }
      }
    }
  }

  /** With `>=` a node goes right behind its right-most placed dependency,
      or to the front when none is placed. */
  lemma InsertAtRightmost(placed: seq<string>, deps: seq<string>)
    ensures forall p | 0 <= p < |placed| && placed[p] in deps :: p < InsertAt(placed, deps, false)
    ensures InsertAt(placed, deps, false) == 0 || placed[InsertAt(placed, deps, false) - 1] in deps
  {
    ScanAllPassesAll(placed, deps, 0);
  }

  /** Positions of the old elements after inserting a new one. */
  lemma InsertFirstIndex(s: seq<string>, q: nat, x: string, y: string)
    requires q <= |s| && x !in s
    ensures FirstIndex(Insert(s, q, x), x) == q
    ensures y in s ==> (y in Insert(s, q, x) &&
      FirstIndex(Insert(s, q, x), y) == (if FirstIndex(s, y) < q then FirstIndex(s, y) else FirstIndex(s, y) + 1))
  {
    var r := Insert(s, q, x);
    if y in s {
      var k := FirstIndex(s, y);
      var k' := if k < q then k else k + 1;
      assert r[k'] == y;
      assert forall j | 0 <= j < k' :: r[j] != y by {
        forall j | 0 <= j < k' ensures r[j] != y {
          if j < q { assert r[j] == s[j]; }
          else if j > q { assert r[j] == s[j - 1]; }
        }
      }
    }
  }

  /** Two old elements keep their relative order. */
  lemma InsertKeepsBefore(s: seq<string>, q: nat, x: string, a: string, b: string)
    requires q <= |s| && x !in s && a in s && b in s && FirstIndex(s, a) < FirstIndex(s, b)
    ensures a in Insert(s, q, x) && b in Insert(s, q, x)
    ensures FirstIndex(Insert(s, q, x), a) < FirstIndex(Insert(s, q, x), b)
  {
    InsertFirstIndex(s, q, x, a);
    InsertFirstIndex(s, q, x, b);
  }

  /** An old element in front of the insertion point stays before the new one. */
  lemma InsertBehind(s: seq<string>, q: nat, x: string, a: string)
    requires q <= |s| && x !in s && a in s && FirstIndex(s, a) < q
    ensures a in Insert(s, q, x) && x in Insert(s, q, x)
    ensures FirstIndex(Insert(s, q, x), a) < FirstIndex(Insert(s, q, x), x)
  {
    InsertFirstIndex(s, q, x, a);
  }

  /** Every dependency that comes earlier in graph order stays before its
      dependant. */
  ghost predicate DependenciesFirst(ids: seq<string>, deps: string -> seq<string>, r: seq<string>) {
    forall i, j | 0 <= i < j < |ids| && ids[i] in deps(ids[j]) ::
      ids[i] in r && ids[j] in r && FirstIndex(r, ids[i]) < FirstIndex(r, ids[j])
  }

  /** The legacy (`>=`) ordering keeps every earlier dependency before its
      dependant. */
  lemma {:induction false} InsertionOrderRespects(ids: seq<string>, deps: string -> seq<string>)
    requires NoDup(ids)
    ensures DependenciesFirst(ids, deps, InsertionOrder(ids, deps, false))
    decreases |ids|
  {
    if ids != [] {
      var n := |ids| - 1;
      var init := ids[..n];
      var x := ids[n];
      SplitLast(ids);
      InsertionOrderRespects(init, deps);
      InsertionOrderPerm(init, deps, false);
      var placed := InsertionOrder(init, deps, false);
      var q := InsertAt(placed, deps(x), false);
      assert x !in placed by {
        assert x !in multiset(init);
      }
      InsertAtRightmost(placed, deps(x));
      forall i, j | 0 <= i < j < |ids| && ids[i] in deps(ids[j])
        ensures ids[i] in Insert(placed, q, x) && ids[j] in Insert(placed, q, x)
        ensures FirstIndex(Insert(placed, q, x), ids[i]) < FirstIndex(Insert(placed, q, x), ids[j])
      {
        InsertKeepsPair(ids, deps, placed, q, i, j);
      }
      assert InsertionOrder(ids, deps, false) == Insert(placed, q, x);
    }
  }

  /** One pair of the step of `InsertionOrderRespects`: an earlier dependency
      stays before its dependant once the last node is inserted. */
  lemma InsertKeepsPair(ids: seq<string>, deps: string -> seq<string>, placed: seq<string>, q: nat, i: nat, j: nat)
    requires ids != [] && 0 <= i < j < |ids| && ids[i] in deps(ids[j])
    requires NoDup(ids) && multiset(placed) == multiset(ids[..|ids| - 1]) && ids[|ids| - 1] !in placed
    requires DependenciesFirst(ids[..|ids| - 1], deps, placed)
    requires q <= |placed| && forall p | 0 <= p < |placed| && placed[p] in deps(ids[|ids| - 1]) :: p < q
    ensures ids[i] in Insert(placed, q, ids[|ids| - 1]) && ids[j] in Insert(placed, q, ids[|ids| - 1])
    ensures FirstIndex(Insert(placed, q, ids[|ids| - 1]), ids[i]) < FirstIndex(Insert(placed, q, ids[|ids| - 1]), ids[j])
  {
    var n := |ids| - 1;
    var init := ids[..n];
    var x := ids[n];
    assert ids[i] == init[i];
    assert ids[i] in multiset(init);
    if j < n {
      assert ids[j] == init[j];
      assert ids[j] in multiset(init);
      InsertKeepsBefore(placed, q, x, ids[i], ids[j]);
    } else {
      var k := FirstIndex(placed, ids[i]);
      assert placed[k] in deps(x);
      InsertBehind(placed, q, x, ids[i]);
    }
  }

  /** With `>` a dependency placed at the insertion point is skipped: a
      node whose only dependency is the first node goes in front of it. */
  lemma StrictOrderMisplaces()
    ensures InsertionOrder(["a", "b"], x => if x == "b" then ["a"] else [], true) == ["b", "a"]
    ensures InsertionOrder(["a", "b"], x => if x == "b" then ["a"] else [], false) == ["a", "b"]
  {
    var deps := (x: string) => if x == "b" then ["a"] else [];
    assert ["a", "b"][..1] == ["a"];
    assert ["a"][..0] == [];
    assert InsertionOrder(["a"], deps, true) == ["a"];
    assert InsertionOrder(["a"], deps, false) == ["a"];
    assert Scan(["a"], "a", true, 0, 0) == 0;
    assert Scan(["a"], "a", false, 0, 0) == 1;
  }
}
