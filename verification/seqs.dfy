/** Sequence helpers that give Python's list semantics a precise meaning:
    insertion-ordered de-duplication, indexing with negative positions,
    slicing with clamped bounds, and insertion at a position. */
module Seqs {
  import opened Results

  /** No element occurs twice. */
  predicate NoDup<T(==)>(s: seq<T>) {
    forall i, j | 0 <= i < j < |s| :: s[i] != s[j]
  }

  /** Position of the first occurrence of `x` in `s`. */
  function FirstIndex<T(==)>(s: seq<T>, x: T): (r: nat)
    requires x in s
    ensures r < |s| && s[r] == x
    ensures forall j | 0 <= j < r :: s[j] != x
  {
    if s[0] == x then 0 else 1 + FirstIndex(s[1..], x)
  }

  /** The distinct elements of `s`, each where it first occurs: the key order
      of an insertion-ordered dictionary built from `s`. */
  function Dedup<T(==,!new)>(s: seq<T>): (r: seq<T>)
    ensures forall x :: x in r <==> x in s
  {
    if |s| == 0 then []
    else
      var d := Dedup(s[..|s| - 1]);
      var last := s[|s| - 1];
      assert forall x | x in s :: x == last || x in s[..|s| - 1];
      if last in d then d else d + [last]
  }

  /** No element occurs twice in the de-duplication. */
  lemma {:induction false} DedupNoDup<T(!new)>(s: seq<T>)
    ensures NoDup(Dedup(s))
    decreases |s|
  {
    if |s| > 0 {
      DedupNoDup(s[..|s| - 1]);
    }
  }

  /** The distinct elements keep the order of their first occurrences. */
  lemma {:induction false} DedupOrder<T(!new)>(s: seq<T>, i: nat, j: nat)
    requires i < j < |Dedup(s)|
    ensures FirstIndex(s, Dedup(s)[i]) < FirstIndex(s, Dedup(s)[j])
    decreases |s|
  {
    var init := s[..|s| - 1];
    var last := s[|s| - 1];
    var d := Dedup(init);
    var r := Dedup(s);
    assert i < |d| && r[i] == d[i];
    assert r[i] in init;
    FirstIndexPrefix(init, s, r[i]);
    if j < |d| {
      assert r[j] == d[j] && r[i] == d[i];
      DedupOrder(init, i, j);
      FirstIndexPrefix(init, s, r[j]);
    } else {
      assert r == d + [last] && r[j] == last;
      assert last !in init;
      assert forall k | 0 <= k < |s| - 1 :: s[k] == init[k];
    }
  }

  lemma FirstIndexPrefix<T>(p: seq<T>, s: seq<T>, x: T)
    requires p <= s && x in p
    ensures FirstIndex(s, x) == FirstIndex(p, x)
  {
    var k := FirstIndex(p, x);
    assert s[k] == x;
  }

  /** A sequence without repetitions is its own de-duplication. */
  lemma {:induction false} DedupOfDistinct<T(!new)>(s: seq<T>)
    requires NoDup(s)
    ensures Dedup(s) == s
  {
    if |s| > 0 {
      var init := s[..|s| - 1];
      DedupOfDistinct(init);
      assert s[|s| - 1] !in init;
      assert init + [s[|s| - 1]] == s;
    }
  }

  /** Python's `s[i]`: negative positions count from the end, anything else
      outside the list is an IndexError. */
  function PyIndex<T>(s: seq<T>, i: int): (r: Result<T>)
    ensures r.Ok? <==> -|s| <= i < |s|
    ensures r.Ok? ==> r.value == s[if i >= 0 then i else |s| + i]
  {
    if 0 <= i < |s| then Ok(s[i])
    else if -|s| <= i < 0 then Ok(s[|s| + i])
    else Err(BadIndex)
  }

  /** Clamps a Python slice bound to a position in a sequence of length `n`. */
  function SliceBound(i: int, n: nat): (r: nat)
    ensures r <= n
  {
    if i < 0 then (if i + n < 0 then 0 else i + n)
    else if i > n then n
    else i
  }

  /** Python's `s[a:b]`. */
  function PySlice<T>(s: seq<T>, a: int, b: int): (r: seq<T>)
    ensures |r| <= |s|
  {
    var lo := SliceBound(a, |s|);
    var hi := SliceBound(b, |s|);
    if lo < hi then s[lo..hi] else []
  }

  /** `s[a:-2]` of a sequence that is `prefix + middle + two more`: the slice
      that cuts a known prefix and the last two keys recovers the middle. */
  lemma SliceDropsPrefixAndTail<T>(prefix: seq<T>, middle: seq<T>, tail: seq<T>)
    requires |tail| == 2
    ensures PySlice(prefix + middle + tail, |prefix|, -2) == middle
  {
    var s := prefix + middle + tail;
    assert SliceBound(-2, |s|) == |prefix| + |middle|;
    if |middle| > 0 {
      assert s[|prefix|..|prefix| + |middle|] == middle;
    }
  }

  /** Python's `list.insert(i, x)` for a position inside the list. */
  function Insert<T>(s: seq<T>, i: nat, x: T): (r: seq<T>)
    requires i <= |s|
    ensures |r| == |s| + 1 && r[i] == x
    ensures forall j | 0 <= j < i :: r[j] == s[j]
    ensures forall j | i <= j < |s| :: r[j + 1] == s[j]
  {
    s[..i] + [x] + s[i..]
  }

  /** The present values of a list of optional values, in order (the
      source's `[v for v in xs if v is not None]`). */
  function Somes<T(==,!new)>(xs: seq<Option<T>>): (r: seq<T>)
    ensures forall x :: x in r <==> Some(x) in xs
    ensures |r| <= |xs|
  {
    if |xs| == 0 then []
    else
      var rest := Somes(xs[1..]);
      assert forall x :: Some(x) in xs <==> xs[0] == Some(x) || Some(x) in xs[1..];
      if xs[0].Some? then [xs[0].value] + rest else rest
  }

  /** Somes distributes over appending one more value. */
  lemma {:induction false} SomesSnoc<T(!new)>(xs: seq<Option<T>>, y: Option<T>)
    ensures Somes(xs + [y]) == Somes(xs) + (if y.Some? then [y.value] else [])
  {
    if |xs| > 0 {
      assert (xs + [y])[1..] == xs[1..] + [y];
      SomesSnoc(xs[1..], y);
    }
  }

  /** A permutation: same elements with the same multiplicities. */
  predicate Perm<T(==)>(a: seq<T>, b: seq<T>) {
    multiset(a) == multiset(b)
  }
  /** A list without repetitions holds each value at most once. */
  lemma {:induction false} NoDupCount<T>(a: seq<T>, x: T)
    requires NoDup(a)
    ensures multiset(a)[x] <= 1
    decreases |a|
  {
    if |a| > 0 {
      var init := a[..|a| - 1];
      var last := a[|a| - 1];
      assert a == init + [last];
      assert forall k | 0 <= k < |init| :: init[k] == a[k];
      NoDupCount(init, x);
      assert last !in init;
    }
  }

  /** Two equal entries at different positions count twice. */
  lemma CountAtLeastTwo<T>(b: seq<T>, i: nat, j: nat)
    requires i < j < |b|
    ensures b[i] == b[j] ==> multiset(b)[b[i]] >= 2
  {
    assert b == b[..i] + [b[i]] + b[i + 1..j] + [b[j]] + b[j + 1..];
  }

  /** A permutation of a list without repetitions has none either. */
  lemma PermNoDup<T>(a: seq<T>, b: seq<T>)
    requires NoDup(a) && Perm(a, b)
    ensures NoDup(b)
  {
    forall i, j | 0 <= i < j < |b| ensures b[i] != b[j] {
      CountAtLeastTwo(b, i, j);
      NoDupCount(a, b[i]);
    }
  }
}
