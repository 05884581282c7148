/** Insertion-ordered dictionaries (Python's `dict` / `OrderedDict`) as
    sequences of key/value pairs.  Lookup finds the first entry with the
    key; assignment replaces that entry in place or appends a new one, so
    the key order is the order of first insertion. */
module Dicts {
  import opened Results

  type Dict<K, V> = seq<(K, V)>

  /** The keys in iteration order. */
  function Keys<K, V>(d: Dict<K, V>): (r: seq<K>)
    ensures |r| == |d|
    ensures forall i | 0 <= i < |d| :: r[i] == d[i].0
  {
    seq(|d|, i requires 0 <= i < |d| => d[i].0)
  }

  /** Python's `k in d`. */
  predicate HasKey<K(==), V>(d: Dict<K, V>, k: K) {
    exists i | 0 <= i < |d| :: d[i].0 == k
  }

  /** No key occurs twice: every dictionary the source builds is like this. */
  predicate UniqueKeys<K(==), V>(d: Dict<K, V>) {
    forall i, j | 0 <= i < j < |d| :: d[i].0 != d[j].0
  }

  /** Position of the entry for `k`. */
  function IndexOf<K(==), V>(d: Dict<K, V>, k: K): (r: nat)
    requires HasKey(d, k)
    ensures r < |d| && d[r].0 == k
    ensures forall j | 0 <= j < r :: d[j].0 != k
  {
    if d[0].0 == k then 0
    else
      assert HasKey(d[1..], k) by {
        var i :| 0 <= i < |d| && d[i].0 == k;
        assert d[1..][i - 1].0 == k;
      }
      1 + IndexOf(d[1..], k)
  }

  /** Python's `d.get(k)`: the value stored for `k`, if any. */
  function Get<K(==), V>(d: Dict<K, V>, k: K): (r: Option<V>)
    ensures r.Some? <==> HasKey(d, k)
    ensures r.Some? ==> d[IndexOf(d, k)].1 == r.value
  {
    if HasKey(d, k) then Some(d[IndexOf(d, k)].1) else None
  }

  /** With unique keys, the value found for the key of entry `i` is entry `i`'s. */
  lemma GetEntry<K, V>(d: Dict<K, V>, i: nat)
    requires UniqueKeys(d) && i < |d|
    ensures Get(d, d[i].0) == Some(d[i].1)
  {
    assert HasKey(d, d[i].0);
    var j := IndexOf(d, d[i].0);
    assert !(j < i);
  }

  /** Python's `d[k] = v`. */
  function Put<K(==,!new), V>(d: Dict<K, V>, k: K, v: V): (r: Dict<K, V>)
    ensures Get(r, k) == Some(v)
    ensures forall k' | k' != k :: Get(r, k') == Get(d, k')
    ensures HasKey(d, k) ==> Keys(r) == Keys(d)
    ensures !HasKey(d, k) ==> Keys(r) == Keys(d) + [k]
    ensures UniqueKeys(d) ==> UniqueKeys(r)
  {
    if HasKey(d, k) then
      var i := IndexOf(d, k);
      var r := d[i := (k, v)];
      assert HasKey(r, k) by { assert r[i].0 == k; }
      assert IndexOf(r, k) == i by {
        assert r[i].0 == k;
        assert forall t | 0 <= t < i :: r[t] == d[t];
      }
      assert forall k' | k' != k :: Get(r, k') == Get(d, k') by {
        forall k' | k' != k ensures Get(r, k') == Get(d, k') {
          PutOtherKey(d, i, v, k');
        }
      }
      r
    else
      var r := d + [(k, v)];
      assert HasKey(r, k) by { assert r[|d|].0 == k; }
      assert IndexOf(r, k) == |d| by { var j := IndexOf(r, k); assert !(j < |d|); }
      assert forall k' | k' != k :: Get(r, k') == Get(d, k') by {
        forall k' | k' != k ensures Get(r, k') == Get(d, k') {
          AppendOtherKey(d, k, v, k');
        }
      }
      r
  }

  /** Storing the value a key already has changes nothing. */
  lemma PutExisting<K(!new), V>(d: Dict<K, V>, k: K, v: V)
    requires Get(d, k) == Some(v)
    ensures Put(d, k, v) == d
  {
    var i := IndexOf(d, k);
    assert d[i := (k, v)] == d;
  }

  lemma PutOtherKey<K, V>(d: Dict<K, V>, i: nat, v: V, k': K)
    requires i < |d| && k' != d[i].0
    ensures Get(d[i := (d[i].0, v)], k') == Get(d, k')
  {
    var r := d[i := (d[i].0, v)];
    assert forall j | 0 <= j < |d| :: r[j].0 == d[j].0;
    assert HasKey(r, k') <==> HasKey(d, k');
    if HasKey(d, k') {
      var a, b := IndexOf(r, k'), IndexOf(d, k');
      assert !(a < b) && !(b < a);
    }
  }

  lemma AppendOtherKey<K, V>(d: Dict<K, V>, k: K, v: V, k': K)
    requires k' != k
    ensures Get(d + [(k, v)], k') == Get(d, k')
  {
    var r := d + [(k, v)];
    assert HasKey(r, k') ==> HasKey(d, k') by {
      if HasKey(r, k') {
        var i :| 0 <= i < |r| && r[i].0 == k';
        assert d[i].0 == k';
      }
    }
    assert HasKey(d, k') ==> HasKey(r, k') by {
      if HasKey(d, k') {
        var i :| 0 <= i < |d| && d[i].0 == k';
        assert r[i].0 == k';
      }
    }
    if HasKey(d, k') {
      var a, b := IndexOf(r, k'), IndexOf(d, k');
      assert r[b] == d[b];
      assert !(a < b) && !(b < a);
    }
  }
}
