/** JSON documents as the compiler sees them after `json.load`: objects are
    insertion-ordered dictionaries with string keys, arrays are lists.
    Python's truthiness, membership test (`in`) and iteration over such
    values are defined here once. */
module Json {
  import opened Results
  import opened Dicts
  import opened Strs

  datatype Json =
    | JNull
    | JBool(b: bool)
    | JInt(i: int)
    | JStr(s: string)
    | JArr(items: seq<Json>)
    | JObj(entries: Dict<string, Json>)

  /** One step of a key path: a dictionary key or a list position. */
  datatype Key = KStr(name: string) | KIdx(index: int)

  type Path = seq<Key>

  /** A path made of dictionary keys only (the node key paths of the compiler). */
  function StrPath(keys: seq<string>): (r: Path)
    ensures |r| == |keys|
    ensures forall i | 0 <= i < |keys| :: r[i] == KStr(keys[i])
  {
    seq(|keys|, i requires 0 <= i < |keys| => KStr(keys[i]))
  }

  /** Number of direct children; the second component of the termination
      measure of every walk over a document. */
  function Width(j: Json): nat {
    match j
    case JArr(xs) => |xs|
    case JObj(es) => |es|
    case _ => 0
  }

  /** `{"from_node": id}`: the argument that reads the output of node `id`. */
  function FromNodeArg(id: string): Json {
    JObj([("from_node", JStr(id))])
  }

  /** Python's `bool(j)`. */
  predicate Truthy(j: Json) {
    match j
    case JNull => false
    case JBool(b) => b
    case JInt(i) => i != 0
    case JStr(s) => |s| > 0
    case JArr(xs) => |xs| > 0
    case JObj(es) => |es| > 0
  }

  /** A value with no children (a scalar, an empty list or an empty dict). */
  predicate IsLeaf(j: Json) {
    Width(j) == 0
  }

  /** `j.get(k)` on a dictionary; absent for anything else. */
  function Field(j: Json, k: string): (r: Option<Json>)
    ensures r.Some? ==> j.JObj? && HasKey(j.entries, k)
    ensures j.JObj? && HasKey(j.entries, k) ==> r.Some?
  {
    if j.JObj? then Get(j.entries, k) else None
  }

  /** `k in j` for a dictionary. */
  predicate HasField(j: Json, k: string) {
    j.JObj? && HasKey(j.entries, k)
  }

  /** Every dictionary in the document has distinct keys, as every
      dictionary produced by `json.load` does. */
  predicate Wf(j: Json)
    decreases j, Width(j) + 2
  {
    match j
    case JArr(xs) => ArrWf(j, 0)
    case JObj(es) => UniqueKeys(es) && ObjWf(j, 0)
    case _ => true
  }

  predicate ArrWf(j: Json, i: nat)
    requires j.JArr? && i <= |j.items|
    decreases j, |j.items| - i + 1
  {
    i == |j.items| || (Wf(j.items[i]) && ArrWf(j, i + 1))
  }

  predicate ObjWf(j: Json, i: nat)
    requires j.JObj? && i <= |j.entries|
    decreases j, |j.entries| - i + 1
  {
    i == |j.entries| || (Wf(j.entries[i].1) && ObjWf(j, i + 1))
  }

  /** The children of a well-formed value are well-formed. */
  lemma {:induction false} WfChildren(j: Json)
    requires Wf(j)
    ensures j.JArr? ==> forall i | 0 <= i < |j.items| :: Wf(j.items[i])
    ensures j.JObj? ==> UniqueKeys(j.entries)
    ensures j.JObj? ==> forall i | 0 <= i < |j.entries| :: Wf(j.entries[i].1)
  {
    if j.JArr? {
      forall i | 0 <= i < |j.items| ensures Wf(j.items[i]) { ArrWfFrom(j, 0, i); }
    }
    if j.JObj? {
      forall i | 0 <= i < |j.entries| ensures Wf(j.entries[i].1) { ObjWfFrom(j, 0, i); }
    }
  }

  lemma {:induction false} ArrWfFrom(j: Json, k: nat, i: nat)
    requires j.JArr? && k <= i < |j.items| && ArrWf(j, k)
    ensures Wf(j.items[i])
    decreases i - k
  {
    if k < i { ArrWfFrom(j, k + 1, i); }
  }

  lemma {:induction false} ObjWfFrom(j: Json, k: nat, i: nat)
    requires j.JObj? && k <= i < |j.entries| && ObjWf(j, k)
    ensures Wf(j.entries[i].1)
    decreases i - k
  {
    if k < i { ObjWfFrom(j, k + 1, i); }
  }

  /** Python's `s in j` for a string `s`: a key of a dictionary, an element
      of a list, a substring of a string; anything else is a TypeError. */
  function ContainsStr(j: Json, s: string): (r: Result<bool>)
    ensures r.Err? <==> !(j.JObj? || j.JArr? || j.JStr?)
    ensures j.JObj? ==> r == Ok(HasKey(j.entries, s))
    ensures j.JArr? ==> r == Ok(JStr(s) in j.items)
    ensures j.JStr? ==> r == Ok(IsSubstring(s, j.s))
  {
    match j
    case JObj(es) => Ok(HasKey(es, s))
    case JArr(xs) => Ok(JStr(s) in xs)
    case JStr(t) => Ok(IsSubstring(s, t))
    case _ => Err(BadType)
  }

  /** Python's `for x in j`: list elements, dictionary keys, or the
      one-character strings of a string; other values are not iterable. */
  function Iter(j: Json): (r: Result<seq<Json>>)
    ensures r.Err? <==> !(j.JObj? || j.JArr? || j.JStr?)
    ensures j.JArr? ==> r == Ok(j.items)
    ensures j.JObj? ==> (r.Ok? && |r.value| == |j.entries| &&
                         forall i | 0 <= i < |j.entries| :: r.value[i] == JStr(j.entries[i].0))
    ensures j.JStr? ==> (r.Ok? && |r.value| == |j.s| &&
                         forall i | 0 <= i < |j.s| :: r.value[i] == JStr([j.s[i]]))
  {
    match j
    case JArr(xs) => Ok(xs)
    case JObj(es) => Ok(seq(|es|, i requires 0 <= i < |es| => JStr(es[i].0)))
    case JStr(t) => Ok(seq(|t|, i requires 0 <= i < |t| => JStr([t[i]])))
    case _ => Err(BadType)
  }

  /** `j[k]` for a string key on a dictionary (KeyError when absent,
      TypeError for anything that is not a dictionary). */
  function Member(j: Json, k: string): (r: Result<Json>)
    ensures r.Ok? <==> HasField(j, k)
    ensures r.Ok? ==> Field(j, k) == Some(r.value)
  {
    if !j.JObj? then Err(BadType)
    else match Get(j.entries, k)
      case Some(v) => Ok(v)
      case None => Err(MissingKey)
  }
}
