/** Path helpers over JSON documents (`keys2str`, `get_obj_elem_from_keys`,
    `set_obj_elem_from_keys`), the in-memory branches of the catalogue
    loaders, and the argument walk that locates `from_node` /
    `from_parameter` references inside a node's arguments. */
module Utils {
  import opened Results
  import opened Seqs
  import opened Strs
  import opened Dicts
  import opened Json

  /* ---------------------------------------------------------------------
     keys2str
     --------------------------------------------------------------------- */

  /** The indexing text for one key: `['name']` or `[3]`. */
  function KeyText(k: Key): (r: string)
  {
    match k
    case KStr(s) => "['" + s + "']"
    case KIdx(i) => "[" + IntStr(i) + "]"
  }

  /** `keys2str`: the indexing text of a whole key path. */
  function Keys2Str(p: Path): (r: string)
  {
    if |p| == 0 then "" else Keys2Str(p[..|p| - 1]) + KeyText(p[|p| - 1])
  }

  /** Rendering a concatenated path is concatenating the renderings. */
  lemma {:induction false} Keys2StrConcat(p: Path, q: Path)
    ensures Keys2Str(p + q) == Keys2Str(p) + Keys2Str(q)
    decreases |q|
  {
    if |q| > 0 {
      var q' := q[..|q| - 1];
      var k := q[|q| - 1];
      assert (p + q)[..|p + q| - 1] == p + q';
      assert (p + q)[|p + q| - 1] == k;
      Keys2StrConcat(p, q');
    } else {
      assert p + q == p;
    }
  }

  /* ---------------------------------------------------------------------
     get_obj_elem_from_keys: evaluating `obj[k1][k2]...`
     --------------------------------------------------------------------- */

  /** Python's `obj[k]` for one key of a path: a dictionary key, a list or
      string position (negative positions count from the end). */
  function Step(obj: Json, k: Key): (r: Result<Json>)
    ensures r.Ok? && k.KStr? ==> Field(obj, k.name) == Some(r.value)
    ensures obj.JObj? && k.KStr? ==> (r.Ok? <==> HasKey(obj.entries, k.name))
    ensures obj.JArr? && k.KIdx? ==> (r.Ok? <==> -|obj.items| <= k.index < |obj.items|)
  {
    match k
    case KStr(s) =>
      if obj.JObj? then Member(obj, s) else Err(BadType)
    case KIdx(i) =>
      match obj
      case JArr(xs) => PyIndex(xs, i)
      case JStr(t) =>
        (match PyIndex(t, i)
         case Ok(c) => Ok(JStr([c]))
         case Err(e) => Err(e))
      case JObj(_) => Err(MissingKey)
      case _ => Err(BadType)
  }

  /** `get_obj_elem_from_keys`: the element at the end of the path.  The
      deep copy of the source is implicit: values are immutable. */
  function GetPath(obj: Json, p: Path): (r: Result<Json>)
    decreases |p|
  {
    if |p| == 0 then Ok(obj)
    else
      var c :- Step(obj, p[0]);
      GetPath(c, p[1..])
  }

  /** Following a concatenated path is following its parts one after the other. */
  lemma {:induction false} GetPathConcat(obj: Json, p: Path, q: Path)
    ensures GetPath(obj, p + q) ==
      (match GetPath(obj, p)
       case Ok(c) => GetPath(c, q)
       case Err(e) => Err(e))
    decreases |p|
  {
    if |p| > 0 {
      assert (p + q)[0] == p[0] && (p + q)[1..] == p[1..] + q;
      match Step(obj, p[0])
      case Ok(c) => GetPathConcat(c, p[1..], q);
      case Err(_) =>
    } else {
      assert p + q == q;
    }
  }

  /* ---------------------------------------------------------------------
     set_obj_elem_from_keys: executing `obj[k1]...[kn] = value`
     --------------------------------------------------------------------- */

  /** Python's `obj[k] = v` for the last key of a path. */
  function StepSet(obj: Json, k: Key, v: Json): (r: Result<Json>)
    ensures r.Ok? ==> Step(r.value, k) == Ok(v)
    ensures r.Ok? ==> Width(r.value) >= Width(obj)
  {
    match k
    case KStr(s) =>
      if obj.JObj? then Ok(JObj(Put(obj.entries, s, v))) else Err(BadType)
    case KIdx(i) =>
      if obj.JArr? then
        if 0 <= i < |obj.items| then Ok(JArr(obj.items[i := v]))
        else if -|obj.items| <= i < 0 then Ok(JArr(obj.items[|obj.items| + i := v]))
        else Err(BadIndex)
      else Err(BadType)
  }

  /** Assignment through a nonempty path: read down to the last container,
      assign there, and rebuild the containers on the way back up. */
  function SetIn(obj: Json, p: Path, v: Json): (r: Result<Json>)
    requires |p| > 0
    decreases |p|
  {
    if |p| == 1 then StepSet(obj, p[0], v)
    else
      var c :- Step(obj, p[0]);
      var c' :- SetIn(c, p[1..], v);
      StepSet(obj, p[0], c')
  }

  /** `set_obj_elem_from_keys` with the value written as a value.  An empty
      path only rebinds the local name inside the source's `exec`, so the
      object comes back unchanged. */
  function SetPath(obj: Json, p: Path, v: Json): (r: Result<Json>)
    ensures |p| == 0 ==> r == Ok(obj)
  {
    if |p| == 0 then Ok(obj) else SetIn(obj, p, v)
  }

  /** Reading back what was just written gives the written value. */
  lemma {:induction false} GetAfterSet(obj: Json, p: Path, v: Json)
    requires |p| > 0 && SetPath(obj, p, v).Ok?
    ensures GetPath(SetPath(obj, p, v).value, p) == Ok(v)
    decreases |p|
  {
    var r := SetPath(obj, p, v).value;
    if |p| == 1 {
      assert GetPath(r, p) == GetPath(v, p[1..]);
    } else {
      var c := Step(obj, p[0]).value;
      var c' := SetIn(c, p[1..], v).value;
      GetAfterSet(c, p[1..], v);
      assert Step(r, p[0]) == Ok(c');
    }
  }

  /** Positions in a string give one-character strings, so a path that
      starts at a string can only reach strings. */
  lemma {:induction false} StrReachesStr(s: string, q: Path)
    ensures GetPath(JStr(s), q).Ok? ==> GetPath(JStr(s), q).value.JStr?
    decreases |q|
  {
    if |q| > 0 {
      match Step(JStr(s), q[0])
      case Ok(c) => StrReachesStr(c.s, q[1..]);
      case Err(_) =>
    }
  }

  /** A path that reaches a container does not pass through a string. */
  lemma NotThroughStr(obj: Json, q: Path)
    ensures GetPath(obj, q).Ok? && (GetPath(obj, q).value.JObj? || GetPath(obj, q).value.JArr?) ==> !obj.JStr?
  {
    if obj.JStr? { StrReachesStr(obj.s, q); }
  }

  /** Whatever can be read below a dictionary or list can be written: the
      assignment succeeds when the path's last container is a dictionary or
      list that has the last key. */
  lemma {:induction false} SetWhereReadable(obj: Json, p: Path, v: Json)
    requires |p| > 0 && GetPath(obj, p).Ok?
    requires GetPath(obj, p[..|p| - 1]).Ok?
    requires GetPath(obj, p[..|p| - 1]).value.JObj? || GetPath(obj, p[..|p| - 1]).value.JArr?
    ensures SetPath(obj, p, v).Ok?
    decreases |p|
  {
    NotThroughStr(obj, p[..|p| - 1]);
    var c0 := Step(obj, p[0]).value;
    if |p| > 1 {
      var q := p[1..];
      assert q[..|q| - 1] == p[..|p| - 1][1..];
      assert p[..|p| - 1][0] == p[0];
      SetWhereReadable(c0, q, v);
    }
  }

  /** Reading a value below a dictionary key: the last container is that
      dictionary. */
  lemma ReadBelowKey(obj: Json, p: Path)
    requires |p| > 0 && p[|p| - 1].KStr? && GetPath(obj, p).Ok?
    ensures GetPath(obj, p[..|p| - 1]).Ok? && GetPath(obj, p[..|p| - 1]).value.JObj?
  {
    GetPathConcat(obj, p[..|p| - 1], [p[|p| - 1]]);
    assert p[..|p| - 1] + [p[|p| - 1]] == p;
  }

  /** Reading a dictionary or list at a nonempty path: the last container
      is a dictionary or list too. */
  lemma ReadContainer(obj: Json, p: Path)
    requires |p| > 0 && GetPath(obj, p).Ok? && (GetPath(obj, p).value.JObj? || GetPath(obj, p).value.JArr?)
    ensures GetPath(obj, p[..|p| - 1]).Ok?
    ensures GetPath(obj, p[..|p| - 1]).value.JObj? || GetPath(obj, p[..|p| - 1]).value.JArr?
  {
    GetPathConcat(obj, p[..|p| - 1], [p[|p| - 1]]);
    assert p[..|p| - 1] + [p[|p| - 1]] == p;
    NotThroughStr(GetPath(obj, p[..|p| - 1]).value, [p[|p| - 1]]);
  }

  /** A key that selects the same child whatever the container's length. */
  predicate Plain(k: Key) {
    k.KStr? || k.index >= 0
  }

  /** Two paths that part ways at some position, with plain keys up to there. */
  predicate Diverge(p: Path, q: Path) {
    exists i | 0 <= i < |p| && i < |q| ::
      p[..i] == q[..i] && p[i] != q[i] && Plain(p[i]) && Plain(q[i])
  }

  /** References that part ways pairwise: none lies inside another. */
  predicate Independent(ps: seq<Path>) {
    forall a, b | 0 <= a < |ps| && 0 <= b < |ps| && a != b :: Diverge(ps[a], ps[b])
  }

  /** Writing at one path leaves every path that parts ways with it unchanged. */
  lemma {:induction false} SetLeavesOthers(obj: Json, p: Path, v: Json, q: Path)
    requires SetPath(obj, p, v).Ok? && Diverge(p, q)
    ensures GetPath(SetPath(obj, p, v).value, q) == GetPath(obj, q)
    decreases |p|
  {
    var i :| 0 <= i < |p| && i < |q| && p[..i] == q[..i] && p[i] != q[i] && Plain(p[i]) && Plain(q[i]);
    var r := SetPath(obj, p, v).value;
    if i == 0 {
      if |p| == 1 {
        StepSetOther(obj, p[0], v, q[0]);
      } else {
        var c := Step(obj, p[0]).value;
        var c' := SetIn(c, p[1..], v).value;
        StepSetOther(obj, p[0], c', q[0]);
      }
    } else {
      assert p[0] == q[0] by { assert p[..i][0] == q[..i][0]; }
      var c := Step(obj, p[0]).value;
      var c' := SetIn(c, p[1..], v).value;
      assert |p| > 1;
      assert SetPath(c, p[1..], v) == Ok(c');
      assert Diverge(p[1..], q[1..]) by {
        assert p[1..][..i - 1] == p[..i][1..] == q[..i][1..] == q[1..][..i - 1];
        assert p[1..][i - 1] == p[i] && q[1..][i - 1] == q[i];
      }
      SetLeavesOthers(c, p[1..], v, q[1..]);
      assert Step(r, p[0]) == Ok(c');
    }
  }

  /** Assigning at one plain key leaves the child at another plain key alone. */
  lemma StepSetOther(obj: Json, k: Key, v: Json, k': Key)
    requires StepSet(obj, k, v).Ok? && k != k' && Plain(k) && Plain(k')
    ensures Step(StepSet(obj, k, v).value, k') == Step(obj, k')
  {
    var r := StepSet(obj, k, v).value;
    if k'.KStr? && obj.JObj? {
      if k.KStr? {
        assert Get(r.entries, k'.name) == Get(obj.entries, k'.name);
      }
    }
  }

  /* ---------------------------------------------------------------------
     The value as source text
     --------------------------------------------------------------------- */

  /** What `exec('obj[...]={}'.format(value))` stores for `value`: the text
      `str(value)` is evaluated again.  Containers, numbers, booleans and
      None reproduce themselves.  A string comes back when it is a single-
      quoted literal whose body needs no escape, and raises NameError when
      it is a name bound nowhere; any other string text is a Python
      expression the model does not evaluate. */
  function Splice(v: Json): (r: Result<Json>)
    ensures !v.JStr? ==> r == Ok(v)
    ensures v.JStr? && r.Ok? ==> |v.s| >= 2 && v.s[0] == '\'' && r.value == JStr(v.s[1..|v.s| - 1])
    ensures v.JStr? ==> (r == Err(UnboundName) <==> IsUnboundName(v.s))
  {
    match v
    case JStr(s) =>
      if |s| >= 2 && s[0] == '\'' && s[|s| - 1] == '\'' && IsPlainLiteralBody(s[1..|s| - 1])
      then Ok(JStr(s[1..|s| - 1]))
      else if IsUnboundName(s) then Err(UnboundName)
      else Err(UnevaluatedText)
    case _ => Ok(v)
  }

  /** Quoting a string whose body needs no escape makes it survive the
      splice. */
  lemma SpliceQuoted(t: string)
    requires IsPlainLiteralBody(t)
    ensures Splice(JStr("'" + t + "'")) == Ok(JStr(t))
  {
    var s := "'" + t + "'";
    assert s[1..|s| - 1] == t;
  }

  /** `set_obj_elem_from_keys` as written: splice the value's text, then assign. */
  function SetObjElemFromKeys(obj: Json, p: Path, v: Json): (r: Result<Json>)
    ensures Splice(v).Err? ==> r.Err?
    ensures Splice(v).Ok? ==> r == SetPath(obj, p, Splice(v).value)
  {
    var w :- Splice(v);
    SetPath(obj, p, w)
  }

  /* ---------------------------------------------------------------------
     The argument walk that finds references
     --------------------------------------------------------------------- */

  /** Puts one key in front of every path. */
  function Under(k: Key, ps: seq<Path>): (r: seq<Path>)
    ensures |r| == |ps|
    ensures forall i | 0 <= i < |ps| :: r[i] == [k] + ps[i]
  {
    seq(|ps|, i requires 0 <= i < |ps| => [k] + ps[i])
  }

  /** A path is under `k` iff it starts with `k` and continues with one of
      `ps`. */
  lemma UnderHas(k: Key, ps: seq<Path>, p: Path)
    ensures p in Under(k, ps) <==> |p| > 0 && p[0] == k && p[1..] in ps
  {
    if p in Under(k, ps) {
      var t :| 0 <= t < |ps| && Under(k, ps)[t] == p;
      assert p[1..] == ps[t];
    }
    if |p| > 0 && p[0] == k && p[1..] in ps {
      var t :| 0 <= t < |ps| && ps[t] == p[1..];
      assert Under(k, ps)[t] == p;
    }
  }

  /** The key path of every value inside `v`, in document order, each path
      listed before the paths below it; the walk does not go below a
      `process_graph` key, so an embedded process graph's own references
      stay with the nodes inside it. */
  function InnerPaths(v: Json): (r: seq<Path>)
    decreases v, Width(v) + 1
  {
    match v
    case JObj(_) => ObjInner(v, 0)
    case JArr(_) => ArrInner(v, 0)
    case _ => []
  }

  function ObjInner(v: Json, i: nat): (r: seq<Path>)
    requires v.JObj? && i <= |v.entries|
    decreases v, |v.entries| - i
  {
    if i == |v.entries| then []
    else
      var k := v.entries[i].0;
      var below := if k == "process_graph" then [] else Under(KStr(k), InnerPaths(v.entries[i].1));
      [[KStr(k)]] + below + ObjInner(v, i + 1)
  }

  function ArrInner(v: Json, i: nat): (r: seq<Path>)
    requires v.JArr? && i <= |v.items|
    decreases v, |v.items| - i
  {
    if i == |v.items| then []
    else [[KIdx(i)]] + Under(KIdx(i), InnerPaths(v.items[i])) + ArrInner(v, i + 1)
  }

  /** The paths among `ps` whose last key is `kind`. */
  function EndingIn(ps: seq<Path>, kind: string): (r: seq<Path>)
    ensures forall p | p in r :: p in ps && |p| > 0 && p[|p| - 1] == KStr(kind)
    ensures forall p | p in ps && |p| > 0 && p[|p| - 1] == KStr(kind) :: p in r
  {
    if |ps| == 0 then []
    else
      var rest := EndingIn(ps[1..], kind);
      var p := ps[0];
      assert forall q | q in ps :: q == p || q in ps[1..];
      if |p| > 0 && p[|p| - 1] == KStr(kind) then [p] + rest else rest
  }

  /* ---------------------------------------------------------------------
     load_processes / load_collections (in-memory sources)
     --------------------------------------------------------------------- */

  /** The shapes of catalogue source the model covers: an id-keyed dictionary,
      a list of definitions, or something else (a path or URL is I/O). */
  datatype Source = FromDict(d: Dict<string, Json>) | FromList(defs: seq<Json>) | Other

  /** `{d['id']: d for d in defs}` built by successive assignment. */
  function IndexById(defs: seq<Json>): (r: Result<Dict<string, Json>>)
    ensures r.Ok? ==> UniqueKeys(r.value)
    decreases |defs|
  {
    if |defs| == 0 then Ok([])
    else
      var acc :- IndexById(defs[..|defs| - 1]);
      var d := defs[|defs| - 1];
      var id :- Member(d, "id");
      if id.JStr? then Ok(Put(acc, id.s, d)) else Err(BadType)
  }

  /** The id a definition is filed under. */
  predicate HasId(d: Json, id: string) {
    Field(d, "id") == Some(JStr(id))
  }

  /** Definition `i` is the last one carrying `id`. */
  predicate LastWithId(defs: seq<Json>, id: string, i: nat) {
    i < |defs| && HasId(defs[i], id) && forall j | i < j < |defs| :: !HasId(defs[j], id)
  }

  /** An id no definition carries is not filed. */
  lemma {:induction false} IndexByIdAbsent(defs: seq<Json>, id: string)
    requires IndexById(defs).Ok?
    requires forall i | 0 <= i < |defs| :: !HasId(defs[i], id)
    ensures Get(IndexById(defs).value, id) == None
    decreases |defs|
  {
    if |defs| > 0 {
      var init := defs[..|defs| - 1];
      assert forall i | 0 <= i < |init| :: init[i] == defs[i];
      IndexByIdAbsent(init, id);
      assert !HasId(defs[|defs| - 1], id);
    }
  }

  /** A definition carries a string `id`. */
  predicate Filed(d: Json) {
    Field(d, "id").Some? && Field(d, "id").value.JStr?
  }

  /** Indexing fails exactly when some definition lacks a string `id`. */
  lemma {:induction false} IndexByIdOk(defs: seq<Json>)
    ensures IndexById(defs).Ok? <==> forall i | 0 <= i < |defs| :: Filed(defs[i])
    decreases |defs|
  {
    if |defs| > 0 {
      var init := defs[..|defs| - 1];
      var d := defs[|defs| - 1];
      assert forall i | 0 <= i < |init| :: init[i] == defs[i];
      IndexByIdOk(init);
      assert Filed(d) <==> Member(d, "id").Ok? && Member(d, "id").value.JStr?;
      assert (forall i | 0 <= i < |defs| :: Filed(defs[i])) <==>
        (forall i | 0 <= i < |init| :: Filed(init[i])) && Filed(d);
    }
  }

  /** A filed id maps to the last definition carrying it: a later duplicate wins. */
  lemma {:induction false} IndexByIdLastWins(defs: seq<Json>, id: string, i: nat)
    requires IndexById(defs).Ok? && LastWithId(defs, id, i)
    ensures Get(IndexById(defs).value, id) == Some(defs[i])
    decreases |defs|
  {
    var init := defs[..|defs| - 1];
    var last := defs[|defs| - 1];
    assert forall j | 0 <= j < |init| :: init[j] == defs[j];
    if i < |defs| - 1 {
      assert !HasId(last, id);
      assert LastWithId(init, id, i);
      IndexByIdLastWins(init, id, i);
    }
  }

  /** `load_processes`: a dictionary is taken as it is, a list is indexed by
      the `id` of each definition, anything else is rejected. */
  function LoadProcesses(src: Source): (r: Result<Dict<string, Json>>)
    ensures src.FromDict? ==> r == Ok(src.d)
    ensures src.FromList? ==> r == IndexById(src.defs)
    ensures src.Other? ==> r == Err(UnsupportedSource)
  {
    match src
    case FromDict(d) => Ok(d)
    case FromList(defs) => IndexById(defs)
    case Other => Err(UnsupportedSource)
  }

  /** A source loads iff it is a dictionary, or a list whose every
      definition carries a string `id`. */
  lemma LoadProcessesOk(src: Source)
    ensures LoadProcesses(src).Ok? <==>
      src.FromDict? || (src.FromList? && forall i | 0 <= i < |src.defs| :: Filed(src.defs[i]))
  {
    if src.FromList? {
      IndexByIdOk(src.defs);
    }
  }

  /** Looking an id up in a loaded list finds the last definition carrying
      it, and nothing when none does. */
  lemma LoadProcessesFinds(src: Source, id: string)
    requires src.FromList? && LoadProcesses(src).Ok?
    ensures (forall i | 0 <= i < |src.defs| :: !HasId(src.defs[i], id)) ==> Get(LoadProcesses(src).value, id) == None
    ensures forall i: nat | LastWithId(src.defs, id, i) :: Get(LoadProcesses(src).value, id) == Some(src.defs[i])
  {
    if forall i | 0 <= i < |src.defs| :: !HasId(src.defs[i], id) {
      IndexByIdAbsent(src.defs, id);
    }
    forall i: nat | LastWithId(src.defs, id, i)
      ensures Get(LoadProcesses(src).value, id) == Some(src.defs[i])
    {
      IndexByIdLastWins(src.defs, id, i);
    }
  }

  /** `load_collections`: the same three cases, keyed by collection id; the
      source repeats the body of `load_processes` word for word. */
  function LoadCollections(src: Source): (r: Result<Dict<string, Json>>)
    ensures src.FromDict? ==> r == Ok(src.d)
    ensures src.FromList? ==> r == IndexById(src.defs)
    ensures src.Other? ==> r == Err(UnsupportedSource)
  {
    LoadProcesses(src)
  }
}
