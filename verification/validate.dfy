/** Validation of a translated process graph (`validate.py`): every node's
    process must be in the process catalogue, and every `load_collection`
    node must name a known collection and, when it selects bands, bands that
    collection offers.  Messages are kept as structured values; their
    wording is not modelled.

    Two checks in the source cannot do what their comments say (see the
    findings in README.md), so the check is parameterised by a `Version`:
    `AsWritten` makes the checks as the source states them, `AsIntended` is the
    evidently intended check. */
module Validate {
  import opened Results
  import opened Strs
  import opened Dicts
  import opened Json
  import opened Utils
  import opened Definitions
  import G = Graph
  import Translate

  /** One validation message. */
  datatype Message =
    | ProcessNotFound(processId: Json)
    | MissingParameter(name: Json, processId: Json)
    | CollectionNotFound(collectionId: Json)
    | BandNotFound(band: string, collectionId: Json, available: seq<string>)

  /** `node.process_id`: the content's `process_id`, null when absent. */
  function ProcessId(n: G.Node): Result<Json> {
    GetOrNull(n.content, "process_id")
  }

  /** The argument `k` is set in the node's stored (not default-filled) arguments. */
  predicate ArgumentGiven(n: G.Node, k: string) {
    Field(n.content, "arguments").Some? && Field(n.content, "arguments").value.JObj? &&
    HasKey(Field(n.content, "arguments").value.entries, k)
  }

  /* ---------------------------------------------------------------------
     validate_processes
     --------------------------------------------------------------------- */

  /** `name not in args.keys()`, reporting a missing parameter. */
  function Missing(args: Json, name: Json, pid: Json): (r: Result<seq<Message>>)
    ensures r.Ok? <==> args.JObj? && Translate.Hashable(name)
    ensures r.Ok? ==> (r.value == [] <==> name.JStr? && HasKey(args.entries, name.s))
    ensures r.Ok? && r.value != [] ==> r.value == [MissingParameter(name, pid)]
  {
    if !args.JObj? || !Translate.Hashable(name) then Err(BadType)
    else if name.JStr? && HasKey(args.entries, name.s) then Ok([])
    else Ok([MissingParameter(name, pid)])
  }

  /** The parameter test for one declared parameter.  As written it looks
      at the parameters that are NOT required and at the default-filled
      arguments; as intended it looks at the required ones and at the
      arguments the process graph states. */
  function ParamMessage(v: Version, n: G.Node, p: Parameter, pid: Json): (r: Result<seq<Message>>)
    ensures r.Ok? ==> |r.value| <= 1
    ensures r.Ok? ==> forall m | m in r.value :: m.MissingParameter? && m.processId == pid
  {
    if v.AsWritten? then
      if p.isRequired then Ok([])
      else
        var name :- ParameterName(p);
        var args :- G.Arguments(n);
        Missing(args, name, pid)
    else
      if !p.isRequired then Ok([])
      else
        var name :- ParameterName(p);
        var args :- Member(n.content, "arguments");
        Missing(args, name, pid)
  }

  /** The parameter messages for `params[i..]`, in declaration order. */
  function ParamMessages(v: Version, n: G.Node, params: Dict<string, Parameter>, i: nat, pid: Json): (r: Result<seq<Message>>)
    requires i <= |params|
    ensures r.Ok? ==> |r.value| <= |params| - i
    ensures r.Ok? ==> forall m | m in r.value :: m.MissingParameter? && m.processId == pid
    decreases |params| - i
  {
    if i == |params| then Ok([])
    else
      var here :- ParamMessage(v, n, params[i].1, pid);
      var rest :- ParamMessages(v, n, params, i + 1, pid);
      Ok(here + rest)
  }

  /** The messages `validate_processes` emits for one node. */
  function NodeProcessMessages(v: Version, n: G.Node, defs: Dict<string, Json>): (r: Result<seq<Message>>)
    ensures r.Ok? ==> ProcessId(n).Ok?
    ensures r.Ok? ==> forall m | m in r.value ::
      (m.ProcessNotFound? || m.MissingParameter?) && m.processId == ProcessId(n).value
  {
    var pid :- ProcessId(n);
    if !Translate.Hashable(pid) then Err(BadType)
    else if !(pid.JStr? && HasKey(defs, pid.s)) then Ok([ProcessNotFound(pid)])
    else
      var declared :- Parameters(n.process);
      ParamMessages(v, n, declared.params, 0, pid)
  }

  /** The per-node results in order: the first failure, or else all the
      messages one after another. */
  function Gather(rs: seq<Result<seq<Message>>>): Result<seq<Message>> {
    if rs == [] then Ok([])
    else
      var here :- rs[0];
      var rest :- Gather(rs[1..]);
      Ok(here + rest)
  }

  /** The gathered results pass exactly when every one of them does. */
  lemma {:induction false} GatherOk(rs: seq<Result<seq<Message>>>)
    ensures Gather(rs).Ok? <==> forall j | 0 <= j < |rs| :: rs[j].Ok?
  {
    if rs != [] {
      GatherOk(rs[1..]);
      assert forall j | 1 <= j < |rs| :: rs[j] == rs[1..][j - 1];
    }
  }

  /** A gathered message is one that some result carries. */
  lemma {:induction false} GatherMessages(rs: seq<Result<seq<Message>>>, m: Message)
    requires Gather(rs).Ok?
    ensures m in Gather(rs).value <==> exists j | 0 <= j < |rs| :: rs[j].Ok? && m in rs[j].value
  {
    if rs != [] {
      GatherMessages(rs[1..], m);
      if m in rs[0].value {
        assert rs[0].Ok? && m in rs[0].value;
      } else if m in Gather(rs[1..]).value {
        var j :| 0 <= j < |rs[1..]| && rs[1..][j].Ok? && m in rs[1..][j].value;
        assert rs[j + 1] == rs[1..][j];
      } else {
        forall j | 1 <= j < |rs| ensures !(rs[j].Ok? && m in rs[j].value) {
          assert rs[j] == rs[1..][j - 1];
        }
      }
    }
  }

  /** The process check of every node, in node order. */
  function ProcessChecks(v: Version, g: G.Graph, defs: Dict<string, Json>): seq<Result<seq<Message>>>
    requires G.Wf(g)
  {
    seq(|g.ids|, j requires 0 <= j < |g.ids| => NodeProcessMessages(v, g.nodes[g.ids[j]], defs))
  }

  /** The messages for all nodes, in node order. */
  function ProcessesFrom(v: Version, g: G.Graph, defs: Dict<string, Json>): Result<seq<Message>>
    requires G.Wf(g)
  {
    Gather(ProcessChecks(v, g, defs))
  }

  /** `validate_processes`: whether the graph is valid and the messages. */
  function ValidateProcesses(v: Version, g: G.Graph, src: Source): (r: Result<(bool, seq<Message>)>)
    requires G.Wf(g)
    ensures r.Ok? ==> (r.value.0 <==> r.value.1 == [])
    ensures src.Other? ==> r == Err(UnsupportedSource)
  {
    var defs :- LoadProcesses(src);
    var msgs :- ProcessesFrom(v, g, defs);
    Ok((|msgs| == 0, msgs))
  }

  /** The loop passes exactly when every node's check passes. */
  lemma ProcessesFromOk(v: Version, g: G.Graph, defs: Dict<string, Json>)
    requires G.Wf(g)
    ensures ProcessesFrom(v, g, defs).Ok? <==> forall j | 0 <= j < |g.ids| :: NodeProcessMessages(v, g.nodes[g.ids[j]], defs).Ok?
  {
    var rs := ProcessChecks(v, g, defs);
    GatherOk(rs);
    assert forall j | 0 <= j < |g.ids| :: rs[j] == NodeProcessMessages(v, g.nodes[g.ids[j]], defs);
  }

  /** The node at position `j` passes and emits `m`. */
  ghost predicate EmitsAt(v: Version, g: G.Graph, defs: Dict<string, Json>, j: nat, m: Message)
    requires G.Wf(g) && j < |g.ids|
  {
    var here := NodeProcessMessages(v, g.nodes[g.ids[j]], defs);
    here.Ok? && m in here.value
  }

  /** A message is emitted exactly when some node emits it. */
  lemma ProcessesFromMessages(v: Version, g: G.Graph, defs: Dict<string, Json>, m: Message)
    requires G.Wf(g) && ProcessesFrom(v, g, defs).Ok?
    ensures m in ProcessesFrom(v, g, defs).value <==> exists j | 0 <= j < |g.ids| :: EmitsAt(v, g, defs, j, m)
  {
    var rs := ProcessChecks(v, g, defs);
    GatherMessages(rs, m);
    if m in ProcessesFrom(v, g, defs).value {
      var j :| 0 <= j < |rs| && rs[j].Ok? && m in rs[j].value;
      assert EmitsAt(v, g, defs, j, m);
    } else {
      forall j | 0 <= j < |g.ids| ensures !EmitsAt(v, g, defs, j, m) {
        assert rs[j] == NodeProcessMessages(v, g.nodes[g.ids[j]], defs);
      }
    }
  }

  /** An unknown process is reported exactly for a node whose `process_id`
      is not a catalogue key. */
  lemma UnknownProcessReported(v: Version, n: G.Node, defs: Dict<string, Json>, pid: Json)
    requires NodeProcessMessages(v, n, defs).Ok?
    ensures ProcessNotFound(pid) in NodeProcessMessages(v, n, defs).value <==>
      ProcessId(n) == Ok(pid) && !(pid.JStr? && HasKey(defs, pid.s))
  {
  }

  /** As written, the parameter test never reports anything: the parameters
      it looks at are exactly those `arguments` has filled in with their
      defaults. */
  lemma {:induction false} AsWrittenParamsSilent(n: G.Node, i: nat, pid: Json)
    requires Parameters(n.process).Ok? && i <= |Parameters(n.process).value.params|
    requires ParamMessages(AsWritten, n, Parameters(n.process).value.params, i, pid).Ok?
    ensures ParamMessages(AsWritten, n, Parameters(n.process).value.params, i, pid).value == []
    decreases |Parameters(n.process).value.params| - i
  {
    var params := Parameters(n.process).value.params;
    if i < |params| {
      AsWrittenParamsSilent(n, i + 1, pid);
      AsWrittenParamSilent(n, i, pid);
      assert ParamMessages(AsWritten, n, params, i, pid).value ==
        ParamMessage(AsWritten, n, params[i].1, pid).value + ParamMessages(AsWritten, n, params, i + 1, pid).value;
    }
  }

  /** As written, the test of one declared parameter finds it among the
      default-filled arguments. */
  lemma AsWrittenParamSilent(n: G.Node, i: nat, pid: Json)
    requires Parameters(n.process).Ok? && i < |Parameters(n.process).value.params|
    requires ParamMessage(AsWritten, n, Parameters(n.process).value.params[i].1, pid).Ok?
    ensures ParamMessage(AsWritten, n, Parameters(n.process).value.params[i].1, pid).value == []
  {
    var params := Parameters(n.process).value.params;
    var p := params[i].1;
    if !p.isRequired {
      ParametersNamed(n.process, i);
      var args := G.Arguments(n).value;
      var stored := Member(n.content, "arguments").value;
      var k := params[i].0;
      assert args == G.WithDefaults(stored, params, 0).value;
      if HasKey(stored.entries, k) {
        assert Get(args.entries, k) == Get(stored.entries, k);
      } else {
        assert Get(args.entries, k).Some?;
      }
    }
  }

  /** As written, `validate_processes` reports unknown processes only. */
  lemma AsWrittenOnlyUnknown(n: G.Node, defs: Dict<string, Json>)
    requires NodeProcessMessages(AsWritten, n, defs).Ok?
    ensures forall m | m in NodeProcessMessages(AsWritten, n, defs).value :: m.ProcessNotFound?
  {
    var pid := ProcessId(n).value;
    if Translate.Hashable(pid) && pid.JStr? && HasKey(defs, pid.s) {
      AsWrittenParamsSilent(n, 0, pid);
    }
  }

  /** As intended, a missing parameter is reported for exactly the required
      parameters the process graph leaves out. */
  lemma {:induction false} IntendedParamsReported(n: G.Node, i: nat, pid: Json, m: Message)
    requires Parameters(n.process).Ok? && i <= |Parameters(n.process).value.params|
    requires ParamMessages(AsIntended, n, Parameters(n.process).value.params, i, pid).Ok?
    ensures m in ParamMessages(AsIntended, n, Parameters(n.process).value.params, i, pid).value <==>
      exists j | i <= j < |Parameters(n.process).value.params| ::
        Parameters(n.process).value.params[j].0 in n.process.required &&
        !ArgumentGiven(n, Parameters(n.process).value.params[j].0) &&
        m == MissingParameter(JStr(Parameters(n.process).value.params[j].0), pid)
    decreases |Parameters(n.process).value.params| - i
  {
    var params := Parameters(n.process).value.params;
    if i < |params| {
      IntendedParamsReported(n, i + 1, pid, m);
      ParametersNamed(n.process, i);
      var here := ParamMessage(AsIntended, n, params[i].1, pid).value;
      var rest := ParamMessages(AsIntended, n, params, i + 1, pid).value;
      assert ParamMessages(AsIntended, n, params, i, pid).value == here + rest;
      IntendedParamReported(n, params[i].1, params[i].0, pid, m);
    }
  }

  /** As intended, one declared parameter yields a message iff it is
      required and not given. */
  lemma IntendedParamReported(n: G.Node, p: Parameter, k: string, pid: Json, m: Message)
    requires ParameterName(p) == Ok(JStr(k))
    requires ParamMessage(AsIntended, n, p, pid).Ok?
    ensures m in ParamMessage(AsIntended, n, p, pid).value <==>
      p.isRequired && !ArgumentGiven(n, k) && m == MissingParameter(JStr(k), pid)
  {
  }

  /* ---------------------------------------------------------------------
     validate_collections
     --------------------------------------------------------------------- */

  /** `[band.lower() for band in vs]`: every band name must be a string. */
  function LowerAll(vs: seq<Json>): (r: Result<seq<string>>)
    ensures r.Ok? <==> forall i | 0 <= i < |vs| :: vs[i].JStr?
    ensures r.Ok? ==> |r.value| == |vs| && forall i | 0 <= i < |vs| :: r.value[i] == Lower(vs[i].s)
    decreases |vs|
  {
    if |vs| == 0 then Ok([])
    else if !vs[0].JStr? then Err(BadType)
    else
      var rest :- LowerAll(vs[1..]);
      Ok([Lower(vs[0].s)] + rest)
  }

  /** A dimension of type `bands`. */
  predicate IsBandsDim(dim: Json) {
    Field(dim, "type") == Some(JStr("bands"))
  }

  /** The lower-cased band names a `bands` dimension lists. */
  function BandValues(dim: Json): (r: Result<seq<string>>)
  {
    var vs :- Member(dim, "values");
    var items :- Iter(vs);
    LowerAll(items)
  }

  /** The lower-cased band names of the `bands` dimensions among `dims[i..]`,
      in dimension order. */
  function AvailableBands(dims: Dict<string, Json>, i: nat): (r: Result<seq<string>>)
    requires i <= |dims|
    decreases |dims| - i
  {
    if i == |dims| then Ok([])
    else
      var t :- Member(dims[i].1, "type");
      var here :- if t == JStr("bands") then BandValues(dims[i].1) else Ok([]);
      var rest :- AvailableBands(dims, i + 1);
      Ok(here + rest)
  }

  /** A band is available exactly when some `bands` dimension lists it. */
  lemma {:induction false} AvailableBandsMembers(dims: Dict<string, Json>, i: nat, b: string)
    requires i <= |dims| && AvailableBands(dims, i).Ok?
    ensures b in AvailableBands(dims, i).value <==>
      exists j | i <= j < |dims| :: IsBandsDim(dims[j].1) && BandValues(dims[j].1).Ok? && b in BandValues(dims[j].1).value
    decreases |dims| - i
  {
    if i < |dims| {
      AvailableBandsMembers(dims, i + 1, b);
      var t := Member(dims[i].1, "type").value;
      var here := if t == JStr("bands") then BandValues(dims[i].1).value else [];
      assert AvailableBands(dims, i).value == here + AvailableBands(dims, i + 1).value;
      assert IsBandsDim(dims[i].1) <==> t == JStr("bands");
    }
  }

  /** One message per requested band the collection does not offer, in
      request order. */
  function BandMessages(requested: seq<string>, available: seq<string>, cid: Json): (r: seq<Message>)
    ensures |r| <= |requested|
    ensures forall m :: m in r <==>
      exists i | 0 <= i < |requested| :: requested[i] !in available && m == BandNotFound(requested[i], cid, available)
    decreases |requested|
  {
    if |requested| == 0 then []
    else
      var rest := BandMessages(requested[1..], available, cid);
      assert forall i | 1 <= i < |requested| :: requested[i] == requested[1..][i - 1];
      if requested[0] in available then rest
      else [BandNotFound(requested[0], cid, available)] + rest
  }

  /** The lower-cased names of every band a collection definition lists. */
  function CollectionBands(collection: Json): Result<seq<string>> {
    var dims :- Member(collection, "cube:dimensions");
    if !dims.JObj? then Err(BadType) else AvailableBands(dims.entries, 0)
  }

  /** The arguments select bands: a `bands` entry that is not null. */
  predicate BandsSelected(args: Json) {
    HasField(args, "bands") && Field(args, "bands").value != JNull
  }

  /** The lower-cased names of the selected bands. */
  function RequestedBands(args: Json): Result<seq<string>>
    requires BandsSelected(args)
  {
    var items :- Iter(Field(args, "bands").value);
    LowerAll(items)
  }

  /** The checks of one `load_collection` node against the collection
      catalogue. */
  function CollectionMessages(v: Version, n: G.Node, src: Source): (r: Result<seq<Message>>)
    ensures ProcessId(n).Ok? && ProcessId(n).value != JStr("load_collection") ==> r == Ok([])
    ensures v.AsWritten? && ProcessId(n) == Ok(JStr("load_collection")) ==> r.Err?
  {
    var pid :- ProcessId(n);
    if pid != JStr("load_collection") then Ok([])
    else
      var args :- G.Arguments(n);
      var cid :- Member(args, "id");
      CollectionCheck(v, args, cid, src)
  }

  /** The checks of a collection `cid` loaded with arguments `args`. */
  function CollectionCheck(v: Version, args: Json, cid: Json, src: Source): (r: Result<seq<Message>>)
    ensures v.AsWritten? ==> r.Err?
  {
    if v.AsWritten? then
      // the loader is called with a `collection_ids` keyword it does not take
      Err(BadType)
    else
      var defs :- LoadCollections(src);
      if !Translate.Hashable(cid) then Err(BadType)
      else if !(cid.JStr? && HasKey(defs, cid.s)) then Ok([CollectionNotFound(cid)])
      else
        var available :- CollectionBands(Get(defs, cid.s).value);
        if !BandsSelected(args) || available == [] then Ok([])
        else
          var requested :- RequestedBands(args);
          Ok(BandMessages(requested, available, cid))
  }

  /** The collection check of every node, in node order. */
  function CollectionChecks(v: Version, g: G.Graph, src: Source): seq<Result<seq<Message>>>
    requires G.Wf(g)
  {
    seq(|g.ids|, j requires 0 <= j < |g.ids| => CollectionMessages(v, g.nodes[g.ids[j]], src))
  }

  /** The collection messages for all nodes, in node order. */
  function CollectionsFrom(v: Version, g: G.Graph, src: Source): Result<seq<Message>>
    requires G.Wf(g)
  {
    Gather(CollectionChecks(v, g, src))
  }

  /** `validate_collections`: whether the graph is valid and the messages. */
  function ValidateCollections(v: Version, g: G.Graph, src: Source): (r: Result<(bool, seq<Message>)>)
    requires G.Wf(g)
    ensures r.Ok? ==> (r.value.0 <==> r.value.1 == [])
  {
    var msgs :- CollectionsFrom(v, g, src);
    Ok((|msgs| == 0, msgs))
  }

  /** The loop passes exactly when every node's collection check passes. */
  lemma CollectionsFromOk(v: Version, g: G.Graph, src: Source)
    requires G.Wf(g)
    ensures CollectionsFrom(v, g, src).Ok? <==> forall j | 0 <= j < |g.ids| :: CollectionMessages(v, g.nodes[g.ids[j]], src).Ok?
  {
    var rs := CollectionChecks(v, g, src);
    GatherOk(rs);
    assert forall j | 0 <= j < |g.ids| :: rs[j] == CollectionMessages(v, g.nodes[g.ids[j]], src);
  }

  /** The node at position `j` passes the collection check and emits `m`. */
  ghost predicate CollectsAt(v: Version, g: G.Graph, src: Source, j: nat, m: Message)
    requires G.Wf(g) && j < |g.ids|
  {
    var here := CollectionMessages(v, g.nodes[g.ids[j]], src);
    here.Ok? && m in here.value
  }

  /** A collection message is emitted exactly when some node emits it. */
  lemma CollectionsFromMessages(v: Version, g: G.Graph, src: Source, m: Message)
    requires G.Wf(g) && CollectionsFrom(v, g, src).Ok?
    ensures m in CollectionsFrom(v, g, src).value <==> exists j | 0 <= j < |g.ids| :: CollectsAt(v, g, src, j, m)
  {
    var rs := CollectionChecks(v, g, src);
    GatherMessages(rs, m);
    if m in CollectionsFrom(v, g, src).value {
      var j :| 0 <= j < |rs| && rs[j].Ok? && m in rs[j].value;
      assert CollectsAt(v, g, src, j, m);
    } else {
      forall j | 0 <= j < |g.ids| ensures !CollectsAt(v, g, src, j, m) {
        assert rs[j] == CollectionMessages(v, g.nodes[g.ids[j]], src);
      }
    }
  }

  /** As written, `validate_collections` succeeds only on graphs without a
      `load_collection` node, and then reports nothing. */
  lemma AsWrittenCollectionsFail(g: G.Graph, src: Source)
    requires G.Wf(g) && ValidateCollections(AsWritten, g, src).Ok?
    ensures forall x | x in g.ids :: ProcessId(g.nodes[x]) != Ok(JStr("load_collection"))
    ensures ValidateCollections(AsWritten, g, src).value == (true, [])
  {
    CollectionsFromOk(AsWritten, g, src);
    forall x | x in g.ids ensures ProcessId(g.nodes[x]) != Ok(JStr("load_collection")) {
      var j :| 0 <= j < |g.ids| && g.ids[j] == x;
      assert CollectionMessages(AsWritten, g.nodes[g.ids[j]], src).Ok?;
    }
    var msgs := CollectionsFrom(AsWritten, g, src).value;
    if msgs != [] {
      CollectionsFromMessages(AsWritten, g, src, msgs[0]);
      assert false;
    }
  }

  /** The collection a node loads, as the intended check reads it. */
  predicate LoadsCollection(n: G.Node, args: Json, cid: Json) {
    ProcessId(n) == Ok(JStr("load_collection")) && G.Arguments(n) == Ok(args) && Member(args, "id") == Ok(cid)
  }

  /** An unknown collection is reported exactly when the id is not a key
      of the collection catalogue. */
  lemma UnknownCollectionReported(n: G.Node, src: Source, args: Json, cid: Json)
    requires LoadsCollection(n, args, cid) && CollectionMessages(AsIntended, n, src).Ok?
    ensures LoadCollections(src).Ok?
    ensures CollectionNotFound(cid) in CollectionMessages(AsIntended, n, src).value <==>
      !(cid.JStr? && HasKey(LoadCollections(src).value, cid.s))
  {
    assert CollectionMessages(AsIntended, n, src) == CollectionCheck(AsIntended, args, cid, src);
    CheckReportsUnknown(args, cid, src);
  }

  /** The collection check reports an unknown collection exactly when the id
      is not a key of the catalogue. */
  lemma CheckReportsUnknown(args: Json, cid: Json, src: Source)
    requires CollectionCheck(AsIntended, args, cid, src).Ok?
    ensures LoadCollections(src).Ok?
    ensures CollectionNotFound(cid) in CollectionCheck(AsIntended, args, cid, src).value <==>
      !(cid.JStr? && HasKey(LoadCollections(src).value, cid.s))
  {
    var defs := LoadCollections(src).value;
    if cid.JStr? && HasKey(defs, cid.s) {
      var available := CollectionBands(Get(defs, cid.s).value).value;
      if BandsSelected(args) && available != [] {
        var requested := RequestedBands(args).value;
        assert CollectionNotFound(cid) !in BandMessages(requested, available, cid);
      }
    }
  }

  /** For a known collection that lists bands and a node that selects
      some, a band is reported exactly when its lower-cased name is not
      among the lower-cased names the collection lists. */
  lemma BandReported(n: G.Node, src: Source, args: Json, cid: Json,
                     available: seq<string>, requested: seq<string>, b: string)
    requires LoadsCollection(n, args, cid) && CollectionMessages(AsIntended, n, src).Ok?
    requires LoadCollections(src).Ok? && cid.JStr? && HasKey(LoadCollections(src).value, cid.s)
    requires CollectionBands(Get(LoadCollections(src).value, cid.s).value) == Ok(available) && available != []
    requires BandsSelected(args) && RequestedBands(args) == Ok(requested)
    ensures BandNotFound(b, cid, available) in CollectionMessages(AsIntended, n, src).value <==>
      b in requested && b !in available
  {
  }

  /** Band names are compared without regard to ASCII case: a requested band
      that a `bands` dimension lists in any case is accepted. */
  lemma BandCaseIgnored(dims: Dict<string, Json>, j: nat, k: nat, requested: string)
    requires AvailableBands(dims, 0).Ok? && j < |dims| && IsBandsDim(dims[j].1)
    requires BandValues(dims[j].1).Ok?
    requires var items := Iter(Member(dims[j].1, "values").value).value;
      k < |items| && Lower(items[k].s) == Lower(requested)
    ensures Lower(requested) in AvailableBands(dims, 0).value
  {
    var items := Iter(Member(dims[j].1, "values").value).value;
    assert BandValues(dims[j].1).value[k] == Lower(requested);
    AvailableBandsMembers(dims, 0, Lower(requested));
  }

  /* ---------------------------------------------------------------------
     validate_process_graph
     --------------------------------------------------------------------- */

  /** `validate_process_graph`: translate the document, then validate it
      against the processes and the collections; the graph is valid when
      both validations pass, and the messages are the process messages
      followed by the collection messages. */
  function ValidateProcessGraph(w: Version, v: Version, doc: Json, catalog: Catalog,
                                processes: Source, collections: Source, globals: Dict<Json, Json>): (r: Result<(bool, seq<Message>)>)
    requires Wf(doc)
    ensures r.Ok? ==> Translate.TranslateProcessGraph(w, doc, catalog, globals).Ok?
    ensures r.Ok? ==> (r.value.0 <==> r.value.1 == [])
    ensures processes.Other? && Translate.TranslateProcessGraph(w, doc, catalog, globals).Ok? ==> r == Err(UnsupportedSource)
  {
    var g :- Translate.TranslateProcessGraph(w, doc, catalog, globals);
    var p :- ValidateProcesses(v, g, processes);
    var c :- ValidateCollections(v, g, collections);
    Ok((p.0 && c.0, p.1 + c.1))
  }

  /** Each message comes from one of the two validations, and every message
      of either appears. */
  lemma ValidateProcessGraphMessages(w: Version, v: Version, doc: Json, catalog: Catalog,
                                     processes: Source, collections: Source, globals: Dict<Json, Json>)
    requires Wf(doc) && ValidateProcessGraph(w, v, doc, catalog, processes, collections, globals).Ok?
    ensures var g := Translate.TranslateProcessGraph(w, doc, catalog, globals).value;
      ValidateProcesses(v, g, processes).Ok? && ValidateCollections(v, g, collections).Ok? &&
      ValidateProcessGraph(w, v, doc, catalog, processes, collections, globals).value.1 ==
        ValidateProcesses(v, g, processes).value.1 + ValidateCollections(v, g, collections).value.1
  {
  }
}
