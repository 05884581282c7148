/** Process and parameter definitions of the openEO catalogue
    (`OpenEOProcess`, `OpenEOParameter`).  A definition is the JSON document
    published for a process; whether a parameter is required and which
    sub-parameters a process offers to the process graphs it embeds are
    supplied with the catalogue entry. */
module Definitions {
  import opened Results
  import opened Strs
  import opened Dicts
  import opened Json

  /** One parameter: its JSON definition and whether it is required. */
  datatype Parameter = Parameter(definition: Json, isRequired: bool)

  /** One catalogue entry: the process definition, the names of its required
      parameters, and the sub-parameters it hands to an embedded process
      graph (absent when the process embeds none). */
  datatype Process = Process(definition: Json, required: set<string>,
                             subParameters: Option<Dict<string, Parameter>>)

  /** The process catalogue, keyed by process id. */
  type Catalog = Dict<string, Process>

  /** `OpenEOProcess.from_name`: the catalogue entry filed under `name`.  A
      name that is a list or dictionary cannot be looked up at all. */
  function FromName(name: Json, catalog: Catalog): (r: Result<Process>)
    ensures r.Ok? <==> name.JStr? && HasKey(catalog, name.s)
    ensures r.Ok? ==> Get(catalog, name.s) == Some(r.value)
    ensures r.Err? && name.JStr? ==> r.error == UnknownProcess
  {
    match name
    case JStr(s) =>
      (match Get(catalog, s)
       case Some(p) => Ok(p)
       case None => Err(UnknownProcess))
    case JArr(_) => Err(BadType)
    case JObj(_) => Err(BadType)
    case _ => Err(UnknownProcess)
  }

  /** `d.get(k)` on a definition: null when absent; a definition that is not
      a dictionary has no `get`. */
  function GetOrNull(d: Json, k: string): (r: Result<Json>)
    ensures r.Ok? <==> d.JObj?
    ensures d.JObj? && HasKey(d.entries, k) ==> r == Ok(Get(d.entries, k).value)
    ensures d.JObj? && !HasKey(d.entries, k) ==> r == Ok(JNull)
  {
    if d.JObj? then Ok(Field(d, k).GetOr(JNull)) else Err(BadType)
  }

  /* ---------------------------------------------------------------------
     OpenEOParameter
     --------------------------------------------------------------------- */

  function ParameterName(p: Parameter): Result<Json> {
    Member(p.definition, "name")
  }

  function ParameterSchema(p: Parameter): Result<Json> {
    Member(p.definition, "schema")
  }

  /** `is_optional`: the `optional` entry, with an absent or null entry
      read as false. */
  function IsOptional(p: Parameter): (r: Result<Json>)
    ensures p.definition.JObj? <==> r.Ok?
    ensures r.Ok? && !HasField(p.definition, "optional") ==> r.value == JBool(false)
    ensures r.Ok? && Field(p.definition, "optional") == Some(JNull) ==> r.value == JBool(false)
    ensures r.Ok? && r.value != JBool(false) ==> Field(p.definition, "optional") == Some(r.value)
  {
    var o :- GetOrNull(p.definition, "optional");
    Ok(if o == JNull then JBool(false) else o)
  }

  /** `default_value`: the `default` entry, null when absent. */
  function DefaultValue(p: Parameter): (r: Result<Json>)
    ensures p.definition.JObj? <==> r.Ok?
    ensures r.Ok? && !HasField(p.definition, "default") ==> r.value == JNull
    ensures r.Ok? && r.value != JNull ==> Field(p.definition, "default") == Some(r.value)
  {
    GetOrNull(p.definition, "default")
  }

  /* ---------------------------------------------------------------------
     OpenEOProcess
     --------------------------------------------------------------------- */

  /** The optional metadata of a process definition: null when absent. */
  function Description(p: Process): Result<Json> { GetOrNull(p.definition, "description") }
  function Returns(p: Process): Result<Json> { GetOrNull(p.definition, "returns") }
  function Exceptions(p: Process): Result<Json> { GetOrNull(p.definition, "exceptions") }
  function ProcessGraph(p: Process): Result<Json> { GetOrNull(p.definition, "process_graph") }

  /** What `parameters` computes: the name-keyed parameters and the
      `sub_process` it leaves behind (the schema of the last declared
      parameter whose schema mentions `parameters`). */
  datatype Declared = Declared(params: Dict<string, Parameter>, subProcess: Option<Json>)

  /** One parameter definition: its name, its `OpenEOParameter`, and
      whether its schema mentions `parameters`. */
  function Declaration(p: Process, d: Json): (r: Result<(string, Parameter, bool)>)
    ensures r.Ok? ==> Names(d, r.value.0) && r.value.1 == Parameter(d, r.value.0 in p.required)
    ensures r.Ok? ==> (r.value.2 <==> Nests(d))
    ensures r.Ok? <==> (Field(d, "name").Some? && Field(d, "name").value.JStr? &&
      Field(d, "schema").Some? && ContainsStr(Field(d, "schema").value, "parameters").Ok?)
  {
    var name :- Member(d, "name");
    if !name.JStr? then Err(BadType)
    else
      var schema :- Member(d, "schema");
      var nested :- ContainsStr(schema, "parameters");
      Ok((name.s, Parameter(d, name.s in p.required), nested))
  }

  /** The declaration loop from definition `i` on, with `acc` holding what
      the earlier definitions declared. */
  function DeclaredFrom(p: Process, defs: seq<Json>, i: nat, acc: Declared): (r: Result<Declared>)
    requires i <= |defs|
    ensures r.Ok? && UniqueKeys(acc.params) ==> UniqueKeys(r.value.params)
    decreases |defs| - i
  {
    if i == |defs| then Ok(acc)
    else
      var decl :- Declaration(p, defs[i]);
      DeclaredFrom(p, defs, i + 1, Declare(acc, decl, defs[i]))
  }

  /** What declaring `decl` (read from definition `d`) adds to `acc`. */
  function Declare(acc: Declared, decl: (string, Parameter, bool), d: Json): Declared
    requires decl.2 ==> Field(d, "schema").Some?
  {
    Declared(Put(acc.params, decl.0, decl.1), if decl.2 then Some(Field(d, "schema").value) else acc.subProcess)
  }

  /** Nothing declared yet. */
  const NoneDeclared := Declared([], None)

  /** `OpenEOProcess.parameters`. */
  function Parameters(p: Process): (r: Result<Declared>)
    ensures r.Ok? ==> UniqueKeys(r.value.params)
  {
    var defsJ :- Member(p.definition, "parameters");
    var defs :- Iter(defsJ);
    DeclaredFrom(p, defs, 0, NoneDeclared)
  }

  /** Definition `d` declares a parameter named `name`. */
  predicate Names(d: Json, name: string) {
    Field(d, "name") == Some(JStr(name))
  }

  /** Definition `d` has a schema that mentions `parameters`. */
  predicate Nests(d: Json) {
    Field(d, "schema").Some? && ContainsStr(Field(d, "schema").value, "parameters") == Ok(true)
  }

  /** A name no later definition declares keeps the entry it had. */
  lemma {:induction false} DeclaredAbsent(p: Process, defs: seq<Json>, i: nat, acc: Declared, name: string)
    requires i <= |defs| && DeclaredFrom(p, defs, i, acc).Ok?
    requires forall j | i <= j < |defs| :: !Names(defs[j], name)
    ensures Get(DeclaredFrom(p, defs, i, acc).value.params, name) == Get(acc.params, name)
    decreases |defs| - i
  {
    if i < |defs| {
      var decl := Declaration(p, defs[i]).value;
      assert decl.0 != name by { assert !Names(defs[i], name); }
      DeclaredAbsent(p, defs, i + 1, Declare(acc, decl, defs[i]), name);
    }
  }

  /** A declared name maps to its last declaration, wrapping exactly that
      definition: a later duplicate wins. */
  lemma {:induction false} DeclaredLastWins(p: Process, defs: seq<Json>, i: nat, acc: Declared, name: string, k: nat)
    requires i <= k < |defs| && DeclaredFrom(p, defs, i, acc).Ok?
    requires Names(defs[k], name) && forall j | k < j < |defs| :: !Names(defs[j], name)
    ensures Get(DeclaredFrom(p, defs, i, acc).value.params, name) == Some(Parameter(defs[k], name in p.required))
    decreases |defs| - i
  {
    var decl := Declaration(p, defs[i]).value;
    if i < k {
      DeclaredLastWins(p, defs, i + 1, Declare(acc, decl, defs[i]), name, k);
    } else {
      DeclaredAbsent(p, defs, i + 1, Declare(acc, decl, defs[i]), name);
    }
  }

  /** Every entry is filed under the name its definition declares, and is
      required exactly when the catalogue lists that name as required. */
  ghost predicate AllNamed(p: Process, d: Dict<string, Parameter>) {
    forall k | HasKey(d, k) :: Named(p, k, Get(d, k).value)
  }

  predicate Named(p: Process, k: string, prm: Parameter) {
    Member(prm.definition, "name") == Ok(JStr(k)) && prm.isRequired == (k in p.required)
  }

  /** The declaration loop keeps every entry filed under its own name. */
  lemma {:induction false} DeclaredNamed(p: Process, defs: seq<Json>, i: nat, acc: Declared)
    requires i <= |defs| && DeclaredFrom(p, defs, i, acc).Ok? && AllNamed(p, acc.params)
    ensures AllNamed(p, DeclaredFrom(p, defs, i, acc).value.params)
    decreases |defs| - i
  {
    if i < |defs| {
      var decl := Declaration(p, defs[i]).value;
      var acc' := Declare(acc, decl, defs[i]);
      forall k | HasKey(acc'.params, k) ensures Named(p, k, Get(acc'.params, k).value) {
        if k != decl.0 {
          assert Get(acc'.params, k) == Get(acc.params, k);
        }
      }
      DeclaredNamed(p, defs, i + 1, acc');
    }
  }

  /** The same for each entry of `parameters`. */
  lemma ParametersNamed(p: Process, j: nat)
    requires Parameters(p).Ok? && j < |Parameters(p).value.params|
    ensures ParameterName(Parameters(p).value.params[j].1) == Ok(JStr(Parameters(p).value.params[j].0))
    ensures Parameters(p).value.params[j].1.isRequired == (Parameters(p).value.params[j].0 in p.required)
  {
    var params := Parameters(p).value.params;
    var defs := Iter(Member(p.definition, "parameters").value).value;
    GetEntry(params, j);
    DeclaredNamed(p, defs, 0, NoneDeclared);
    assert HasKey(params, params[j].0);
  }

  /** Without a nesting schema `sub_process` keeps what it was. */
  lemma {:induction false} SubProcessAbsent(p: Process, defs: seq<Json>, i: nat, acc: Declared)
    requires i <= |defs| && DeclaredFrom(p, defs, i, acc).Ok?
    requires forall j | i <= j < |defs| :: !Nests(defs[j])
    ensures DeclaredFrom(p, defs, i, acc).value.subProcess == acc.subProcess
    decreases |defs| - i
  {
    if i < |defs| {
      var decl := Declaration(p, defs[i]).value;
      assert !Nests(defs[i]);
      SubProcessAbsent(p, defs, i + 1, Declare(acc, decl, defs[i]));
    }
  }

  /** `sub_process` is the schema of the last parameter whose schema
      mentions `parameters`. */
  lemma {:induction false} SubProcessIsLastNesting(p: Process, defs: seq<Json>, i: nat, acc: Declared, k: nat)
    requires i <= k < |defs| && DeclaredFrom(p, defs, i, acc).Ok?
    requires Nests(defs[k]) && forall j | k < j < |defs| :: !Nests(defs[j])
    ensures DeclaredFrom(p, defs, i, acc).value.subProcess == Some(Field(defs[k], "schema").value)
    decreases |defs| - i
  {
    var decl := Declaration(p, defs[i]).value;
    if i < k {
      SubProcessIsLastNesting(p, defs, i + 1, Declare(acc, decl, defs[i]), k);
    } else {
      SubProcessAbsent(p, defs, i + 1, Declare(acc, decl, defs[i]));
    }
  }

  /** `is_reducer`: a non-null `categories` entry that contains "reducer". */
  function IsReducer(p: Process): (r: Result<bool>)
    ensures r == Ok(true) <==>
      HasField(p.definition, "categories") && Field(p.definition, "categories").value != JNull &&
      ContainsStr(Field(p.definition, "categories").value, "reducer") == Ok(true)
    ensures p.definition.JObj? && !HasField(p.definition, "categories") ==> r == Ok(false)
  {
    var cats :- GetOrNull(p.definition, "categories");
    if cats == JNull then Ok(false) else ContainsStr(cats, "reducer")
  }
}
