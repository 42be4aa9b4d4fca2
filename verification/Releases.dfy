/** Comparison of Releases: which diagnostics a pair of Releases gets, and what their absence means. */
module Releases {

  import opened Order
  import opened Values
  import opened Contracts
  import opened Relations
  import opened Coexistence
  import opened RelationChecker
  import opened Definitions

  const MAX_DIAGNOSTICS: nat := 4_096

  datatype FunctionType = Query | Mutation | Action
  datatype Visibility = Public | Internal
  datatype AuthPolicy = Open | Optional | Guest | User | Service
  datatype RuntimeClass = SafeV8 | FullNode

  datatype Metadata = Metadata(
    id: Text, functionType: FunctionType, visibility: Visibility, authPolicy: AuthPolicy,
    runtimeClass: RuntimeClass, capabilities: seq<Text>)

  datatype Function = Function(name: Text, metadata: Metadata, argumentsHash: Text, resultHash: Text)

  datatype Table = Table(id: Text, name: Text, document: Contract)

  /** A verified Release: its manifest and the contracts and schema decoded from its bundle. */
  datatype Package = Package(
    projectId: Text, releaseId: Text, functions: seq<Function>, contracts: map<Text, Contract>,
    schema: Option<seq<Table>>, schemaHash: Text, indexHash: Text, crons: seq<Text>)

  datatype Code =
    | FunctionRemoved | MetadataChanged | ArgumentsNarrowed | ResultWidened
    | TableRemoved | TableRenamed | DocumentNarrowed | SchemaChangeUnproven | SchemaValidationRemoved
    | IndexChangeUnproven
    | TableIdRenamed | ViewsCannotCoexist | SchemaViewUnavailable | IndexChangeRequiresReadiness | CronsDiverged

  datatype Diagnostic = Diagnostic(code: Code, subject: Text)

  datatype Report = Report(compatible: bool, diagnostics: seq<Diagnostic>)

  /** The subject "release". */
  const RELEASE: Text := [114, 101, 108, 101, 97, 115, 101]

  function Resolved(p: Package, digest: Text): Contract {
    if digest in p.contracts then p.contracts[digest] else Any
  }

  /** The entry that an ordered map collected from the list holds for `name`. */
  function FunctionNamed(functions: seq<Function>, name: Text): (f: Option<Function>)
    ensures f.Some? ==> f.value in functions && f.value.name == name
    ensures f.None? ==> forall g :: g in functions ==> g.name != name
  {
    if functions == [] then None
    else
      var last := functions[|functions| - 1];
      if last.name == name then Some(last) else FunctionNamed(functions[..|functions| - 1], name)
  }

  function TableWithId(tables: seq<Table>, id: Text): (t: Option<Table>)
    ensures t.Some? ==> t.value in tables && t.value.id == id
    ensures t.None? ==> forall u :: u in tables ==> u.id != id
  {
    if tables == [] then None
    else
      var last := tables[|tables| - 1];
      if last.id == id then Some(last) else TableWithId(tables[..|tables| - 1], id)
  }

  // ---------------------------------------------------------------- what must hold

  /** `next` serves every caller of `previous`. */
  predicate FunctionReplaces(base: Package, candidate: Package, previous: Function, next: Function) {
    && previous.metadata == next.metadata
    && Sub(Resolved(base, previous.argumentsHash), Resolved(candidate, next.argumentsHash))
    && Sub(Resolved(candidate, next.resultHash), Resolved(base, previous.resultHash))
  }

  predicate FunctionsReplace(base: Package, candidate: Package) {
    forall f :: f in base.functions && f.metadata.visibility.Public? ==>
      var next := FunctionNamed(candidate.functions, f.name);
      next.Some? && FunctionReplaces(base, candidate, f, next.value)
  }

  predicate SchemaReplaces(base: Package, candidate: Package) {
    match (base.schema, candidate.schema)
    case (Some(tables), Some(nextTables)) =>
      forall t :: t in tables ==>
        var next := TableWithId(nextTables, t.id);
        next.Some? && next.value.name == t.name && Sub(t.document, next.value.document)
    case (Some(_), None) => false
    case (None, _) => base.schemaHash == candidate.schemaHash
  }

  predicate SchemasCoexist(left: Package, right: Package) {
    match (left.schema, right.schema)
    case (Some(tables), Some(others)) =>
      forall t :: t in tables ==>
        var other := TableWithId(others, t.id);
        other.Some? ==> other.value.name == t.name && CanCoexist(t.document, other.value.document)
    case (None, None) => true
    case _ => false
  }

  /** `candidate` may replace `base` for existing callers and documents. */
  predicate Replaces(base: Package, candidate: Package) {
    FunctionsReplace(base, candidate) && SchemaReplaces(base, candidate) && base.indexHash == candidate.indexHash
  }

  predicate Coexist(left: Package, right: Package) {
    SchemasCoexist(left, right) && left.indexHash == right.indexHash && left.crons == right.crons
  }

  // ---------------------------------------------------------------- the diagnostics

  function FunctionDiagnostics(base: Package, candidate: Package, f: Function): set<Diagnostic> {
    if f.metadata.visibility.Internal? then {}
    else
      var next := FunctionNamed(candidate.functions, f.name);
      if next.None? then {Diagnostic(FunctionRemoved, f.name)}
      else
        (if f.metadata != next.value.metadata then {Diagnostic(MetadataChanged, f.name)} else {})
        + (if !Sub(Resolved(base, f.argumentsHash), Resolved(candidate, next.value.argumentsHash))
           then {Diagnostic(ArgumentsNarrowed, f.name)} else {})
        + (if !Sub(Resolved(candidate, next.value.resultHash), Resolved(base, f.resultHash))
           then {Diagnostic(ResultWidened, f.name)} else {})
  }

  function TableDiagnostics(nextTables: seq<Table>, t: Table): set<Diagnostic> {
    var next := TableWithId(nextTables, t.id);
    if next.None? then {Diagnostic(TableRemoved, t.id)}
    else
      (if t.name != next.value.name then {Diagnostic(TableRenamed, t.id)} else {})
      + (if !Sub(t.document, next.value.document) then {Diagnostic(DocumentNarrowed, t.id)} else {})
  }

  function SharedTableDiagnostics(others: seq<Table>, t: Table): set<Diagnostic> {
    var other := TableWithId(others, t.id);
    if other.None? then {}
    else if t.name != other.value.name then {Diagnostic(TableIdRenamed, t.id)}
    else if !CanCoexist(t.document, other.value.document) then {Diagnostic(ViewsCannotCoexist, t.id)}
    else {}
  }

  function AllFunctionDiagnostics(base: Package, candidate: Package, functions: seq<Function>): set<Diagnostic> {
    if functions == [] then {}
    else
      AllFunctionDiagnostics(base, candidate, functions[..|functions| - 1])
      + FunctionDiagnostics(base, candidate, functions[|functions| - 1])
  }

  function AllTableDiagnostics(nextTables: seq<Table>, tables: seq<Table>): set<Diagnostic> {
    if tables == [] then {}
    else AllTableDiagnostics(nextTables, tables[..|tables| - 1]) + TableDiagnostics(nextTables, tables[|tables| - 1])
  }

  function AllSharedTableDiagnostics(others: seq<Table>, tables: seq<Table>): set<Diagnostic> {
    if tables == [] then {}
    else
      AllSharedTableDiagnostics(others, tables[..|tables| - 1])
      + SharedTableDiagnostics(others, tables[|tables| - 1])
  }

  function SchemaDiagnostics(base: Package, candidate: Package): set<Diagnostic> {
    match (base.schema, candidate.schema)
    case (Some(tables), Some(nextTables)) => AllTableDiagnostics(nextTables, tables)
    case (Some(_), None) => {Diagnostic(SchemaValidationRemoved, RELEASE)}
    case (None, _) =>
      if base.schemaHash != candidate.schemaHash then {Diagnostic(SchemaChangeUnproven, RELEASE)} else {}
  }

  function CoexistenceDiagnostics(left: Package, right: Package): set<Diagnostic> {
    match (left.schema, right.schema)
    case (Some(tables), Some(others)) => AllSharedTableDiagnostics(others, tables)
    case (None, None) => {}
    case _ => {Diagnostic(SchemaViewUnavailable, RELEASE)}
  }

  function ReplaceDiagnostics(base: Package, candidate: Package): set<Diagnostic> {
    AllFunctionDiagnostics(base, candidate, base.functions)
    + SchemaDiagnostics(base, candidate)
    + (if base.indexHash != candidate.indexHash then {Diagnostic(IndexChangeUnproven, RELEASE)} else {})
  }

  function CoexistDiagnostics(left: Package, right: Package): set<Diagnostic> {
    CoexistenceDiagnostics(left, right)
    + (if left.indexHash != right.indexHash then {Diagnostic(IndexChangeRequiresReadiness, RELEASE)} else {})
    + (if left.crons != right.crons then {Diagnostic(CronsDiverged, RELEASE)} else {})
  }

  // ---------------------------------------------------------------- no diagnostics, nothing broken

  lemma {:induction false} NoFunctionDiagnostics(base: Package, candidate: Package, functions: seq<Function>)
    ensures AllFunctionDiagnostics(base, candidate, functions) == {} <==>
              forall f :: f in functions ==> FunctionDiagnostics(base, candidate, f) == {}
  {
    if functions != [] {
      var rest, last := functions[..|functions| - 1], functions[|functions| - 1];
      NoFunctionDiagnostics(base, candidate, rest);
      assert functions == rest + [last];
      assert forall f :: f in functions <==> f in rest || f == last;
    }
  }

  lemma {:induction false} NoTableDiagnostics(nextTables: seq<Table>, tables: seq<Table>)
    ensures AllTableDiagnostics(nextTables, tables) == {} <==>
            forall t :: t in tables ==> TableDiagnostics(nextTables, t) == {}
  {
    if tables != [] {
      var rest, last := tables[..|tables| - 1], tables[|tables| - 1];
      NoTableDiagnostics(nextTables, rest);
      assert tables == rest + [last];
      assert forall t :: t in tables <==> t in rest || t == last;
    }
  }

  lemma {:induction false} NoSharedTableDiagnostics(others: seq<Table>, tables: seq<Table>)
    ensures AllSharedTableDiagnostics(others, tables) == {} <==>
            forall t :: t in tables ==> SharedTableDiagnostics(others, t) == {}
  {
    if tables != [] {
      var rest, last := tables[..|tables| - 1], tables[|tables| - 1];
      NoSharedTableDiagnostics(others, rest);
      assert tables == rest + [last];
      assert forall t :: t in tables <==> t in rest || t == last;
    }
  }

  /** A replacement gets no diagnostic exactly when it breaks no caller and no document. */
  lemma ReplaceDiagnosticsExact(base: Package, candidate: Package)
    ensures ReplaceDiagnostics(base, candidate) == {} <==> Replaces(base, candidate)
  {
    NoFunctionDiagnostics(base, candidate, base.functions);
    if base.schema.Some? && candidate.schema.Some? {
      NoTableDiagnostics(candidate.schema.value, base.schema.value);
    }
  }

  lemma CoexistDiagnosticsExact(left: Package, right: Package)
    ensures CoexistDiagnostics(left, right) == {} <==> Coexist(left, right)
  {
    if left.schema.Some? && right.schema.Some? {
      NoSharedTableDiagnostics(right.schema.value, left.schema.value);
    }
  }

  // ---------------------------------------------------------------- what each diagnostic means

  /** The last function of that name, as an ordered map collects it. */
  predicate IsLastNamed(functions: seq<Function>, f: Function) {
    exists i :: 0 <= i < |functions| && functions[i] == f
      && forall j :: i < j < |functions| ==> functions[j].name != f.name
  }

  predicate IsLastWithId(tables: seq<Table>, t: Table) {
    exists i :: 0 <= i < |tables| && tables[i] == t && forall j :: i < j < |tables| ==> tables[j].id != t.id
  }

  lemma {:induction false} LastNamed(functions: seq<Function>, f: Function)
    ensures FunctionNamed(functions, f.name) == Some(f) <==> IsLastNamed(functions, f)
  {
    if functions != [] {
      var n := |functions| - 1;
      LastNamed(functions[..n], f);
      if functions[n].name == f.name {
        assert functions[n] == f ==> IsLastNamed(functions, f);
      } else {
        if IsLastNamed(functions[..n], f) {
          var i :| 0 <= i < n && functions[..n][i] == f && forall j :: i < j < n ==> functions[..n][j].name != f.name;
          assert functions[i] == f && forall j :: i < j < |functions| ==> functions[j].name != f.name;
        }
        if IsLastNamed(functions, f) {
          var i :| 0 <= i < |functions| && functions[i] == f
            && forall j :: i < j < |functions| ==> functions[j].name != f.name;
          assert functions[..n][i] == f && forall j :: i < j < n ==> functions[..n][j].name != f.name;
        }
      }
    }
  }

  lemma {:induction false} LastWithId(tables: seq<Table>, t: Table)
    ensures TableWithId(tables, t.id) == Some(t) <==> IsLastWithId(tables, t)
  {
    if tables != [] {
      var n := |tables| - 1;
      LastWithId(tables[..n], t);
      if tables[n].id == t.id {
        assert tables[n] == t ==> IsLastWithId(tables, t);
      } else {
        if IsLastWithId(tables[..n], t) {
          var i :| 0 <= i < n && tables[..n][i] == t && forall j :: i < j < n ==> tables[..n][j].id != t.id;
          assert tables[i] == t && forall j :: i < j < |tables| ==> tables[j].id != t.id;
        }
        if IsLastWithId(tables, t) {
          var i :| 0 <= i < |tables| && tables[i] == t && forall j :: i < j < |tables| ==> tables[j].id != t.id;
          assert tables[..n][i] == t && forall j :: i < j < n ==> tables[..n][j].id != t.id;
        }
      }
    }
  }

  /** What is wrong with a public function of the base. */
  ghost predicate FunctionBreaks(base: Package, candidate: Package, f: Function, code: Code) {
    if code.FunctionRemoved? then forall g :: g in candidate.functions ==> g.name != f.name
    else
      exists g :: IsLastNamed(candidate.functions, g) && g.name == f.name &&
        match code
        case MetadataChanged => g.metadata != f.metadata
        case ArgumentsNarrowed => !Sub(Resolved(base, f.argumentsHash), Resolved(candidate, g.argumentsHash))
        case ResultWidened => !Sub(Resolved(candidate, g.resultHash), Resolved(base, f.resultHash))
        case _ => false
  }

  /** What is wrong with a table of the base. */
  ghost predicate TableBreaks(nextTables: seq<Table>, t: Table, code: Code) {
    if code.TableRemoved? then forall u :: u in nextTables ==> u.id != t.id
    else
      exists u :: IsLastWithId(nextTables, u) && u.id == t.id &&
        match code
        case TableRenamed => u.name != t.name
        case DocumentNarrowed => !Sub(t.document, u.document)
        case _ => false
  }

  lemma FunctionDiagnosed(base: Package, candidate: Package, f: Function, d: Diagnostic)
    ensures d in FunctionDiagnostics(base, candidate, f) <==>
            d.subject == f.name && f.metadata.visibility.Public? && FunctionBreaks(base, candidate, f, d.code)
  {
    var next := FunctionNamed(candidate.functions, f.name);
    if next.Some? {
      LastNamed(candidate.functions, next.value);
      forall g | IsLastNamed(candidate.functions, g) && g.name == f.name ensures g == next.value {
        LastNamed(candidate.functions, g);
      }
    } else {
      assert forall g :: g in candidate.functions ==> g.name != f.name;
      assert forall g :: IsLastNamed(candidate.functions, g) ==> g in candidate.functions;
    }
  }

  lemma TableDiagnosed(nextTables: seq<Table>, t: Table, d: Diagnostic)
    ensures d in TableDiagnostics(nextTables, t) <==> d.subject == t.id && TableBreaks(nextTables, t, d.code)
  {
    var next := TableWithId(nextTables, t.id);
    if next.Some? {
      LastWithId(nextTables, next.value);
      forall u | IsLastWithId(nextTables, u) && u.id == t.id ensures u == next.value {
        LastWithId(nextTables, u);
      }
    } else {
      assert forall u :: IsLastWithId(nextTables, u) ==> u in nextTables;
    }
  }

  lemma {:induction false} SomeFunctionDiagnosed(
      base: Package, candidate: Package, functions: seq<Function>, d: Diagnostic)
    ensures d in AllFunctionDiagnostics(base, candidate, functions) <==>
            exists f :: f in functions && d in FunctionDiagnostics(base, candidate, f)
  {
    if functions != [] {
      var rest, last := functions[..|functions| - 1], functions[|functions| - 1];
      SomeFunctionDiagnosed(base, candidate, rest, d);
      assert functions == rest + [last];
      assert forall f :: f in functions <==> f in rest || f == last;
    }
  }

  lemma {:induction false} SomeTableDiagnosed(nextTables: seq<Table>, tables: seq<Table>, d: Diagnostic)
    ensures d in AllTableDiagnostics(nextTables, tables) <==>
            exists t :: t in tables && d in TableDiagnostics(nextTables, t)
  {
    if tables != [] {
      var rest, last := tables[..|tables| - 1], tables[|tables| - 1];
      SomeTableDiagnosed(nextTables, rest, d);
      assert tables == rest + [last];
      assert forall t :: t in tables <==> t in rest || t == last;
    }
  }

  /** Why a replacement gets a diagnostic. */
  ghost predicate Blocks(base: Package, candidate: Package, d: Diagnostic) {
    || (exists f :: f in base.functions && f.name == d.subject && f.metadata.visibility.Public?
          && FunctionBreaks(base, candidate, f, d.code))
    || (base.schema.Some? && candidate.schema.Some?
        && exists t :: t in base.schema.value && t.id == d.subject && TableBreaks(candidate.schema.value, t, d.code))
    || (d.subject == RELEASE &&
        match d.code
        case SchemaValidationRemoved => base.schema.Some? && candidate.schema.None?
        case SchemaChangeUnproven => base.schema.None? && base.schemaHash != candidate.schemaHash
        case IndexChangeUnproven => base.indexHash != candidate.indexHash
        case _ => false)
  }

  /** A replacement is reported a diagnostic exactly for its reason. */
  lemma DiagnosticMeans(base: Package, candidate: Package, d: Diagnostic)
    ensures d in ReplaceDiagnostics(base, candidate) <==> Blocks(base, candidate, d)
  {
    SomeFunctionDiagnosed(base, candidate, base.functions, d);
    forall f | f in base.functions
      ensures d in FunctionDiagnostics(base, candidate, f) <==>
              d.subject == f.name && f.metadata.visibility.Public? && FunctionBreaks(base, candidate, f, d.code)
    {
      FunctionDiagnosed(base, candidate, f, d);
    }
    if base.schema.Some? && candidate.schema.Some? {
      SomeTableDiagnosed(candidate.schema.value, base.schema.value, d);
      forall t | t in base.schema.value
        ensures d in TableDiagnostics(candidate.schema.value, t) <==>
                d.subject == t.id && TableBreaks(candidate.schema.value, t, d.code)
      {
        TableDiagnosed(candidate.schema.value, t, d);
      }
    }
  }

  /** What keeps two Releases from sharing a table. */
  ghost predicate TableDivides(others: seq<Table>, t: Table, code: Code) {
    exists u :: IsLastWithId(others, u) && u.id == t.id &&
      match code
      case TableIdRenamed => u.name != t.name
      case ViewsCannotCoexist => u.name == t.name && !CanCoexist(t.document, u.document)
      case _ => false
  }

  lemma SharedTableDiagnosed(others: seq<Table>, t: Table, d: Diagnostic)
    ensures d in SharedTableDiagnostics(others, t) <==> d.subject == t.id && TableDivides(others, t, d.code)
  {
    var other := TableWithId(others, t.id);
    if other.Some? {
      LastWithId(others, other.value);
      forall u | IsLastWithId(others, u) && u.id == t.id ensures u == other.value {
        LastWithId(others, u);
      }
    } else {
      assert forall u :: IsLastWithId(others, u) ==> u in others;
    }
  }

  lemma {:induction false} SomeSharedTableDiagnosed(others: seq<Table>, tables: seq<Table>, d: Diagnostic)
    ensures d in AllSharedTableDiagnostics(others, tables) <==>
            exists t :: t in tables && d in SharedTableDiagnostics(others, t)
  {
    if tables != [] {
      var rest, last := tables[..|tables| - 1], tables[|tables| - 1];
      SomeSharedTableDiagnosed(others, rest, d);
      assert tables == rest + [last];
      assert forall t :: t in tables <==> t in rest || t == last;
    }
  }

  /** Why two Releases get a diagnostic. */
  ghost predicate Divides(left: Package, right: Package, d: Diagnostic) {
    || (left.schema.Some? && right.schema.Some?
        && exists t :: t in left.schema.value && t.id == d.subject && TableDivides(right.schema.value, t, d.code))
    || (d.subject == RELEASE &&
        match d.code
        case SchemaViewUnavailable => left.schema.Some? != right.schema.Some?
        case IndexChangeRequiresReadiness => left.indexHash != right.indexHash
        case CronsDiverged => left.crons != right.crons
        case _ => false)
  }

  /** A pair of Releases is reported a diagnostic exactly for its reason. */
  lemma CoexistDiagnosticMeans(left: Package, right: Package, d: Diagnostic)
    ensures d in CoexistDiagnostics(left, right) <==> Divides(left, right, d)
  {
    if left.schema.Some? && right.schema.Some? {
      SomeSharedTableDiagnosed(right.schema.value, left.schema.value, d);
      forall t | t in left.schema.value
        ensures d in SharedTableDiagnostics(right.schema.value, t) <==>
                d.subject == t.id && TableDivides(right.schema.value, t, d.code)
      {
        SharedTableDiagnosed(right.schema.value, t, d);
      }
    }
  }

  // ---------------------------------------------------------------- chains of replacements

  predicate IsRollout(chain: seq<Package>) {
    && chain != []
    && (forall i :: 0 <= i < |chain| ==> chain[i].schema.Some?)
    && (forall i :: 0 <= i < |chain| - 1 ==> Replaces(chain[i], chain[i + 1]))
  }

  /**
   Along a chain of compatible replacements, a public function of the first Release is still there
   in the last one, with the same metadata, accepting at least the same arguments and returning
   nothing new.
   */
  lemma {:induction false} RolloutKeepsFunctions(chain: seq<Package>, f: Function, n: nat) returns (g: Function)
    requires IsRollout(chain) && n < |chain|
    requires f in chain[0].functions && f.metadata.visibility.Public?
    ensures g in chain[n].functions && g.name == f.name && g.metadata == f.metadata
    ensures n > 0 ==> FunctionNamed(chain[n].functions, f.name) == Some(g)
    ensures forall v :: Accepts(Resolved(chain[0], f.argumentsHash), v) ==>
      Accepts(Resolved(chain[n], g.argumentsHash), v)
    ensures forall v :: Accepts(Resolved(chain[n], g.resultHash), v) ==> Accepts(Resolved(chain[0], f.resultHash), v)
  {
    if n == 0 {
      g := f;
    } else {
      var before := RolloutKeepsFunctions(chain, f, n - 1);
      assert Replaces(chain[n - 1], chain[n - 1 + 1]);
      g := FunctionNamed(chain[n].functions, before.name).value;
      assert FunctionReplaces(chain[n - 1], chain[n], before, g);
      forall v | Accepts(Resolved(chain[n - 1], before.argumentsHash), v)
        ensures Accepts(Resolved(chain[n], g.argumentsHash), v)
      {
        SubSound(Resolved(chain[n - 1], before.argumentsHash), Resolved(chain[n], g.argumentsHash), v);
      }
      forall v | Accepts(Resolved(chain[n], g.resultHash), v)
        ensures Accepts(Resolved(chain[n - 1], before.resultHash), v)
      {
        SubSound(Resolved(chain[n], g.resultHash), Resolved(chain[n - 1], before.resultHash), v);
      }
    }
  }

  /** And every document valid in the first schema is valid in the last one. */
  lemma {:induction false} RolloutKeepsDocuments(chain: seq<Package>, t: Table, n: nat) returns (u: Table)
    requires IsRollout(chain) && n < |chain|
    requires t in chain[0].schema.value
    ensures u in chain[n].schema.value && u.id == t.id && u.name == t.name
    ensures forall v :: Accepts(t.document, v) ==> Accepts(u.document, v)
  {
    if n == 0 {
      u := t;
    } else {
      var before := RolloutKeepsDocuments(chain, t, n - 1);
      assert Replaces(chain[n - 1], chain[n - 1 + 1]);
      u := TableWithId(chain[n].schema.value, before.id).value;
      forall v | Accepts(before.document, v) ensures Accepts(u.document, v) {
        SubSound(before.document, u.document, v);
      }
    }
  }

  // ---------------------------------------------------------------- the comparison as it runs

  function Elements(diagnostics: seq<Diagnostic>): set<Diagnostic> {
    set d | d in diagnostics
  }

  /** The relation check of these contracts stays within its budget. */
  predicate PairWithin(a: Contract, b: Contract) {
    Nodes(a) * Nodes(b) <= MAX_RELATION_STEPS
  }

  predicate FunctionWithin(base: Package, candidate: Package, f: Function, next: Function) {
    && PairWithin(Resolved(base, f.argumentsHash), Resolved(candidate, next.argumentsHash))
    && PairWithin(Resolved(candidate, next.resultHash), Resolved(base, f.resultHash))
  }

  predicate FunctionsWithin(base: Package, candidate: Package) {
    forall f :: f in base.functions && f.metadata.visibility.Public? ==>
      var next := FunctionNamed(candidate.functions, f.name);
      next.Some? ==> FunctionWithin(base, candidate, f, next.value)
  }

  predicate TablesWithin(tables: seq<Table>, others: seq<Table>) {
    forall t :: t in tables ==>
      var other := TableWithId(others, t.id);
      other.Some? ==> PairWithin(t.document, other.value.document)
  }

  predicate SchemasWithin(base: Package, candidate: Package) {
    base.schema.Some? && candidate.schema.Some? ==> TablesWithin(base.schema.value, candidate.schema.value)
  }

  function TableCount(p: Package): nat {
    if p.schema.Some? then |p.schema.value| else 0
  }

  /** Every relation check stays within its budget and the report cannot overflow: a comparison must be answered. */
  predicate ReplaceWithin(base: Package, candidate: Package) {
    && FunctionsWithin(base, candidate) && SchemasWithin(base, candidate)
    && 3 * |base.functions| + 2 * TableCount(base) + 2 <= MAX_DIAGNOSTICS
  }

  predicate CoexistWithin(left: Package, right: Package) {
    SchemasWithin(left, right) && TableCount(left) + 3 <= MAX_DIAGNOSTICS
  }

  method PushDiagnostic(diagnostics: seq<Diagnostic>, d: Diagnostic)
    returns (r: Result<seq<Diagnostic>, CompatibilityError>)
    ensures r.Ok? ==> r.value == diagnostics + [d] && Elements(r.value) == Elements(diagnostics) + {d}
    ensures r.Err? <==> |diagnostics| >= MAX_DIAGNOSTICS
    ensures r.Err? ==> r.error.LimitExceeded?
  {
    if |diagnostics| >= MAX_DIAGNOSTICS {
      return Err(CompatibilityError.LimitExceeded);
    }
    r := Ok(diagnostics + [d]);
  }

  /** Records the diagnostic when the condition fails. */
  method PushUnless(condition: bool, diagnostics: seq<Diagnostic>, d: Diagnostic)
    returns (r: Result<seq<Diagnostic>, CompatibilityError>)
    ensures r.Ok? ==> Elements(r.value) == Elements(diagnostics) + (if condition then {} else {d})
    ensures r.Ok? ==> |r.value| <= |diagnostics| + 1
    ensures r.Err? ==> r.error.LimitExceeded? && |diagnostics| >= MAX_DIAGNOSTICS
  {
    if condition {
      return Ok(diagnostics);
    }
    r := PushDiagnostic(diagnostics, d);
  }

  /** The candidate functions by name; of several with one name the last is kept. */
  method FunctionsByName(functions: seq<Function>) returns (byName: map<Text, Function>)
    ensures forall name :: name in byName <==> FunctionNamed(functions, name).Some?
    ensures forall name :: name in byName ==> FunctionNamed(functions, name) == Some(byName[name])
  {
    byName := map[];
    for i := 0 to |functions|
      invariant forall name :: name in byName <==> FunctionNamed(functions[..i], name).Some?
      invariant forall name :: name in byName ==> FunctionNamed(functions[..i], name) == Some(byName[name])
    {
      assert functions[..i + 1][..i] == functions[..i];
      byName := byName[functions[i].name := functions[i]];
    }
    assert functions[..|functions|] == functions;
  }

  method TablesById(tables: seq<Table>) returns (byId: map<Text, Table>)
    ensures forall id :: id in byId <==> TableWithId(tables, id).Some?
    ensures forall id :: id in byId ==> TableWithId(tables, id) == Some(byId[id])
  {
    byId := map[];
    for i := 0 to |tables|
      invariant forall id :: id in byId <==> TableWithId(tables[..i], id).Some?
      invariant forall id :: id in byId ==> TableWithId(tables[..i], id) == Some(byId[id])
    {
      assert tables[..i + 1][..i] == tables[..i];
      byId := byId[tables[i].id := tables[i]];
    }
    assert tables[..|tables|] == tables;
  }

  method CompareFunction(base: Package, candidate: Package, previous: Function, next: Function,
      diagnostics: seq<Diagnostic>)
    returns (r: Result<seq<Diagnostic>, CompatibilityError>)
    requires previous.metadata.visibility.Public? && FunctionNamed(candidate.functions, previous.name) == Some(next)
    ensures r.Ok? ==> Elements(r.value) == Elements(diagnostics) + FunctionDiagnostics(base, candidate, previous)
    ensures r.Ok? ==> |r.value| <= |diagnostics| + 3
    ensures r.Err? ==> r.error.LimitExceeded?
    ensures r.Err? ==> |diagnostics| + 3 > MAX_DIAGNOSTICS || !FunctionWithin(base, candidate, previous, next)
  {
    r := PushUnless(previous.metadata == next.metadata, diagnostics, Diagnostic(MetadataChanged, previous.name));
    if r.Err? {
      return;
    }
    var accepted := ContractSubset(Resolved(base, previous.argumentsHash), Resolved(candidate, next.argumentsHash));
    if accepted.Err? {
      return Err(accepted.error);
    }
    r := PushUnless(accepted.value, r.value, Diagnostic(ArgumentsNarrowed, previous.name));
    if r.Err? {
      return;
    }
    var returned := ContractSubset(Resolved(candidate, next.resultHash), Resolved(base, previous.resultHash));
    if returned.Err? {
      return Err(returned.error);
    }
    r := PushUnless(returned.value, r.value, Diagnostic(ResultWidened, previous.name));
  }

  method ComparePublic(base: Package, candidate: Package, byName: map<Text, Function>, previous: Function,
      diagnostics: seq<Diagnostic>)
    returns (r: Result<seq<Diagnostic>, CompatibilityError>)
    requires previous in base.functions && previous.metadata.visibility.Public?
    requires previous.name in byName <==> FunctionNamed(candidate.functions, previous.name).Some?
    requires previous.name in byName ==>
      FunctionNamed(candidate.functions, previous.name) == Some(byName[previous.name])
    ensures r.Ok? ==> Elements(r.value) == Elements(diagnostics) + FunctionDiagnostics(base, candidate, previous)
    ensures r.Ok? ==> |r.value| <= |diagnostics| + 3
    ensures r.Err? ==> r.error.LimitExceeded?
    ensures r.Err? ==> |diagnostics| + 3 > MAX_DIAGNOSTICS || !FunctionsWithin(base, candidate)
  {
    if previous.name in byName {
      r := CompareFunction(base, candidate, previous, byName[previous.name], diagnostics);
    } else {
      r := PushDiagnostic(diagnostics, Diagnostic(FunctionRemoved, previous.name));
    }
  }

  method CompareFunctions(base: Package, candidate: Package) returns (r: Result<seq<Diagnostic>, CompatibilityError>)
    ensures r.Ok? ==> Elements(r.value) == AllFunctionDiagnostics(base, candidate, base.functions)
    ensures r.Ok? ==> |r.value| <= 3 * |base.functions|
    ensures r.Err? ==> r.error.LimitExceeded?
    ensures r.Err? ==> 3 * |base.functions| > MAX_DIAGNOSTICS || !FunctionsWithin(base, candidate)
  {
    var byName := FunctionsByName(candidate.functions);
    r := Ok([]);
    for i := 0 to |base.functions|
      invariant r.Ok? && Elements(r.value) == AllFunctionDiagnostics(base, candidate, base.functions[..i])
        && |r.value| <= 3 * i
    {
      assert base.functions[..i + 1][..i] == base.functions[..i];
      if base.functions[i].metadata.visibility.Public? {
        r := ComparePublic(base, candidate, byName, base.functions[i], r.value);
        if r.Err? {
          return;
        }
      }
    }
    assert base.functions[..|base.functions|] == base.functions;
  }

  method CompareTables(tables: seq<Table>, nextTables: seq<Table>, diagnostics: seq<Diagnostic>)
    returns (r: Result<seq<Diagnostic>, CompatibilityError>)
    ensures r.Ok? ==> Elements(r.value) == Elements(diagnostics) + AllTableDiagnostics(nextTables, tables)
    ensures r.Ok? ==> |r.value| <= |diagnostics| + 2 * |tables|
    ensures r.Err? ==> r.error.LimitExceeded?
    ensures r.Err? ==> |diagnostics| + 2 * |tables| > MAX_DIAGNOSTICS || !TablesWithin(tables, nextTables)
  {
    var byId := TablesById(nextTables);
    r := Ok(diagnostics);
    for i := 0 to |tables|
      invariant r.Ok? && Elements(r.value) == Elements(diagnostics) + AllTableDiagnostics(nextTables, tables[..i])
      invariant |r.value| <= |diagnostics| + 2 * i
    {
      var t := tables[i];
      assert tables[..i + 1][..i] == tables[..i];
      if t.id !in byId {
        r := PushDiagnostic(r.value, Diagnostic(TableRemoved, t.id));
      } else {
        r := PushUnless(t.name == byId[t.id].name, r.value, Diagnostic(TableRenamed, t.id));
        if r.Err? {
          return;
        }
        var widened := ContractSubset(t.document, byId[t.id].document);
        if widened.Err? {
          return Err(widened.error);
        }
        r := PushUnless(widened.value, r.value, Diagnostic(DocumentNarrowed, t.id));
      }
      if r.Err? {
        return;
      }
    }
    assert tables[..|tables|] == tables;
  }

  method CompareSharedTables(tables: seq<Table>, others: seq<Table>)
    returns (r: Result<seq<Diagnostic>, CompatibilityError>)
    ensures r.Ok? ==> Elements(r.value) == AllSharedTableDiagnostics(others, tables) && |r.value| <= |tables|
    ensures r.Err? ==> r.error.LimitExceeded?
    ensures r.Err? ==> |tables| > MAX_DIAGNOSTICS || !TablesWithin(tables, others)
  {
    var byId := TablesById(others);
    r := Ok([]);
    for i := 0 to |tables|
      invariant r.Ok? && Elements(r.value) == AllSharedTableDiagnostics(others, tables[..i]) && |r.value| <= i
    {
      var t := tables[i];
      assert tables[..i + 1][..i] == tables[..i];
      if t.id in byId {
        if t.name != byId[t.id].name {
          r := PushDiagnostic(r.value, Diagnostic(TableIdRenamed, t.id));
        } else {
          var shared := ContractsCanCoexist(t.document, byId[t.id].document);
          if shared.Err? {
            return Err(shared.error);
          }
          r := PushUnless(shared.value, r.value, Diagnostic(ViewsCannotCoexist, t.id));
        }
        if r.Err? {
          return;
        }
      }
    }
    assert tables[..|tables|] == tables;
  }

  predicate ComparablePair(left: Package, right: Package) {
    left.projectId == right.projectId && left.releaseId != right.releaseId
  }

  /** The alphabetical rank of a code's text. */
  function CodeRank(code: Code): int {
    match code
    case CronsDiverged => 1
    case ArgumentsNarrowed => 2
    case ResultWidened => 3
    case IndexChangeRequiresReadiness => 4
    case IndexChangeUnproven => 5
    case MetadataChanged => 6
    case FunctionRemoved => 7
    case SchemaChangeUnproven => 8
    case DocumentNarrowed => 9
    case TableIdRenamed => 10
    case TableRemoved => 11
    case TableRenamed => 12
    case SchemaValidationRemoved => 13
    case ViewsCannotCoexist => 14
    case SchemaViewUnavailable => 15
  }

  /** Diagnostics are ordered by code and then by subject. */
  function DiagnosticRank(d: Diagnostic): Key {
    [CodeRank(d.code)] + d.subject
  }

  lemma RankInjective(d: Diagnostic, e: Diagnostic)
    requires DiagnosticRank(d) == DiagnosticRank(e)
    ensures d == e
  {
    assert DiagnosticRank(d)[0] == CodeRank(d.code) && DiagnosticRank(e)[0] == CodeRank(e.code);
    assert DiagnosticRank(d)[1..] == d.subject && DiagnosticRank(e)[1..] == e.subject;
  }

  predicate Ordered(diagnostics: seq<Diagnostic>) {
    forall i, j :: 0 <= i < j < |diagnostics| ==> Less(DiagnosticRank(diagnostics[i]), DiagnosticRank(diagnostics[j]))
  }

  /** Inserts a diagnostic in its place unless it is there already. */
  function InsertOrdered(d: Diagnostic, ds: seq<Diagnostic>): (r: seq<Diagnostic>)
    requires Ordered(ds)
    ensures Ordered(r) && Elements(r) == Elements(ds) + {d}
  {
    if ds == [] then [d]
    else if d == ds[0] then ds
    else if Less(DiagnosticRank(d), DiagnosticRank(ds[0])) then
      PrependOrdered(d, ds);
      [d] + ds
    else
      var rest := InsertOrdered(d, ds[1..]);
      InsertsBehind(d, ds, rest);
      [ds[0]] + rest
  }

  lemma PrependOrdered(d: Diagnostic, ds: seq<Diagnostic>)
    requires Ordered(ds) && ds != [] && Less(DiagnosticRank(d), DiagnosticRank(ds[0]))
    ensures Ordered([d] + ds)
  {
    forall j | 0 <= j < |ds| ensures Less(DiagnosticRank(d), DiagnosticRank(ds[j])) {
      if j > 0 {
        LessTransitive(DiagnosticRank(d), DiagnosticRank(ds[0]), DiagnosticRank(ds[j]));
      }
    }
  }

  lemma InsertsBehind(d: Diagnostic, ds: seq<Diagnostic>, rest: seq<Diagnostic>)
    requires Ordered(ds) && ds != [] && d != ds[0] && !Less(DiagnosticRank(d), DiagnosticRank(ds[0]))
    requires Ordered(rest) && Elements(rest) == Elements(ds[1..]) + {d}
    ensures Ordered([ds[0]] + rest) && Elements([ds[0]] + rest) == Elements(ds) + {d}
  {
    forall j | 0 <= j < |rest| ensures Less(DiagnosticRank(ds[0]), DiagnosticRank(rest[j])) {
      assert rest[j] in Elements(rest);
      if rest[j] == d {
        LessTotal(DiagnosticRank(d), DiagnosticRank(ds[0]));
        if DiagnosticRank(d) == DiagnosticRank(ds[0]) {
          RankInjective(d, ds[0]);
        }
      } else {
        var i :| 0 <= i < |ds[1..]| && ds[1..][i] == rest[j];
        assert ds[1..][i] == ds[i + 1];
      }
    }
    assert ds == [ds[0]] + ds[1..];
    ElementsOf(ds[0], ds[1..]);
    ElementsOf(ds[0], rest);
  }

  lemma ElementsOf(d: Diagnostic, ds: seq<Diagnostic>)
    ensures Elements([d] + ds) == {d} + Elements(ds)
  {
  }

  /** The diagnostics sorted and without repetitions. */
  function Sorted(diagnostics: seq<Diagnostic>): (r: seq<Diagnostic>)
    ensures Ordered(r) && Elements(r) == Elements(diagnostics)
  {
    if diagnostics == [] then []
    else
      var rest := Sorted(diagnostics[1..]);
      assert diagnostics == [diagnostics[0]] + diagnostics[1..];
      InsertOrdered(diagnostics[0], rest)
  }

  function FinishReport(diagnostics: seq<Diagnostic>): (r: Report)
    ensures Ordered(r.diagnostics) && Elements(r.diagnostics) == Elements(diagnostics)
    ensures r.compatible <==> diagnostics == []
  {
    Report(Sorted(diagnostics) == [], Sorted(diagnostics))
  }

  /** A report is determined by what it reports. */
  lemma ReportIsUnique(a: seq<Diagnostic>, b: seq<Diagnostic>)
    requires Ordered(a) && Ordered(b) && Elements(a) == Elements(b)
    ensures a == b
  {
    var ranksA := seq(|a|, i requires 0 <= i < |a| => DiagnosticRank(a[i]));
    var ranksB := seq(|b|, i requires 0 <= i < |b| => DiagnosticRank(b[i]));
    forall k ensures k in ranksA <==> k in ranksB {
      if k in ranksA {
        SameRanks(a, b, ranksA, ranksB, k);
      }
      if k in ranksB {
        SameRanks(b, a, ranksB, ranksA, k);
      }
    }
    ListingUnique(ranksA, ranksB);
    forall i | 0 <= i < |a| ensures a[i] == b[i] {
      assert ranksA[i] == ranksB[i];
      RankInjective(a[i], b[i]);
    }
  }

  lemma SameRanks(a: seq<Diagnostic>, b: seq<Diagnostic>, ranksA: seq<Key>, ranksB: seq<Key>, k: Key)
    requires |ranksA| == |a| && forall i :: 0 <= i < |a| ==> ranksA[i] == DiagnosticRank(a[i])
    requires |ranksB| == |b| && forall i :: 0 <= i < |b| ==> ranksB[i] == DiagnosticRank(b[i])
    requires Elements(a) == Elements(b) && k in ranksA
    ensures k in ranksB
  {
    var i :| 0 <= i < |a| && ranksA[i] == k;
    assert a[i] in Elements(a);
    var j :| 0 <= j < |b| && b[j] == a[i];
    assert ranksB[j] == k;
  }

  /** May `candidate` replace `base`? */
  method Compare(base: Package, candidate: Package) returns (r: Result<Report, CompatibilityError>)
    ensures r.Ok? ==>
      Ordered(r.value.diagnostics) && Elements(r.value.diagnostics) == ReplaceDiagnostics(base, candidate)
    ensures r.Ok? ==> (r.value.compatible <==> Replaces(base, candidate))
    ensures r == Err(InvalidRelease) <==> !ComparablePair(base, candidate)
    ensures r == Err(CompatibilityError.LimitExceeded) ==> !ReplaceWithin(base, candidate)
  {
    if !ComparablePair(base, candidate) {
      return Err(InvalidRelease);
    }
    var found := CompareFunctions(base, candidate);
    if found.Ok? {
      match (base.schema, candidate.schema) {
        case (Some(tables), Some(nextTables)) =>
          found := CompareTables(tables, nextTables, found.value);
        case (Some(_), None) =>
          found := PushDiagnostic(found.value, Diagnostic(SchemaValidationRemoved, RELEASE));
        case (None, _) =>
          found := PushUnless(base.schemaHash == candidate.schemaHash, found.value,
            Diagnostic(SchemaChangeUnproven, RELEASE));
      }
    }
    if found.Ok? {
      found := PushUnless(base.indexHash == candidate.indexHash, found.value, Diagnostic(IndexChangeUnproven, RELEASE));
    }
    if found.Err? {
      return Err(found.error);
    }
    ReplaceDiagnosticsExact(base, candidate);
    EmptyElements(found.value);
    r := Ok(FinishReport(found.value));
  }

  lemma EmptyElements(diagnostics: seq<Diagnostic>)
    ensures Elements(diagnostics) == {} <==> diagnostics == []
  {
    if diagnostics != [] {
      assert diagnostics[0] in Elements(diagnostics);
    }
  }

  /** May two Releases share one Environment? */
  method CompareCoexistence(left: Package, right: Package) returns (r: Result<Report, CompatibilityError>)
    ensures r.Ok? ==>
      Ordered(r.value.diagnostics) && Elements(r.value.diagnostics) == CoexistDiagnostics(left, right)
    ensures r.Ok? ==> (r.value.compatible <==> Coexist(left, right))
    ensures r == Err(InvalidRelease) <==> !ComparablePair(left, right)
    ensures r == Err(CompatibilityError.LimitExceeded) ==> !CoexistWithin(left, right)
  {
    if !ComparablePair(left, right) {
      return Err(InvalidRelease);
    }
    var found: Result<seq<Diagnostic>, CompatibilityError> := Ok([]);
    match (left.schema, right.schema) {
      case (Some(tables), Some(others)) => found := CompareSharedTables(tables, others);
      case (None, None) =>
      case _ => found := PushDiagnostic([], Diagnostic(SchemaViewUnavailable, RELEASE));
    }
    if found.Ok? {
      found := PushUnless(left.indexHash == right.indexHash, found.value,
        Diagnostic(IndexChangeRequiresReadiness, RELEASE));
    }
    if found.Ok? {
      found := PushUnless(left.crons == right.crons, found.value, Diagnostic(CronsDiverged, RELEASE));
    }
    if found.Err? {
      return Err(found.error);
    }
    CoexistDiagnosticsExact(left, right);
    EmptyElements(found.value);
    r := Ok(FinishReport(found.value));
  }
}
