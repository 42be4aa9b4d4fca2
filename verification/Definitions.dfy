/** Validity of a contract definition: local shape, recursive depth and total size. */
module Definitions {

  import opened Order
  import opened Values
  import opened Contracts

  const CONTRACT_MAX_DEPTH: nat := 32
  const CONTRACT_MAX_NODES: nat := 10_000
  const OBJECT_MAX_FIELDS: nat := 1_000
  const UNION_MAX_VARIANTS: nat := 16
  const NAME_MAX_BYTES: nat := 128
  const LOGICAL_NAME_MAX_BYTES: nat := 64
  const KIND_MAX_BYTES: nat := 16

  datatype ContractError = InvalidDefinition | LimitExceeded

  predicate IsLower(b: int) {
    97 <= b <= 122
  }

  predicate IsDigit(b: int) {
    48 <= b <= 57
  }

  predicate IsAlphanumeric(b: int) {
    IsLower(b) || 65 <= b <= 90 || IsDigit(b)
  }

  predicate ValidKind(kind: Text) {
    kind != [] && |kind| <= KIND_MAX_BYTES && forall i :: 0 <= i < |kind| ==> IsLower(kind[i]) || IsDigit(kind[i])
  }

  predicate ValidFieldName(name: Text) {
    name != [] && |name| <= NAME_MAX_BYTES && 0 !in name
  }

  predicate ValidLogicalName(name: Text) {
    && name != [] && |name| <= LOGICAL_NAME_MAX_BYTES
    && (forall i :: 0 <= i < |name| ==> IsAlphanumeric(name[i]) || (i > 0 && name[i] == 95))
    && IsLower(name[0])
  }

  predicate Ordered(minimum: Option<int>, maximum: Option<int>) {
    minimum.Some? && maximum.Some? ==> minimum.value <= maximum.value
  }

  /** The conditions on one node, apart from its children. */
  predicate NodeValid(c: Contract) {
    match c
    case Int64(lo, hi) => Ordered(lo, hi)
    case Float64(lo, hi) => lo.Some? && hi.Some? ==> lo.value <= hi.value
    case String(lo, hi) => Ordered(lo, hi)
    case Bytes(lo, hi) => Ordered(lo, hi)
    case TypedId(kind) => kind.Some? ==> ValidKind(kind.value)
    case DocumentId(table) => ValidLogicalName(table)
    case Array(_, lo, hi) => Ordered(lo, hi)
    case Object(fields, optional) =>
      |fields| <= OBJECT_MAX_FIELDS && optional <= fields.Keys && forall k :: k in fields ==> ValidFieldName(k)
    case Union(variants) => 2 <= |variants| <= UNION_MAX_VARIANTS
    case _ => true
  }

  /** Every node is valid and no union repeats a variant. */
  predicate WellShaped(c: Contract) {
    NodeValid(c) &&
    match c
    case Array(items, _, _) => WellShaped(items)
    case Object(fields, _) => forall k :: k in fields ==> WellShaped(fields[k])
    case Union(variants) =>
      && (forall i :: 0 <= i < |variants| ==> WellShaped(variants[i]))
      && (forall i, j :: 0 <= i < j < |variants| ==> variants[i] != variants[j])
    case _ => true
  }

  /** No node lies deeper than `levels` below this one. */
  predicate DepthWithin(c: Contract, levels: int)
    decreases c
  {
    levels >= 0 &&
    match c
    case Array(items, _, _) => DepthWithin(items, levels - 1)
    case Object(fields, _) => forall k :: k in fields ==> DepthWithin(fields[k], levels - 1)
    case Union(variants) => forall i :: 0 <= i < |variants| ==> DepthWithin(variants[i], levels - 1)
    case _ => true
  }

  function Nodes(c: Contract): (n: nat)
    ensures n >= 1
    decreases c, 1, 0
  {
    1 + match c
        case Array(items, _, _) => Nodes(items)
        case Object(fields, _) => FieldNodes(c, fields.Keys)
        case Union(variants) => VariantNodes(variants)
        case _ => 0
  }

  function FieldNodes(c: Contract, names: set<Text>): nat
    requires c.Object? && names <= c.fields.Keys
    decreases c, 0, |names|
  {
    if names == {} then 0
    else
      var k: Text := Least(names);
      Nodes(c.fields[k]) + FieldNodes(c, names - {k})
  }

  function VariantNodes(variants: seq<Contract>): nat
    decreases variants, 0, 0
  {
    if variants == [] then 0 else Nodes(variants[0]) + VariantNodes(variants[1..])
  }

  lemma {:induction false} FieldNodesSplit(c: Contract, names: set<Text>, k: Text)
    requires c.Object? && names <= c.fields.Keys && k in names
    ensures FieldNodes(c, names) == Nodes(c.fields[k]) + FieldNodes(c, names - {k})
    decreases |names|
  {
    var first: Text := Least(names);
    if k != first {
      FieldNodesSplit(c, names - {first}, k);
      assert names - {first} - {k} == names - {k} - {first};
      assert Least(names - {k}) == first by {
        LeastIsUnique(names - {k});
        assert IsLeast(names - {k}, first);
      }
    }
  }

  /** A definition passes exactly when it is well shaped, shallow and small enough. */
  predicate Fits(c: Contract, depth: nat, counted: nat) {
    WellShaped(c) && DepthWithin(c, CONTRACT_MAX_DEPTH - depth) && counted + Nodes(c) <= CONTRACT_MAX_NODES
  }

  /** What a failure says about the definition. */
  predicate Blames(c: Contract, depth: nat, counted: nat, error: ContractError) {
    match error
    case InvalidDefinition => !WellShaped(c)
    case LimitExceeded => !DepthWithin(c, CONTRACT_MAX_DEPTH - depth) || counted + Nodes(c) > CONTRACT_MAX_NODES
  }

  method ValidateDefinitionAt(c: Contract, depth: nat, counted: nat)
    returns (failure: Option<ContractError>, nodes: nat)
    ensures failure.None? <==> Fits(c, depth, counted)
    ensures failure.None? ==> nodes == counted + Nodes(c)
    ensures failure.Some? ==> Blames(c, depth, counted, failure.value)
    decreases c, 1
  {
    nodes := counted + 1;
    if depth > CONTRACT_MAX_DEPTH || nodes > CONTRACT_MAX_NODES {
      return Some(LimitExceeded), nodes;
    }
    if !NodeValid(c) {
      return Some(InvalidDefinition), nodes;
    }
    match c {
      case Array(items, _, _) => failure, nodes := ValidateDefinitionAt(items, depth + 1, nodes);
      case Object(_, _) => failure, nodes := ValidateFieldsAt(c, depth, nodes);
      case Union(_) => failure, nodes := ValidateVariantsAt(c, depth, nodes);
      case _ => failure := None;
    }
  }

  method ValidateFieldsAt(c: Contract, depth: nat, counted: nat) returns (failure: Option<ContractError>, nodes: nat)
    requires c.Object? && NodeValid(c) && 1 <= counted <= CONTRACT_MAX_NODES && depth <= CONTRACT_MAX_DEPTH
    ensures failure.None? <==> Fits(c, depth, counted - 1)
    ensures failure.None? ==> nodes == counted - 1 + Nodes(c)
    ensures failure.Some? ==> Blames(c, depth, counted - 1, failure.value)
    decreases c, 0
  {
    nodes := counted;
    failure := None;
    var todo := c.fields.Keys;
    while todo != {}
      invariant todo <= c.fields.Keys
      invariant nodes + FieldNodes(c, todo) == counted - 1 + Nodes(c)
      invariant nodes <= CONTRACT_MAX_NODES
      invariant forall k :: k in c.fields && k !in todo ==>
        WellShaped(c.fields[k]) && DepthWithin(c.fields[k], CONTRACT_MAX_DEPTH - (depth + 1))
      decreases todo
    {
      var k: Text := Least(todo);
      failure, nodes := ValidateDefinitionAt(c.fields[k], depth + 1, nodes);
      if failure.Some? {
        return;
      }
      todo := todo - {k};
    }
    failure := None;
  }

  method ValidateVariantsAt(c: Contract, depth: nat, counted: nat) returns (failure: Option<ContractError>, nodes: nat)
    requires c.Union? && NodeValid(c) && 1 <= counted <= CONTRACT_MAX_NODES && depth <= CONTRACT_MAX_DEPTH
    ensures failure.None? <==> Fits(c, depth, counted - 1)
    ensures failure.None? ==> nodes == counted - 1 + Nodes(c)
    ensures failure.Some? ==> Blames(c, depth, counted - 1, failure.value)
    decreases c, 0
  {
    nodes := counted;
    var seen: set<Contract> := {};
    for i := 0 to |c.variants|
      invariant nodes + VariantNodes(c.variants[i..]) == counted - 1 + Nodes(c)
      invariant nodes <= CONTRACT_MAX_NODES
      invariant forall j :: 0 <= j < i ==> c.variants[j] in seen
      invariant forall x :: x in seen ==> exists j :: 0 <= j < i && c.variants[j] == x
      invariant forall j :: 0 <= j < i ==>
        WellShaped(c.variants[j]) && DepthWithin(c.variants[j], CONTRACT_MAX_DEPTH - (depth + 1))
      invariant forall j, k :: 0 <= j < k < i ==> c.variants[j] != c.variants[k]
    {
      assert c.variants[i..][1..] == c.variants[i + 1..];
      ghost var before := nodes;
      failure, nodes := ValidateDefinitionAt(c.variants[i], depth + 1, nodes);
      if failure.Some? {
        VariantFails(c, depth, counted, i, before, failure.value);
        return;
      }
      if c.variants[i] in seen {
        return Some(InvalidDefinition), nodes;
      }
      seen := seen + {c.variants[i]};
    }
    failure := None;
    VariantsPass(c, depth);
  }

  lemma VariantFails(c: Contract, depth: nat, counted: nat, i: nat, before: nat, error: ContractError)
    requires c.Union? && counted >= 1 && i < |c.variants|
      && before + VariantNodes(c.variants[i..]) == counted - 1 + Nodes(c)
    requires Blames(c.variants[i], depth + 1, before, error)
    ensures Blames(c, depth, counted - 1, error) && !Fits(c, depth, counted - 1)
  {
    assert c.variants[i..][0] == c.variants[i];
  }

  lemma VariantsPass(c: Contract, depth: nat)
    requires c.Union? && NodeValid(c) && depth <= CONTRACT_MAX_DEPTH
    requires forall j :: 0 <= j < |c.variants| ==>
      WellShaped(c.variants[j]) && DepthWithin(c.variants[j], CONTRACT_MAX_DEPTH - (depth + 1))
    requires forall j, k :: 0 <= j < k < |c.variants| ==> c.variants[j] != c.variants[k]
    ensures WellShaped(c) && DepthWithin(c, CONTRACT_MAX_DEPTH - depth)
  {
  }
}
