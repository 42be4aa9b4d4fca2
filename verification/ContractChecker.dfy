/**
 The contract operations as they run: recursion with a shared step counter and a hard budget.
 Each is proved against the budget-free functions of `Contracts`.
 */
module ContractChecker {

  import opened Order
  import opened Values
  import opened Contracts

  const VALIDATION_MAX_STEPS: nat := 200_000

  datatype ValidationError = TypeMismatch | BoundViolation | ObjectShape | UnionMismatch

  // ---------------------------------------------------------------- the reported category

  /** The category of the first mismatch, in the order of traversal; `None` when there is none. */
  function Mismatch(c: Contract, v: Value): Option<ValidationError>
    decreases c, 1, 0
  {
    match c
    case Any => None
    case Null => if v.NullValue? then None else Some(TypeMismatch)
    case Boolean => if v.BooleanValue? then None else Some(TypeMismatch)
    case Timestamp => if v.TimestampValue? then None else Some(TypeMismatch)
    case Int64(lo, hi) => if v.Int64Value? then Bounded(IntWithin(v.i, lo, hi)) else Some(TypeMismatch)
    case Float64(lo, hi) => if v.Float64Value? then Bounded(RealWithin(v.r, lo, hi)) else Some(TypeMismatch)
    case String(lo, hi) => if v.StringValue? then Bounded(IntWithin(|v.utf8|, lo, hi)) else Some(TypeMismatch)
    case Bytes(lo, hi) => if v.BytesValue? then Bounded(IntWithin(|v.bytes|, lo, hi)) else Some(TypeMismatch)
    case TypedId(kind) => if v.TypedIdValue? then Bounded(kind.None? || kind.value == v.kind) else Some(TypeMismatch)
    case DocumentId(_) => if v.TypedIdValue? then Bounded(v.kind == DOCUMENT_KIND) else Some(TypeMismatch)
    case Array(items, lo, hi) =>
      if !v.ArrayValue? then Some(TypeMismatch)
      else if !IntWithin(|v.items|, lo, hi) then Some(BoundViolation)
      else ItemMismatch(items, v.items)
    case Object(fields, optional) =>
      if !v.ObjectValue? then Some(TypeMismatch)
      else if !ShapeFits(fields, optional, v.entries) then Some(ObjectShape)
      else FieldMismatch(c, v.entries, v.entries.Keys)
    case Union(variants) => if Accepts(c, v) then None else Some(UnionMismatch)
  }

  function Bounded(within: bool): Option<ValidationError> {
    if within then None else Some(BoundViolation)
  }

  function ItemMismatch(items: Contract, vs: seq<Value>): Option<ValidationError>
    decreases items, 2, |vs|
  {
    if vs == [] then None
    else
      var first := Mismatch(items, vs[0]);
      if first.Some? then first else ItemMismatch(items, vs[1..])
  }

  function FieldMismatch(c: Contract, entries: map<Text, Value>, names: set<Text>): Option<ValidationError>
    requires c.Object? && names <= c.fields.Keys && names <= entries.Keys
    decreases c, 0, |names|
  {
    if names == {} then None
    else
      var k: Text := Least(names);
      var first := Mismatch(c.fields[k], entries[k]);
      if first.Some? then first else FieldMismatch(c, entries, names - {k})
  }

  /** A value is accepted exactly when no category is reported. */
  lemma {:induction false} MismatchIffRejected(c: Contract, v: Value)
    ensures Mismatch(c, v).None? <==> Accepts(c, v)
    decreases c, 1, 0
  {
    match c
    case Array(items, lo, hi) =>
      if v.ArrayValue? {
        ItemMismatchIffRejected(items, v.items);
      }
    case Object(fields, optional) =>
      if v.ObjectValue? && ShapeFits(fields, optional, v.entries) {
        FieldMismatchIffRejected(c, v.entries, v.entries.Keys);
      }
    case _ =>
  }

  lemma {:induction false} ItemMismatchIffRejected(items: Contract, vs: seq<Value>)
    ensures ItemMismatch(items, vs).None? <==> forall i :: 0 <= i < |vs| ==> Accepts(items, vs[i])
    decreases items, 2, |vs|
  {
    if vs != [] {
      MismatchIffRejected(items, vs[0]);
      ItemMismatchIffRejected(items, vs[1..]);
    }
  }

  lemma {:induction false} FieldMismatchIffRejected(c: Contract, entries: map<Text, Value>, names: set<Text>)
    requires c.Object? && names <= c.fields.Keys && names <= entries.Keys
    ensures FieldMismatch(c, entries, names).None? <==> forall k :: k in names ==> Accepts(c.fields[k], entries[k])
    decreases c, 0, |names|
  {
    if names != {} {
      var k: Text := Least(names);
      MismatchIffRejected(c.fields[k], entries[k]);
      FieldMismatchIffRejected(c, entries, names - {k});
    }
  }

  // ---------------------------------------------------------------- the steps of a validation

  /**
   Steps that validating `v` takes: it stops at the first failing item or field and at the first
   accepting variant.
   */
  function Steps(c: Contract, v: Value): (n: nat)
    ensures n >= 1
    decreases c, 1, 0
  {
    1 + match c
        case Array(items, lo, hi) =>
          if v.ArrayValue? && IntWithin(|v.items|, lo, hi) then ItemSteps(items, v.items) else 0
        case Object(fields, optional) =>
          if v.ObjectValue? && ShapeFits(fields, optional, v.entries)
          then FieldSteps(c, v.entries, v.entries.Keys)
          else 0
        case Union(variants) => VariantSteps(variants, v)
        case _ => 0
  }

  function ItemSteps(items: Contract, vs: seq<Value>): nat
    decreases items, 2, |vs|
  {
    if vs == [] then 0
    else Steps(items, vs[0]) + if Accepts(items, vs[0]) then ItemSteps(items, vs[1..]) else 0
  }

  function FieldSteps(c: Contract, entries: map<Text, Value>, names: set<Text>): nat
    requires c.Object? && names <= c.fields.Keys && names <= entries.Keys
    decreases c, 0, |names|
  {
    if names == {} then 0
    else
      var k: Text := Least(names);
      Steps(c.fields[k], entries[k]) +
      if Accepts(c.fields[k], entries[k]) then FieldSteps(c, entries, names - {k}) else 0
  }

  function VariantSteps(variants: seq<Contract>, v: Value): nat
    decreases variants, 0, 0
  {
    if variants == [] then 0
    else Steps(variants[0], v) + if Accepts(variants[0], v) then 0 else VariantSteps(variants[1..], v)
  }

  // ---------------------------------------------------------------- validate_value_at

  /** From `spent` steps on, a part needing `needed` more was validated with the outcome `expected`, or ran out. */
  predicate Metered(spent: nat, needed: nat, expected: Option<ValidationError>,
                    failure: Option<ValidationError>, steps: nat)
  {
    if spent + needed <= VALIDATION_MAX_STEPS then steps == spent + needed && failure == expected
    else steps > VALIDATION_MAX_STEPS && failure.Some?
  }

  /**
   The steps are counted exactly. Beyond the budget every call fails; within it the outcome and its
   category are those of `Mismatch`, although a union discards the failures of its variants.
   */
  method ValidateAt(c: Contract, v: Value, spent: nat) returns (failure: Option<ValidationError>, steps: nat)
    ensures Metered(spent, Steps(c, v), Mismatch(c, v), failure, steps)
    decreases c, 1
  {
    steps := spent + 1;
    if steps > VALIDATION_MAX_STEPS {
      return Some(BoundViolation), steps;
    }
    match c {
      case Array(items, lo, hi) =>
        if !v.ArrayValue? {
          return Some(TypeMismatch), steps;
        }
        if !IntWithin(|v.items|, lo, hi) {
          return Some(BoundViolation), steps;
        }
        failure, steps := ValidateItemsAt(items, v.items, steps);
      case Object(fields, optional) =>
        if !v.ObjectValue? {
          return Some(TypeMismatch), steps;
        }
        if !ShapeFits(fields, optional, v.entries) {
          return Some(ObjectShape), steps;
        }
        failure, steps := ValidateFieldsAt(c, v.entries, steps);
      case Union(variants) =>
        failure, steps := ValidateVariantsAt(variants, v, steps);
      case _ =>
        failure := Mismatch(c, v);
    }
  }

  method ValidateItemsAt(items: Contract, vs: seq<Value>, spent: nat)
    returns (failure: Option<ValidationError>, steps: nat)
    requires spent <= VALIDATION_MAX_STEPS
    ensures Metered(spent, ItemSteps(items, vs), ItemMismatch(items, vs), failure, steps)
    decreases items, 2
  {
    steps := spent;
    for i := 0 to |vs|
      invariant steps <= VALIDATION_MAX_STEPS
      invariant steps + ItemSteps(items, vs[i..]) == spent + ItemSteps(items, vs)
      invariant ItemMismatch(items, vs[i..]) == ItemMismatch(items, vs)
    {
      assert vs[i..][1..] == vs[i + 1..];
      MismatchIffRejected(items, vs[i]);
      failure, steps := ValidateAt(items, vs[i], steps);
      if failure.Some? {
        return;
      }
    }
    failure := None;
  }

  method ValidateVariantsAt(variants: seq<Contract>, v: Value, spent: nat)
    returns (failure: Option<ValidationError>, steps: nat)
    requires spent <= VALIDATION_MAX_STEPS
    ensures Metered(spent, VariantSteps(variants, v), Mismatch(Union(variants), v), failure, steps)
    decreases variants
  {
    steps := spent;
    for i := 0 to |variants|
      invariant steps <= VALIDATION_MAX_STEPS ==>
                  && steps + VariantSteps(variants[i..], v) == spent + VariantSteps(variants, v)
                  && forall j :: 0 <= j < i ==> !Accepts(variants[j], v)
      invariant steps > VALIDATION_MAX_STEPS ==> spent + VariantSteps(variants, v) > VALIDATION_MAX_STEPS
    {
      assert variants[i..][1..] == variants[i + 1..];
      MismatchIffRejected(variants[i], v);
      failure, steps := ValidateAt(variants[i], v, steps);
      if failure.None? {
        return;
      }
    }
    failure := Some(UnionMismatch);
  }

  method ValidateFieldsAt(c: Contract, entries: map<Text, Value>, spent: nat)
    returns (failure: Option<ValidationError>, steps: nat)
    requires c.Object? && entries.Keys <= c.fields.Keys && spent <= VALIDATION_MAX_STEPS
    ensures Metered(spent, FieldSteps(c, entries, entries.Keys), FieldMismatch(c, entries, entries.Keys),
                    failure, steps)
    decreases c, 0
  {
    steps := spent;
    var todo := entries.Keys;
    while todo != {}
      invariant steps <= VALIDATION_MAX_STEPS
      invariant todo <= entries.Keys
      invariant steps + FieldSteps(c, entries, todo) == spent + FieldSteps(c, entries, entries.Keys)
      invariant FieldMismatch(c, entries, todo) == FieldMismatch(c, entries, entries.Keys)
      decreases todo
    {
      var k: Text := Least(todo);
      MismatchIffRejected(c.fields[k], entries[k]);
      failure, steps := ValidateAt(c.fields[k], entries[k], steps);
      if failure.Some? {
        return;
      }
      todo := todo - {k};
    }
    failure := None;
  }

  /** Succeeds exactly on the accepted values that need no more steps than the budget has. */
  method ValidateValue(c: Contract, v: Value) returns (failure: Option<ValidationError>)
    ensures failure.None? <==> Accepts(c, v) && Steps(c, v) <= VALIDATION_MAX_STEPS
    ensures Steps(c, v) <= VALIDATION_MAX_STEPS ==> failure == Mismatch(c, v)
  {
    var steps;
    failure, steps := ValidateAt(c, v, 0);
    MismatchIffRejected(c, v);
  }

  // ---------------------------------------------------------------- preserve_unknown_fields_at

  /**
   A merge that follows a validation of `next` needs no more steps than that validation did, and
   chooses every variant as `Merge` does.
   */
  method MergeAt(c: Contract, stored: Value, next: Value, spent: nat)
    returns (r: Result<Value, ValidationError>, steps: nat)
    requires Accepts(c, next)
    ensures r.Ok? ==> spent < steps <= VALIDATION_MAX_STEPS
    ensures spent + Steps(c, next) <= VALIDATION_MAX_STEPS ==>
              steps <= spent + Steps(c, next) && r == Ok(Merge(c, Some(stored), next))
    decreases c, 1
  {
    steps := spent + 1;
    if steps > VALIDATION_MAX_STEPS {
      return Err(BoundViolation), steps;
    }
    if c.Object? && stored.ObjectValue? {
      r, steps := MergeObjectAt(c, stored, next, steps);
    } else if c.Array? && stored.ArrayValue? {
      r, steps := MergeArrayAt(c, stored, next, steps);
    } else if c.Union? {
      r, steps := MergeUnionAt(c, stored, next, steps);
    } else {
      r := Ok(next);
    }
  }

  /** Validating each variant on a budget of its own finds the variant that the whole validation found. */
  method MergeUnionAt(c: Contract, stored: Value, next: Value, spent: nat)
    returns (r: Result<Value, ValidationError>, steps: nat)
    requires c.Union? && Accepts(c, next) && spent <= VALIDATION_MAX_STEPS
    ensures r.Ok? ==> spent <= steps <= VALIDATION_MAX_STEPS
    ensures spent + VariantSteps(c.variants, next) <= VALIDATION_MAX_STEPS ==>
              steps <= spent + VariantSteps(c.variants, next) && r == Ok(Merge(c, Some(stored), next))
    decreases c, 0
  {
    ghost var first := FirstAccepting(c.variants, next);
    VariantWithin(c.variants, next, first);
    steps := spent;
    for i := 0 to |c.variants|
      invariant VariantSteps(c.variants, next) <= VALIDATION_MAX_STEPS ==> i <= first
    {
      var failure := ValidateValue(c.variants[i], next);
      if failure.None? {
        r, steps := MergeAt(c.variants[i], stored, next, spent);
        return;
      }
    }
    r := Err(UnionMismatch);
  }

  lemma {:induction false} VariantWithin(variants: seq<Contract>, v: Value, i: nat)
    requires i < |variants| && forall j :: 0 <= j < i ==> !Accepts(variants[j], v)
    ensures Steps(variants[i], v) <= VariantSteps(variants, v)
  {
    if i > 0 {
      VariantWithin(variants[1..], v, i - 1);
    }
  }

  method MergeObjectAt(c: Contract, stored: Value, next: Value, spent: nat)
    returns (r: Result<Value, ValidationError>, steps: nat)
    requires c.Object? && stored.ObjectValue? && Accepts(c, next) && spent <= VALIDATION_MAX_STEPS
    ensures r.Ok? ==> spent <= steps <= VALIDATION_MAX_STEPS
    ensures spent + FieldSteps(c, next.entries, next.entries.Keys) <= VALIDATION_MAX_STEPS ==>
              && steps <= spent + FieldSteps(c, next.entries, next.entries.Keys)
              && r == Ok(Merge(c, Some(stored), next))
    decreases c, 0
  {
    steps := spent;
    var merged := next.entries;
    var todo := stored.entries.Keys;
    ghost var open := next.entries.Keys;
    ghost var total := FieldSteps(c, next.entries, open);
    ghost var covered := spent + total <= VALIDATION_MAX_STEPS;
    while todo != {}
      invariant spent <= steps <= VALIDATION_MAX_STEPS
      invariant todo <= stored.entries.Keys
      invariant open <= next.entries.Keys && todo * next.entries.Keys <= open
      invariant covered ==> steps + FieldSteps(c, next.entries, open) <= spent + total
      invariant Merged(c, stored, next, merged, todo, covered)
      decreases todo
    {
      var k: Text := Least(todo);
      if k !in c.fields {
        MergedField(c, stored, next, merged, todo, covered, k, stored.entries[k]);
        merged := merged[k := stored.entries[k]];
      } else if k in next.entries {
        FieldStepsSplit(c, next.entries, open, k);
        open := open - {k};
        var child;
        child, steps := MergeAt(c.fields[k], stored.entries[k], next.entries[k], steps);
        if child.Err? {
          return child, steps;
        }
        MergedField(c, stored, next, merged, todo, covered, k, child.value);
        merged := merged[k := child.value];
      }
      todo := todo - {k};
    }
    r := Ok(ObjectValue(merged));
    if covered {
      AllMerged(c, stored, next, merged);
    }
  }

  /** The steps of fields that all pass may be counted in any order. */
  lemma {:induction false} FieldStepsSplit(c: Contract, entries: map<Text, Value>, names: set<Text>, k: Text)
    requires c.Object? && names <= c.fields.Keys && names <= entries.Keys && k in names
    requires forall x :: x in names ==> Accepts(c.fields[x], entries[x])
    ensures FieldSteps(c, entries, names) == Steps(c.fields[k], entries[k]) + FieldSteps(c, entries, names - {k})
    decreases |names|
  {
    var first: Text := Least(names);
    if k != first {
      FieldStepsSplit(c, entries, names - {first}, k);
      assert names - {first} - {k} == names - {k} - {first};
      assert Least(names - {k}) == first by {
        LeastIsUnique(names - {k});
        assert IsLeast(names - {k}, first);
      }
    }
  }

  /** The merge collected so far, with the stored keys in `todo` still to come. */
  ghost predicate Merged(c: Contract, stored: Value, next: Value, merged: map<Text, Value>, todo: set<Text>,
      covered: bool)
    requires c.Object? && stored.ObjectValue? && Accepts(c, next)
  {
    && merged.Keys == (stored.entries.Keys - todo - c.fields.Keys) + next.entries.Keys
    && (forall k :: k in merged && k !in next.entries ==> merged[k] == stored.entries[k])
    && (forall k :: k in next.entries && (k !in stored.entries || k in todo) ==> merged[k] == next.entries[k])
    && (covered ==> forall k :: k in next.entries && k in stored.entries && k !in todo ==>
          merged[k] == Merge(c.fields[k], Some(stored.entries[k]), next.entries[k]))
  }

  lemma AllMerged(c: Contract, stored: Value, next: Value, merged: map<Text, Value>)
    requires c.Object? && stored.ObjectValue? && Accepts(c, next) && Merged(c, stored, next, merged, {}, true)
    ensures Merge(c, Some(stored), next) == ObjectValue(merged)
  {
    var expected := Merge(c, Some(stored), next).entries;
    assert merged.Keys == expected.Keys;
    forall k | k in merged ensures merged[k] == expected[k] {
      if k in next.entries {
        assert expected[k] == Merge(c.fields[k], Field(Some(stored), k), next.entries[k]);
        assert k !in stored.entries ==> Field(Some(stored), k) == None;
      }
    }
  }

  lemma MergedField(c: Contract, stored: Value, next: Value, merged: map<Text, Value>, todo: set<Text>, covered: bool,
      k: Text, value: Value)
    requires c.Object? && stored.ObjectValue? && Accepts(c, next) && Merged(c, stored, next, merged, todo, covered)
    requires k in todo && k in stored.entries && (k in c.fields ==> k in next.entries)
    requires k !in c.fields ==> value == stored.entries[k]
    requires covered && k in c.fields ==> value == Merge(c.fields[k], Some(stored.entries[k]), next.entries[k])
    ensures Merged(c, stored, next, merged[k := value], todo - {k}, covered)
  {
  }

  method MergeArrayAt(c: Contract, stored: Value, next: Value, spent: nat)
    returns (r: Result<Value, ValidationError>, steps: nat)
    requires c.Array? && stored.ArrayValue? && Accepts(c, next) && spent <= VALIDATION_MAX_STEPS
    ensures r.Ok? ==> spent <= steps <= VALIDATION_MAX_STEPS
    ensures spent + ItemSteps(c.items, next.items) <= VALIDATION_MAX_STEPS ==>
              steps <= spent + ItemSteps(c.items, next.items) && r == Ok(Merge(c, Some(stored), next))
    decreases c, 0
  {
    steps := spent;
    ghost var total := ItemSteps(c.items, next.items);
    ghost var covered := spent + total <= VALIDATION_MAX_STEPS;
    var merged: seq<Value> := [];
    for i := 0 to |next.items|
      invariant spent <= steps <= VALIDATION_MAX_STEPS
      invariant covered ==> steps + ItemSteps(c.items, next.items[i..]) <= spent + total
      invariant |merged| == i
      invariant covered ==> forall j :: 0 <= j < i ==> merged[j] == Merge(c.items, Item(Some(stored), j), next.items[j])
    {
      assert next.items[i..][1..] == next.items[i + 1..];
      if i < |stored.items| {
        var child;
        child, steps := MergeAt(c.items, stored.items[i], next.items[i], steps);
        if child.Err? {
          return child, steps;
        }
        merged := merged + [child.value];
      } else {
        assert Item(Some(stored), i) == None;
        merged := merged + [next.items[i]];
      }
    }
    r := Ok(ArrayValue(merged));
    if covered {
      ArrayMerge(c, stored, next, merged);
    }
  }

  lemma ArrayMerge(c: Contract, stored: Value, next: Value, merged: seq<Value>)
    requires c.Array? && stored.ArrayValue? && Accepts(c, next) && |merged| == |next.items|
    requires forall j :: 0 <= j < |merged| ==> merged[j] == Merge(c.items, Item(Some(stored), j), next.items[j])
    ensures Merge(c, Some(stored), next) == ArrayValue(merged)
  {
    assert Merge(c, Some(stored), next).items == merged;
  }

  /**
   A replacement is merged exactly when it passes validation, and the result is always `Merge`: no
   step of the merge can run out after a validation that did not.
   */
  method PreserveUnknownFields(c: Contract, stored: Value, replacement: Value)
    returns (r: Result<Value, ValidationError>)
    ensures r.Ok? <==> Accepts(c, replacement) && Steps(c, replacement) <= VALIDATION_MAX_STEPS
    ensures r.Ok? ==> r.value == Merge(c, Some(stored), replacement)
  {
    var failure := ValidateValue(c, replacement);
    if failure.Some? {
      return Err(failure.value);
    }
    var steps;
    r, steps := MergeAt(c, stored, replacement, 0);
  }
}
