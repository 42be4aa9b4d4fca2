/**
 When the inclusion check must say yes: on which contracts it decides the inclusion of accepted
 values exactly, where it is stricter, and which changes of a contract always widen it.
 */
module Inclusion {

  import opened Values
  import opened Contracts
  import opened Relations
  import opened Definitions

  /** Every value accepted by the first contract is accepted by the second. */
  ghost predicate Included(a: Contract, b: Contract) {
    forall v :: Accepts(a, v) ==> Accepts(b, v)
  }

  // ---------------------------------------------------------------- valid contracts accept something

  ghost predicate Inhabited(c: Contract) {
    exists v :: Accepts(c, v)
  }

  ghost function Pick(c: Contract): (v: Value)
    requires Inhabited(c)
    ensures Accepts(c, v)
  {
    var v :| Accepts(c, v); v
  }

  function Low(minimum: Option<int>, maximum: Option<int>): int {
    if minimum.Some? then minimum.value else if maximum.Some? then maximum.value else 0
  }

  function Least(minimum: Option<nat>): nat {
    if minimum.Some? then minimum.value else 0
  }

  /** An array of equal items. */
  function Copies(v: Value, n: nat): Value {
    ArrayValue(seq(n, _ => v))
  }

  lemma {:induction false} ValidIsInhabited(c: Contract)
    requires WellShaped(c)
    ensures Inhabited(c)
    decreases c
  {
    match c
    case Any => assert Accepts(c, NullValue);
    case Null => assert Accepts(c, NullValue);
    case Boolean => assert Accepts(c, BooleanValue(true));
    case Timestamp => assert Accepts(c, TimestampValue(0));
    case Int64(lo, hi) => assert Accepts(c, Int64Value(Low(lo, hi)));
    case Float64(lo, hi) =>
      var x := if lo.Some? then lo.value else if hi.Some? then hi.value else 0.0;
      assert Accepts(c, Float64Value(x));
    case String(lo, hi) => assert Accepts(c, StringValue(seq(Least(lo), _ => 97)));
    case Bytes(lo, hi) => assert Accepts(c, BytesValue(seq(Least(lo), _ => 0)));
    case TypedId(kind) => assert Accepts(c, TypedIdValue(if kind.Some? then kind.value else DOCUMENT_KIND, 0));
    case DocumentId(_) => assert Accepts(c, TypedIdValue(DOCUMENT_KIND, 0));
    case Array(items, lo, hi) =>
      ValidIsInhabited(items);
      assert Accepts(c, Copies(Pick(items), Least(lo)));
    case Object(fields, optional) =>
      forall k | k in fields ensures Inhabited(fields[k]) {
        ValidIsInhabited(fields[k]);
      }
      assert Accepts(c, ObjectValue(map k | k in fields :: Pick(fields[k])));
    case Union(variants) =>
      ValidIsInhabited(variants[0]);
      assert Accepts(c, Pick(variants[0]));
  }

  // ---------------------------------------------------------------- scalars

  /** Neither composed nor free. Document ids are apart: they name a table that no value shows. */
  predicate Scalar(c: Contract) {
    !c.Any? && !c.Union? && !c.Object? && !c.Array? && !c.DocumentId?
  }

  /** A minimum length of zero says nothing, but the check takes it for a restriction. */
  predicate ZeroMinimum(left: Option<nat>, right: Option<nat>) {
    right == Some(0) && left.None?
  }

  predicate Overlooked(a: Contract, b: Contract) {
    || (a.String? && b.String? && ZeroMinimum(a.minimumBytes, b.minimumBytes))
    || (a.Bytes? && b.Bytes? && ZeroMinimum(a.minimumLength, b.minimumLength))
    || (a.Array? && b.Array? && ZeroMinimum(a.minimumItems, b.minimumItems))
  }

  lemma IntegersExact(a: Contract, b: Contract)
    requires a.Int64? && b.Int64? && WellShaped(a)
    ensures Sub(a, b) <==> Included(a, b)
  {
    if Included(a, b) {
      var low := Low(a.minimum, a.maximum);
      var high := if a.maximum.Some? then a.maximum.value else low;
      assert Accepts(a, Int64Value(low)) && Accepts(a, Int64Value(high));
      if a.minimum.None? && b.minimum.Some? {
        var below := if low < b.minimum.value then low else b.minimum.value - 1;
        assert Accepts(a, Int64Value(below));
      }
      if a.maximum.None? && b.maximum.Some? {
        var above := if low > b.maximum.value then low else b.maximum.value + 1;
        assert Accepts(a, Int64Value(above));
      }
    } else if Sub(a, b) {
      var v :| Accepts(a, v) && !Accepts(b, v);
      SubSound(a, b, v);
    }
  }

  lemma FloatsExact(a: Contract, b: Contract)
    requires a.Float64? && b.Float64? && WellShaped(a)
    ensures Sub(a, b) <==> Included(a, b)
  {
    if Included(a, b) {
      var low := if a.lowest.Some? then a.lowest.value else if a.highest.Some? then a.highest.value else 0.0;
      var high := if a.highest.Some? then a.highest.value else low;
      assert Accepts(a, Float64Value(low)) && Accepts(a, Float64Value(high));
      if a.lowest.None? && b.lowest.Some? {
        var below := if low < b.lowest.value then low else b.lowest.value - 1.0;
        assert Accepts(a, Float64Value(below));
      }
      if a.highest.None? && b.highest.Some? {
        var above := if low > b.highest.value then low else b.highest.value + 1.0;
        assert Accepts(a, Float64Value(above));
      }
    } else if Sub(a, b) {
      var v :| Accepts(a, v) && !Accepts(b, v);
      SubSound(a, b, v);
    }
  }

  /** Lengths from `lo` to `hi` all lie from `lo'` to `hi'`. */
  ghost predicate LengthsInside(lo: Option<nat>, hi: Option<nat>, lo': Option<nat>, hi': Option<nat>) {
    forall n: nat :: IntWithin(n, lo, hi) ==> IntWithin(n, lo', hi')
  }

  lemma LengthsExact(lo: Option<nat>, hi: Option<nat>, lo': Option<nat>, hi': Option<nat>)
    requires Ordered(lo, hi)
    ensures LowerInside(lo, lo') && UpperInside(hi, hi') <==> LengthsInside(lo, hi, lo', hi') && !ZeroMinimum(lo, lo')
  {
    var low := Least(lo);
    assert IntWithin(low, lo, hi);
    if LengthsInside(lo, hi, lo', hi') {
      assert IntWithin(low, lo', hi');
      if hi.Some? {
        assert IntWithin(hi.value, lo, hi);
      } else if hi'.Some? {
        assert IntWithin(hi'.value + 1, lo, hi);
      }
    }
  }

  lemma StringsExact(a: Contract, b: Contract)
    requires a.String? && b.String? && WellShaped(a)
    ensures Sub(a, b) <==> Included(a, b) && !Overlooked(a, b)
  {
    LengthsExact(a.minimumBytes, a.maximumBytes, b.minimumBytes, b.maximumBytes);
    if Included(a, b) {
      forall n: nat | IntWithin(n, a.minimumBytes, a.maximumBytes)
        ensures IntWithin(n, b.minimumBytes, b.maximumBytes)
      {
        assert Accepts(a, StringValue(seq(n, _ => 97)));
      }
    }
  }

  lemma BytesExact(a: Contract, b: Contract)
    requires a.Bytes? && b.Bytes? && WellShaped(a)
    ensures Sub(a, b) <==> Included(a, b) && !Overlooked(a, b)
  {
    LengthsExact(a.minimumLength, a.maximumLength, b.minimumLength, b.maximumLength);
    if Included(a, b) {
      forall n: nat | IntWithin(n, a.minimumLength, a.maximumLength)
        ensures IntWithin(n, b.minimumLength, b.maximumLength)
      {
        assert Accepts(a, BytesValue(seq(n, _ => 0)));
      }
    }
  }

  lemma TypedIdsExact(a: Contract, b: Contract)
    requires a.TypedId? && b.TypedId?
    ensures Sub(a, b) <==> Included(a, b)
  {
    if Included(a, b) && b.kind.Some? {
      var kind := if a.kind.Some? then a.kind.value else b.kind.value + [97];
      assert Accepts(a, TypedIdValue(kind, 0));
    } else if Sub(a, b) {
      assert Included(a, b);
    }
  }

  /** On scalars the check decides inclusion, except that it takes a minimum length of zero for a restriction. */
  lemma ScalarsExact(a: Contract, b: Contract)
    requires Scalar(a) && Scalar(b) && WellShaped(a)
    ensures Sub(a, b) <==> Included(a, b) && !Overlooked(a, b)
  {
    if a.Int64? && b.Int64? {
      IntegersExact(a, b);
    } else if a.Float64? && b.Float64? {
      FloatsExact(a, b);
    } else if a.String? && b.String? {
      StringsExact(a, b);
    } else if a.Bytes? && b.Bytes? {
      BytesExact(a, b);
    } else if a.TypedId? && b.TypedId? {
      TypedIdsExact(a, b);
    } else {
      ValidIsInhabited(a);
      assert Accepts(a, Pick(a));
    }
  }

  // ---------------------------------------------------------------- composed contracts

  /** Nothing on the right that the check treats more strictly than values do. */
  predicate Plain(c: Contract) {
    match c
    case DocumentId(_) => false
    case Union(_) => false
    case String(lo, _) => lo != Some(0)
    case Bytes(lo, _) => lo != Some(0)
    case Array(items, lo, _) => lo != Some(0) && Plain(items)
    case Object(fields, _) => forall k :: k in fields ==> Plain(fields[k])
    case _ => true
  }

  /** No document ids, and no array that cannot have an item. */
  predicate Concrete(c: Contract) {
    match c
    case DocumentId(_) => false
    case Union(variants) => forall i :: 0 <= i < |variants| ==> Concrete(variants[i])
    case Array(items, _, hi) => hi != Some(0) && Concrete(items)
    case Object(fields, _) => forall k :: k in fields ==> Concrete(fields[k])
    case _ => true
  }

  /** An object with every field, one of them given. */
  ghost function Filled(c: Contract, k: Text, v: Value): Value
    requires c.Object? && forall j :: j in c.fields ==> Inhabited(c.fields[j])
  {
    ObjectValue(map j | j in c.fields :: if j == k then v else Pick(c.fields[j]))
  }

  /** An object with the required fields only. */
  ghost function Bare(c: Contract): Value
    requires c.Object? && forall j :: j in c.fields ==> Inhabited(c.fields[j])
  {
    ObjectValue(map j | j in c.fields && j !in c.optional :: Pick(c.fields[j]))
  }

  lemma FieldsInhabited(c: Contract)
    requires c.Object? && WellShaped(c)
    ensures forall j :: j in c.fields ==> Inhabited(c.fields[j])
  {
    forall j | j in c.fields ensures Inhabited(c.fields[j]) {
      ValidIsInhabited(c.fields[j]);
    }
  }

  lemma FieldIncluded(a: Contract, b: Contract, k: Text)
    requires a.Object? && b.Object? && WellShaped(a) && Included(a, b) && k in a.fields
    ensures k in b.fields && Included(a.fields[k], b.fields[k])
  {
    FieldsInhabited(a);
    assert Accepts(a, Filled(a, k, Pick(a.fields[k])));
    forall v | Accepts(a.fields[k], v) ensures Accepts(b.fields[k], v) {
      assert Accepts(a, Filled(a, k, v));
      assert Filled(a, k, v).entries[k] == v;
    }
  }

  lemma ShapeIncluded(a: Contract, b: Contract)
    requires a.Object? && b.Object? && WellShaped(a) && Included(a, b)
    ensures ShapeInside(a, b)
  {
    FieldsInhabited(a);
    assert Accepts(a, Bare(a));
    forall k | k in a.fields ensures k in b.fields {
      FieldIncluded(a, b, k);
    }
  }

  lemma ItemsIncluded(a: Contract, b: Contract)
    requires a.Array? && b.Array? && WellShaped(a) && a.maximumItems != Some(0) && Included(a, b)
    ensures Included(a.items, b.items)
    ensures LengthsInside(a.minimumItems, a.maximumItems, b.minimumItems, b.maximumItems)
  {
    ValidIsInhabited(a.items);
    forall n: nat | IntWithin(n, a.minimumItems, a.maximumItems)
      ensures IntWithin(n, b.minimumItems, b.maximumItems)
    {
      assert Accepts(a, Copies(Pick(a.items), n));
    }
    var n := if Least(a.minimumItems) > 0 then Least(a.minimumItems) else 1;
    forall v | Accepts(a.items, v) ensures Accepts(b.items, v) {
      assert Accepts(a, Copies(v, n));
      assert Copies(v, n).items[0] == v;
    }
  }

  /** A contract that accepts a value of every kind is included in nothing but `Any`. */
  lemma AnyIncluded(b: Contract)
    requires Included(Any, b) && !b.Union?
    ensures b.Any?
  {
    assert Accepts(Any, NullValue) && Accepts(Any, BooleanValue(true));
  }

  /** Where values show all that contracts say, inclusion of values is answered yes. */
  lemma {:induction false} IncludedIsSub(a: Contract, b: Contract)
    requires WellShaped(a) && Concrete(a) && Plain(b) && Included(a, b)
    ensures Sub(a, b)
    decreases a, b
  {
    if b.Any? {
    } else if a.Any? {
      AnyIncluded(b);
    } else if a.Union? {
      forall i | 0 <= i < |a.variants| ensures Sub(a.variants[i], b) {
        assert Included(a.variants[i], b);
        IncludedIsSub(a.variants[i], b);
      }
    } else if a.Object? {
      ValidIsInhabited(a);
      assert Accepts(b, Pick(a));
      ShapeIncluded(a, b);
      forall k | k in a.fields ensures Sub(a.fields[k], b.fields[k]) {
        FieldIncluded(a, b, k);
        IncludedIsSub(a.fields[k], b.fields[k]);
      }
    } else if a.Array? {
      ValidIsInhabited(a);
      assert Accepts(b, Pick(a));
      ItemsIncluded(a, b);
      LengthsExact(a.minimumItems, a.maximumItems, b.minimumItems, b.maximumItems);
      IncludedIsSub(a.items, b.items);
    } else {
      ValidIsInhabited(a);
      assert Accepts(b, Pick(a));
      ScalarsExact(a, b);
    }
  }

  /** So there the check decides exactly whether every value accepted by one is accepted by the other. */
  lemma SubIsExact(a: Contract, b: Contract)
    requires WellShaped(a) && Concrete(a) && Plain(b)
    ensures Sub(a, b) <==> Included(a, b)
  {
    if Sub(a, b) {
      forall v | Accepts(a, v) ensures Accepts(b, v) {
        SubSound(a, b, v);
      }
    } else if Included(a, b) {
      IncludedIsSub(a, b);
    }
  }

  /** The bounds of an array of the same items, with the same exception. */
  lemma ArraysExact(a: Contract, b: Contract)
    requires a.Array? && b.Array? && a.items == b.items && WellShaped(a) && a.maximumItems != Some(0)
    ensures Sub(a, b) <==> Included(a, b) && !Overlooked(a, b)
  {
    SubReflexive(a.items);
    LengthsExact(a.minimumItems, a.maximumItems, b.minimumItems, b.maximumItems);
    if Included(a, b) {
      ItemsIncluded(a, b);
    } else if Sub(a, b) {
      var v :| Accepts(a, v) && !Accepts(b, v);
      SubSound(a, b, v);
    }
  }

  /** Document ids are compared by their table, although they accept the ids of kind "doc" whatever the table. */
  lemma DocumentIdsByTable(t: Text, u: Text)
    ensures Sub(DocumentId(t), DocumentId(u)) <==> t == u
    ensures forall v :: Accepts(DocumentId(t), v) <==> Accepts(TypedId(Some([100, 111, 99])), v)
  {
  }

  // ---------------------------------------------------------------- changes that widen

  /** Widening the contract of a field. */
  lemma WidenField(c: Contract, k: Text, wider: Contract)
    requires c.Object? && k in c.fields && Sub(c.fields[k], wider)
    ensures Sub(c, c.(fields := c.fields[k := wider]))
  {
    forall j | j in c.fields ensures Sub(c.fields[j], c.fields[k := wider][j]) {
      SubReflexive(c.fields[j]);
    }
  }

  /** Adding an optional field. */
  lemma AddOptionalField(c: Contract, k: Text, field: Contract)
    requires c.Object? && k !in c.fields
    ensures Sub(c, Object(c.fields[k := field], c.optional + {k}))
  {
    forall j | j in c.fields ensures Sub(c.fields[j], c.fields[k := field][j]) {
      SubReflexive(c.fields[j]);
    }
  }

  /** Making a field optional. */
  lemma RelaxField(c: Contract, k: Text)
    requires c.Object?
    ensures Sub(c, c.(optional := c.optional + {k}))
  {
    forall j | j in c.fields ensures Sub(c.fields[j], c.fields[j]) {
      SubReflexive(c.fields[j]);
    }
  }

  /** Widening the items of an array. */
  lemma WidenItems(c: Contract, wider: Contract)
    requires c.Array? && Sub(c.items, wider)
    ensures Sub(c, c.(items := wider))
  {
  }

  /** Adding a variant anywhere in a union. */
  lemma AddVariant(variants: seq<Contract>, i: nat, variant: Contract)
    requires i <= |variants|
    ensures Sub(Union(variants), Union(variants[..i] + [variant] + variants[i..]))
  {
    var more := variants[..i] + [variant] + variants[i..];
    forall j | 0 <= j < |variants| ensures Sub(variants[j], Union(more)) {
      SubReflexive(variants[j]);
      var at := if j < i then j else j + 1;
      assert more[at] == variants[j];
      SubVariant(variants[j], more, at);
    }
  }

  /** Widening a variant. */
  lemma WidenVariant(variants: seq<Contract>, i: nat, wider: Contract)
    requires i < |variants| && Sub(variants[i], wider)
    ensures Sub(Union(variants), Union(variants[i := wider]))
  {
    var more := variants[i := wider];
    forall j | 0 <= j < |variants| ensures Sub(variants[j], Union(more)) {
      SubReflexive(variants[j]);
      assert Sub(variants[j], more[j]);
      SubVariant(variants[j], more, j);
    }
  }
}
