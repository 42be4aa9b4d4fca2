/** What the category of a failed validation says about the value. */
module Categories {

  import opened Order
  import opened Values
  import opened Contracts
  import opened ContractChecker

  /** A scalar without its bounds accepts whatever has its type; arrays and objects accept any parts. */
  function Loosened(c: Contract): Contract {
    match c
    case Int64(_, _) => Int64(None, None)
    case Float64(_, _) => Float64(None, None)
    case String(_, _) => String(None, None)
    case Bytes(_, _) => Bytes(None, None)
    case TypedId(_) => TypedId(None)
    case DocumentId(_) => TypedId(None)
    case Array(_, lo, hi) => Array(Any, lo, hi)
    case Object(fields, optional) => Object(map k | k in fields :: Any, optional)
    case _ => c
  }

  predicate FirstBadItem(items: Contract, vs: seq<Value>, i: nat) {
    i < |vs| && !Accepts(items, vs[i]) && forall j :: 0 <= j < i ==> Accepts(items, vs[j])
  }

  predicate FirstBadField(c: Contract, entries: map<Text, Value>, names: set<Text>, k: Text)
    requires c.Object? && names <= c.fields.Keys && names <= entries.Keys
  {
    && k in names && !Accepts(c.fields[k], entries[k])
    && forall j :: j in names && Less(j, k) ==> Accepts(c.fields[j], entries[j])
  }

  /**
   The fault found at the first rejected part of the value: a type mismatch when not even the
   contract without its bounds accepts the part, a wrong shape when no values would save its keys.
   */
  ghost predicate Blames(c: Contract, v: Value, e: ValidationError)
    decreases c
  {
    match c
    case Union(variants) => e == UnionMismatch && forall i :: 0 <= i < |variants| ==> !Accepts(variants[i], v)
    case Array(items, lo, hi) =>
      if !v.ArrayValue? then e == TypeMismatch
      else if !Accepts(Loosened(c), v) then e == BoundViolation
      else exists i: nat :: FirstBadItem(items, v.items, i) && Blames(items, v.items[i], e)
    case Object(fields, optional) =>
      if !v.ObjectValue? then e == TypeMismatch
      else if !Accepts(Loosened(c), v) then e == ObjectShape
      else exists k :: k in v.entries && k in fields && FirstBadField(c, v.entries, v.entries.Keys, k)
             && Blames(fields[k], v.entries[k], e)
    case _ =>
      if !Accepts(Loosened(c), v) then e == TypeMismatch else !Accepts(c, v) && e == BoundViolation
  }

  lemma {:induction false} BadItem(items: Contract, vs: seq<Value>) returns (i: nat)
    requires ItemMismatch(items, vs).Some?
    ensures FirstBadItem(items, vs, i) && ItemMismatch(items, vs) == Mismatch(items, vs[i])
  {
    MismatchIffRejected(items, vs[0]);
    if Mismatch(items, vs[0]).Some? {
      i := 0;
    } else {
      var rest := BadItem(items, vs[1..]);
      i := rest + 1;
    }
  }

  lemma {:induction false} BadField(c: Contract, entries: map<Text, Value>, names: set<Text>) returns (k: Text)
    requires c.Object? && names <= c.fields.Keys && names <= entries.Keys && FieldMismatch(c, entries, names).Some?
    ensures FirstBadField(c, entries, names, k) && FieldMismatch(c, entries, names) == Mismatch(c.fields[k], entries[k])
    decreases |names|
  {
    var least: Text := Least(names);
    MismatchIffRejected(c.fields[least], entries[least]);
    if Mismatch(c.fields[least], entries[least]).Some? {
      k := least;
      forall j | j in names && Less(j, k) ensures false {
        LessAsymmetric(j, k);
      }
    } else {
      k := BadField(c, entries, names - {least});
    }
  }

  lemma AnyParts(c: Contract, v: Value)
    ensures c.Array? && v.ArrayValue? ==>
              (Accepts(Loosened(c), v) <==> IntWithin(|v.items|, c.minimumItems, c.maximumItems))
    ensures c.Object? && v.ObjectValue? ==>
              (Accepts(Loosened(c), v) <==> ShapeFits(c.fields, c.optional, v.entries))
  {
  }

  lemma {:induction false} ScalarCategory(c: Contract, v: Value)
    requires !c.Array? && !c.Object? && Mismatch(c, v).Some?
    ensures Blames(c, v, Mismatch(c, v).value)
  {
  }

  /** The category reported is that of the first rejected part, in the order of items and of sorted keys. */
  lemma {:induction false} CategoryMeans(c: Contract, v: Value)
    requires Mismatch(c, v).Some?
    ensures Blames(c, v, Mismatch(c, v).value)
    decreases c
  {
    AnyParts(c, v);
    if c.Array? {
      if v.ArrayValue? && IntWithin(|v.items|, c.minimumItems, c.maximumItems) {
        var i := BadItem(c.items, v.items);
        CategoryMeans(c.items, v.items[i]);
      }
    } else if c.Object? {
      if v.ObjectValue? && ShapeFits(c.fields, c.optional, v.entries) {
        var k := BadField(c, v.entries, v.entries.Keys);
        CategoryMeans(c.fields[k], v.entries[k]);
      }
    } else {
      ScalarCategory(c, v);
    }
  }
}
