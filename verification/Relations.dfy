/** The inclusion of contracts on which Release replacement and coexistence rest, without work budgets. */
module Relations {

  import opened Values
  import opened Contracts

  predicate LowerInside(subset: Option<int>, superset: Option<int>) {
    superset.None? || (subset.Some? && subset.value >= superset.value)
  }

  predicate UpperInside(subset: Option<int>, superset: Option<int>) {
    superset.None? || (subset.Some? && subset.value <= superset.value)
  }

  predicate RealLowerInside(subset: Option<real>, superset: Option<real>) {
    superset.None? || (subset.Some? && subset.value >= superset.value)
  }

  predicate RealUpperInside(subset: Option<real>, superset: Option<real>) {
    superset.None? || (subset.Some? && subset.value <= superset.value)
  }

  /** The key conditions of an object inclusion, apart from the field contracts themselves. */
  predicate ShapeInside(left: Contract, right: Contract)
    requires left.Object? && right.Object?
  {
    && left.fields.Keys <= right.fields.Keys
    && forall k :: k in right.fields && k !in right.optional ==> k in left.fields && k !in left.optional
  }

  /** The conservative inclusion check: a union on the right is never covered by several variants. */
  predicate Sub(a: Contract, b: Contract)
    decreases a, b
  {
    if b.Any? then true
    else if a.Union? then forall i :: 0 <= i < |a.variants| ==> Sub(a.variants[i], b)
    else if b.Union? then exists i :: 0 <= i < |b.variants| && Sub(a, b.variants[i])
    else
      match a
      case Null => b.Null?
      case Boolean => b.Boolean?
      case Timestamp => b.Timestamp?
      case Int64(lo, hi) => b.Int64? && LowerInside(lo, b.minimum) && UpperInside(hi, b.maximum)
      case Float64(lo, hi) => b.Float64? && RealLowerInside(lo, b.lowest) && RealUpperInside(hi, b.highest)
      case String(lo, hi) => b.String? && LowerInside(lo, b.minimumBytes) && UpperInside(hi, b.maximumBytes)
      case Bytes(lo, hi) => b.Bytes? && LowerInside(lo, b.minimumLength) && UpperInside(hi, b.maximumLength)
      case TypedId(kind) => b.TypedId? && (b.kind.None? || kind == b.kind)
      case DocumentId(table) => b.DocumentId? && table == b.table
      case Array(items, lo, hi) =>
        b.Array? && LowerInside(lo, b.minimumItems) && UpperInside(hi, b.maximumItems) && Sub(items, b.items)
      case Object(fields, _) =>
        b.Object? && ShapeInside(a, b) && forall k :: k in fields ==> Sub(fields[k], b.fields[k])
      case _ => false
  }

  /** Each contract is included in the other. */
  predicate Equivalent(a: Contract, b: Contract) {
    Sub(a, b) && Sub(b, a)
  }

  // ---------------------------------------------------------------- inclusion is sound

  lemma {:induction false} SubSound(a: Contract, b: Contract, v: Value)
    requires Sub(a, b) && Accepts(a, v)
    ensures Accepts(b, v)
    decreases a, b
  {
    if b.Any? {
    } else if a.Union? {
      SubSound(a.variants[FirstAccepting(a.variants, v)], b, v);
    } else if b.Union? {
      var i :| 0 <= i < |b.variants| && Sub(a, b.variants[i]);
      SubSound(a, b.variants[i], v);
    } else if a.Array? {
      forall i | 0 <= i < |v.items| ensures Accepts(b.items, v.items[i]) {
        SubSound(a.items, b.items, v.items[i]);
      }
    } else if a.Object? {
      forall k | k in v.entries ensures Accepts(b.fields[k], v.entries[k]) {
        SubSound(a.fields[k], b.fields[k], v.entries[k]);
      }
    }
  }

  // ---------------------------------------------------------------- inclusion is a preorder

  /** Whatever is included in a variant is included in the union, nested unions included. */
  lemma {:induction false} SubVariant(a: Contract, variants: seq<Contract>, i: nat)
    requires i < |variants| && Sub(a, variants[i])
    ensures Sub(a, Union(variants))
    decreases a
  {
    if a.Union? {
      forall j | 0 <= j < |a.variants| ensures Sub(a.variants[j], Union(variants)) {
        if variants[i].Any? {
          assert Sub(a.variants[j], variants[i]);
        }
        SubVariant(a.variants[j], variants, i);
      }
    }
  }

  lemma {:induction false} SubReflexive(a: Contract)
    ensures Sub(a, a)
  {
    match a
    case Array(items, lo, hi) => SubReflexive(items);
    case Object(fields, optional) =>
      forall k | k in fields ensures Sub(fields[k], fields[k]) {
        SubReflexive(fields[k]);
      }
    case Union(variants) =>
      forall i | 0 <= i < |variants| ensures Sub(variants[i], a) {
        SubReflexive(variants[i]);
        SubVariant(variants[i], variants, i);
      }
    case _ =>
  }

  lemma {:induction false} SubOfAny(a: Contract, c: Contract)
    requires Sub(Any, c)
    ensures Sub(a, c)
    decreases c
  {
    if c.Union? {
      var i :| 0 <= i < |c.variants| && Sub(Any, c.variants[i]);
      SubOfAny(a, c.variants[i]);
      SubVariant(a, c.variants, i);
    }
  }

  lemma {:induction false} SubTransitive(a: Contract, b: Contract, c: Contract)
    requires Sub(a, b) && Sub(b, c)
    ensures Sub(a, c)
    decreases a, b, c
  {
    if c.Any? {
    } else if a.Union? {
      forall i | 0 <= i < |a.variants| ensures Sub(a.variants[i], c) {
        assert Sub(a.variants[i], b);
        SubTransitive(a.variants[i], b, c);
      }
    } else if b.Any? {
      SubOfAny(a, c);
    } else if b.Union? {
      var i :| 0 <= i < |b.variants| && Sub(a, b.variants[i]);
      SubTransitive(a, b.variants[i], c);
    } else if c.Union? {
      var i :| 0 <= i < |c.variants| && Sub(b, c.variants[i]);
      SubTransitive(a, b, c.variants[i]);
    } else if a.Array? {
      SubTransitive(a.items, b.items, c.items);
    } else if a.Object? {
      forall k | k in a.fields ensures Sub(a.fields[k], c.fields[k]) {
        SubTransitive(a.fields[k], b.fields[k], c.fields[k]);
      }
    }
  }

  lemma EquivalentTransitive(a: Contract, b: Contract, c: Contract)
    requires Equivalent(a, b) && Equivalent(b, c)
    ensures Equivalent(a, c)
  {
    SubTransitive(a, b, c);
    SubTransitive(c, b, a);
  }
}
