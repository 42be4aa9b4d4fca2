/**
 When the coexistence check must say yes: exactly when each view can read whatever the other one
 writes, wherever values show all that contracts say; and which changes of a view it permits.
 */
module MutualViews {

  import opened Values
  import opened Contracts
  import opened Relations
  import opened Definitions
  import opened Coexistence
  import opened Inclusion

  /** Every value that the writer accepts has a view under the reader. */
  ghost predicate Reads(reader: Contract, writer: Contract) {
    forall v :: Accepts(writer, v) ==> Project(reader, v).Some?
  }

  /** Valid, and nothing in it that values do not show. */
  predicate Visible(c: Contract) {
    WellShaped(c) && Plain(c) && Concrete(c)
  }

  // ---------------------------------------------------------------- from values to contracts

  /** A value of one field, in an object with all of them. */
  lemma FilledAccepted(c: Contract, k: Text, v: Value)
    requires c.Object? && WellShaped(c) && k in c.fields && Accepts(c.fields[k], v)
    ensures forall j :: j in c.fields ==> Inhabited(c.fields[j])
    ensures Accepts(c, Filled(c, k, v)) && k in Filled(c, k, v).entries && Filled(c, k, v).entries[k] == v
  {
    FieldsInhabited(c);
  }

  lemma ProjectedField(c: Contract, whole: Value, k: Text)
    requires c.Object? && whole.ObjectValue? && k in c.fields && k in whole.entries && Project(c, whole).Some?
    ensures Project(c.fields[k], whole.entries[k]).Some?
  {
  }

  lemma FieldReads(reader: Contract, writer: Contract, k: Text)
    requires reader.Object? && writer.Object? && WellShaped(writer) && Reads(reader, writer)
    requires k in reader.fields && k in writer.fields
    ensures Reads(reader.fields[k], writer.fields[k])
  {
    forall v | Accepts(writer.fields[k], v) ensures Project(reader.fields[k], v).Some? {
      FilledAccepted(writer, k, v);
      ProjectedField(reader, Filled(writer, k, v), k);
    }
  }

  /** A field that the reader requires is one that the writer always writes. */
  lemma RequiredIsWritten(reader: Contract, writer: Contract, k: Text)
    requires reader.Object? && writer.Object? && WellShaped(writer) && Reads(reader, writer)
    requires k in reader.fields && k !in reader.optional
    ensures k in writer.fields && k !in writer.optional
  {
    FieldsInhabited(writer);
    assert Accepts(writer, Bare(writer)) && Project(reader, Bare(writer)).Some?;
  }

  lemma ItemsRead(reader: Contract, writer: Contract)
    requires reader.Array? && writer.Array? && WellShaped(writer) && writer.maximumItems != Some(0)
    requires Reads(reader, writer)
    ensures Reads(reader.items, writer.items)
    ensures LengthsInside(writer.minimumItems, writer.maximumItems, reader.minimumItems, reader.maximumItems)
  {
    ValidIsInhabited(writer.items);
    forall n: nat | IntWithin(n, writer.minimumItems, writer.maximumItems)
      ensures IntWithin(n, reader.minimumItems, reader.maximumItems)
    {
      var whole := Copies(Pick(writer.items), n);
      assert Accepts(writer, whole) && Project(reader, whole).Some?;
    }
    var n := if Least(writer.minimumItems) > 0 then Least(writer.minimumItems) else 1;
    forall v | Accepts(writer.items, v) ensures Project(reader.items, v).Some? {
      var whole := Copies(v, n);
      assert Accepts(writer, whole) && Project(reader, whole).Some?;
      assert whole.items[0] == v;
    }
  }

  /** Scalars have no view but themselves. */
  lemma ScalarReads(reader: Contract, writer: Contract)
    requires !reader.Object? && !reader.Array? && !reader.Union? && Reads(reader, writer)
    ensures Included(writer, reader)
  {
    forall v | Accepts(writer, v) ensures Accepts(reader, v) {
      assert Project(reader, v).Some?;
    }
  }

  lemma LengthsSame(lo: Option<nat>, hi: Option<nat>, lo': Option<nat>, hi': Option<nat>)
    requires Ordered(lo, hi) && Ordered(lo', hi') && lo != Some(0) && lo' != Some(0)
    requires LengthsInside(lo, hi, lo', hi') && LengthsInside(lo', hi', lo, hi)
    ensures lo == lo' && hi == hi'
  {
    LengthsExact(lo, hi, lo', hi');
    LengthsExact(lo', hi', lo, hi);
  }

  /** Kinds that a reader can tell apart. */
  lemma SameKind(reader: Contract, writer: Contract)
    requires WellShaped(writer) && !writer.Union? && !reader.Union? && Reads(reader, writer)
    ensures reader.Object? ==> writer.Object?
    ensures reader.Array? ==> writer.Array?
  {
    if writer.Any? {
      assert Accepts(writer, NullValue) && Project(reader, NullValue).Some?;
    } else {
      ValidIsInhabited(writer);
      assert Project(reader, Pick(writer)).Some?;
    }
  }

  lemma {:induction false} MutualCoexist(left: Contract, right: Contract)
    requires Visible(left) && Visible(right) && Reads(left, right) && Reads(right, left)
    ensures CanCoexist(left, right)
    decreases left
  {
    SameKind(left, right);
    SameKind(right, left);
    if left.Object? {
      forall k | k in left.fields && k in right.fields ensures CanCoexist(left.fields[k], right.fields[k]) {
        FieldReads(left, right, k);
        FieldReads(right, left, k);
        MutualCoexist(left.fields[k], right.fields[k]);
      }
      forall k | k in left.fields && k !in left.optional ensures k in right.fields && k !in right.optional {
        RequiredIsWritten(left, right, k);
      }
      forall k | k in right.fields && k !in right.optional ensures k in left.fields && k !in left.optional {
        RequiredIsWritten(right, left, k);
      }
    } else if left.Array? {
      ItemsRead(left, right);
      ItemsRead(right, left);
      LengthsSame(left.minimumItems, left.maximumItems, right.minimumItems, right.maximumItems);
      MutualCoexist(left.items, right.items);
    } else {
      ScalarReads(left, right);
      ScalarReads(right, left);
      IncludedIsSub(left, right);
      IncludedIsSub(right, left);
    }
  }

  lemma {:induction false} VisibleIsDistinct(c: Contract)
    requires Plain(c)
    ensures DistinctUnions(c)
  {
    match c
    case Object(fields, _) =>
      forall k | k in fields ensures DistinctUnions(fields[k]) {
        VisibleIsDistinct(fields[k]);
      }
    case Array(items, _, _) => VisibleIsDistinct(items);
    case _ =>
  }

  lemma CoexistReads(left: Contract, right: Contract)
    requires CanCoexist(left, right)
    ensures Reads(right, left)
  {
    forall v | Accepts(left, v) ensures Project(right, v).Some? {
      CoexistReadable(left, right, v);
    }
  }

  /** Two such views may share an Environment exactly when each reads all that the other writes. */
  lemma CoexistIsExact(left: Contract, right: Contract)
    requires Visible(left) && Visible(right)
    ensures CanCoexist(left, right) <==> Reads(left, right) && Reads(right, left)
  {
    if CanCoexist(left, right) {
      VisibleIsDistinct(left);
      CoexistSymmetric(left, right);
      CoexistReads(left, right);
      CoexistReads(right, left);
    } else if Reads(left, right) && Reads(right, left) {
      MutualCoexist(left, right);
    }
  }

  // ---------------------------------------------------------------- single changes of any view

  /** A field that only one view knows is permitted exactly when it is optional. */
  lemma AddedField(c: Contract, k: Text, field: Contract)
    requires c.Object? && k !in c.fields && k !in c.optional
    ensures CanCoexist(c, Object(c.fields[k := field], c.optional + {k}))
    ensures CanCoexist(Object(c.fields[k := field], c.optional + {k}), c)
    ensures !CanCoexist(c, Object(c.fields[k := field], c.optional))
    ensures !CanCoexist(Object(c.fields[k := field], c.optional), c)
  {
    forall j | j in c.fields ensures CanCoexist(c.fields[j], c.fields[j]) {
      CoexistReflexive(c.fields[j]);
    }
    var required := Object(c.fields[k := field], c.optional);
    assert k in required.fields;
  }

  /** A changed field is permitted exactly when its old and new contracts may coexist. */
  lemma ChangedField(c: Contract, k: Text, field: Contract)
    requires c.Object? && k in c.fields
    ensures CanCoexist(c, c.(fields := c.fields[k := field])) <==> CanCoexist(c.fields[k], field)
    ensures CanCoexist(c.(fields := c.fields[k := field]), c) <==> CanCoexist(field, c.fields[k])
  {
    forall j | j in c.fields ensures CanCoexist(c.fields[j], c.fields[j]) {
      CoexistReflexive(c.fields[j]);
    }
    var changed := c.(fields := c.fields[k := field]);
    assert k in changed.fields && changed.fields[k] == field;
    assert forall j :: j in changed.fields <==> j in c.fields;
  }

  /** A required field may not become optional, nor the reverse. */
  lemma RelaxedField(c: Contract, k: Text)
    requires c.Object? && k in c.fields && k !in c.optional
    ensures !CanCoexist(c, c.(optional := c.optional + {k})) && !CanCoexist(c.(optional := c.optional + {k}), c)
  {
    var relaxed := c.(optional := c.optional + {k});
    assert k in relaxed.fields;
  }

  /** Two unions whose variants are the same up to their order may coexist. */
  lemma ReorderedVariants(left: seq<Contract>, right: seq<Contract>)
    requires multiset(left) == multiset(right)
    ensures CanCoexist(Union(left), Union(right))
  {
    forall i | 0 <= i < |left| ensures HasMatch(left[i], right) {
      assert left[i] in multiset(right);
      var j :| 0 <= j < |right| && right[j] == left[i];
      SubReflexive(left[i]);
    }
    assert |multiset(left)| == |multiset(right)|;
  }

  /** One variant more or less is not permitted. */
  lemma AddedVariant(left: seq<Contract>, right: seq<Contract>)
    requires |left| != |right|
    ensures !CanCoexist(Union(left), Union(right))
  {
  }
}
