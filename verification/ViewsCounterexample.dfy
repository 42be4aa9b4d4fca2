/**
 What coexistence misses: two views that coexist in both argument orders, and a valid replacement
 through one of them after which the other can no longer read the document.
 */
module ViewsCounterexample {

  import opened Values
  import opened Contracts
  import opened Relations
  import opened Coexistence
  import opened Lens
  import opened Redundancy
  import opened Definitions
  import opened Views
  import opened LeastViews

  const Bare: Contract := Object(map[A := Any], {})
  const Tagged: Contract := Object(map[A := Any, B := Null], {B})
  const Flagged: Contract := Object(map[A := Boolean, B := Boolean], {})

  const WriterField: Contract := Union([Bare, Tagged, Flagged])
  const ReaderField: Contract := Union([Tagged, Flagged])

  const StoredField: Value := ObjectValue(map[A := BooleanValue(true), B := BooleanValue(true)])
  const NextField: Value := ObjectValue(map[A := NullValue])
  const MixedField: Value := ObjectValue(map[A := NullValue, B := BooleanValue(true)])

  lemma FieldsEquivalent()
    ensures Equivalent(WriterField, ReaderField)
  {
    assert Sub(Bare, Tagged);
    FirstIsRedundant(Bare, Tagged, Flagged);
  }

  /** Dropping a variant included in another one changes nothing. */
  lemma FirstIsRedundant(a: Contract, b: Contract, c: Contract)
    requires Sub(a, b)
    ensures Equivalent(Union([a, b, c]), Union([b, c]))
  {
    ThreeInTwo(a, b, c);
    TwoInThree(a, b, c);
  }

  lemma ThreeInTwo(a: Contract, b: Contract, c: Contract)
    requires Sub(a, b)
    ensures Sub(Union([a, b, c]), Union([b, c]))
  {
    var two := [b, c];
    SubReflexive(b);
    SubReflexive(c);
    SubVariant(a, two, 0);
    SubVariant(b, two, 0);
    SubVariant(c, two, 1);
    AllIncluded([a, b, c], Union(two));
  }

  lemma TwoInThree(a: Contract, b: Contract, c: Contract)
    ensures Sub(Union([b, c]), Union([a, b, c]))
  {
    var three := [a, b, c];
    SubReflexive(b);
    SubReflexive(c);
    SubVariant(b, three, 1);
    SubVariant(c, three, 2);
    AllIncluded([b, c], Union(three));
  }

  lemma AllIncluded(variants: seq<Contract>, c: Contract)
    requires forall i :: 0 <= i < |variants| ==> Sub(variants[i], c)
    ensures Sub(Union(variants), c)
  {
  }

  lemma BareReplaced()
    ensures Accepts(Bare, NextField)
    ensures Merge(Bare, Some(StoredField), NextField) == MixedField
  {
    var merged := Merge(Bare, Some(StoredField), NextField).entries;
    assert merged.Keys == {A, B};
    assert merged[A] == Merge(Any, Field(Some(StoredField), A), NullValue);
    assert merged[B] == StoredField.entries[B];
  }

  lemma FirstOfThreeWrites(a: Contract, b: Contract, c: Contract, stored: Value, r: Value)
    requires Accepts(a, r)
    ensures Accepts(Union([a, b, c]), r)
    ensures Merge(Union([a, b, c]), Some(stored), r) == Merge(a, Some(stored), r)
  {
    var variants := [a, b, c];
    assert Accepts(variants[0], r);
  }

  /** The writer chooses the variant without field `b`, so the old `b` stays beside the new `a`. */
  lemma FieldReplaced()
    ensures Accepts(WriterField, StoredField) && Accepts(WriterField, NextField)
    ensures Merge(WriterField, Some(StoredField), NextField) == MixedField
  {
    assert Accepts(WriterField.variants[2], StoredField);
    BareReplaced();
    FirstOfThreeWrites(Bare, Tagged, Flagged, StoredField, NextField);
  }

  lemma FieldUnreadable()
    ensures Project(ReaderField, MixedField).None?
  {
    assert Project(Tagged.fields[B], MixedField.entries[B]).None?;
    UnreadableField(Tagged, MixedField, B);
    assert Project(Flagged.fields[A], MixedField.entries[A]).None?;
    UnreadableField(Flagged, MixedField, A);
    NoVariantReads(Tagged, Flagged, MixedField);
  }

  lemma NoVariantReads(first: Contract, second: Contract, v: Value)
    requires Project(first, v).None? && Project(second, v).None?
    ensures Project(Union([first, second]), v).None?
  {
    var variants := [first, second];
    assert Project(variants[0], v).None? && Project(variants[1], v).None?;
  }

  /** The redundant variant is what a steady writer may not have here. */
  lemma FieldIsRedundant()
    ensures !Irredundant(WriterField)
  {
    assert Sub(Bare, Tagged);
    assert B in Tagged.fields && B !in Bare.fields;
    RedundantVariant(WriterField, 0, 1);
  }

  lemma FieldsAreWellShaped()
    ensures WellShaped(WriterField) && WellShaped(ReaderField)
  {
    BareIsWellShaped();
    TaggedIsWellShaped();
    FlaggedIsWellShaped();
    ObjectsDiffer();
    UnionsAreWellShaped(Bare, Tagged, Flagged);
  }

  lemma BareIsWellShaped()
    ensures WellShaped(Bare)
  {
    ObjectIsWellShaped(Bare);
  }

  lemma TaggedIsWellShaped()
    ensures WellShaped(Tagged)
  {
    ObjectIsWellShaped(Tagged);
  }

  lemma FlaggedIsWellShaped()
    ensures WellShaped(Flagged)
  {
    ObjectIsWellShaped(Flagged);
  }

  lemma ObjectsDiffer()
    ensures Bare != Tagged && Bare != Flagged && Tagged != Flagged
  {
    assert Bare.fields.Keys == {A} && Flagged.fields.Keys == {A, B};
    assert Tagged.optional == {B} && Bare.optional == Flagged.optional == {};
  }

  lemma UnionsAreWellShaped(a: Contract, b: Contract, c: Contract)
    requires WellShaped(a) && WellShaped(b) && WellShaped(c) && a != b && a != c && b != c
    ensures WellShaped(Union([a, b, c])) && WellShaped(Union([b, c]))
  {
  }

  lemma ObjectIsWellShaped(c: Contract)
    requires c.Object? && c.fields.Keys <= {A, B} && c.optional <= c.fields.Keys
    requires forall k :: k in c.fields ==> c.fields[k] in {Any, Null, Boolean}
    ensures WellShaped(c)
  {
    SubsetSize(c.fields.Keys, {A, B});
    assert |c.fields| == |c.fields.Keys|;
  }

  lemma HolderIsUnsteady(field: Contract, other: Contract)
    requires !Irredundant(field)
    ensures !Steady(Holder(field), Holder(other))
  {
    var holder := Object(map[A := field], {});
    assert !Irredundant(holder.fields[A]);
    assert Holder(field).variants[0] == holder;
  }

  /**
   An insert and a replacement, both valid through the writer, after which the reader is locked out;
   both views are valid definitions and coexist in both argument orders.
   */
  lemma ReaderLockedOut(writer: Contract, reader: Contract, stored: Value, next: Value)
    requires writer == Holder(WriterField) && reader == Holder(ReaderField)
    requires stored == Held(StoredField) && next == Held(NextField)
    ensures WellShaped(writer) && WellShaped(reader) && !Steady(writer, reader)
    ensures CanCoexist(writer, reader) && CanCoexist(reader, writer)
    ensures Accepts(writer, stored) && Project(reader, stored).Some?
    ensures Accepts(writer, next) && Project(reader, Merge(writer, Some(stored), next)).None?
    ensures Project(LeastView(writer), stored).Some?
    ensures Project(LeastView(writer), Merge(writer, Some(stored), next)).None?
  {
    FieldsAreWellShaped();
    HolderIsWellShaped(WriterField);
    HolderIsWellShaped(ReaderField);
    FieldIsRedundant();
    HolderIsUnsteady(WriterField, ReaderField);
    FieldsEquivalent();
    HoldersCoexist(WriterField, ReaderField);
    FieldReplaced();
    FieldUnreadable();
    HolderReplaces(WriterField, StoredField, StoredField);
    HolderReplaces(WriterField, StoredField, NextField);
    CoexistReadable(writer, reader, stored);
    HolderReads(ReaderField, MixedField);
    AcceptedIsLeastReadable(writer, stored);
    LeastIsLockedOut(writer, reader, stored, next);
  }

  lemma LeastIsLockedOut(writer: Contract, reader: Contract, stored: Value, r: Value)
    requires CanCoexist(writer, reader) && Accepts(writer, r) && Project(reader, stored).Some?
    requires Project(reader, Merge(writer, Some(stored), r)).None?
    ensures Project(LeastView(writer), Merge(writer, Some(stored), r)).None?
  {
    if Project(LeastView(writer), Merge(writer, Some(stored), r)).Some? {
      LeastSuffices(writer, reader, Some(stored), r);
    }
  }

  // ---------------------------------------------------------------- documents with one field

  /** A document with one field, beneath a union: coexistence compares such views by inclusion only. */
  function Holder(field: Contract): Contract {
    Union([Object(map[A := field], {}), Null])
  }

  function Held(v: Value): Value {
    ObjectValue(map[A := v])
  }

  lemma HolderIsWellShaped(field: Contract)
    requires WellShaped(field)
    ensures WellShaped(Holder(field))
  {
    assert WellShaped(Object(map[A := field], {}));
  }

  lemma HoldersCoexist(f: Contract, g: Contract)
    requires Equivalent(f, g)
    ensures CanCoexist(Holder(f), Holder(g)) && CanCoexist(Holder(g), Holder(f))
  {
    var left, right := Object(map[A := f], {}), Object(map[A := g], {});
    assert Equivalent(left, right);
    PairsMatch(left, Null, right, Null);
    PairsMatch(right, Null, left, Null);
  }

  lemma PairsMatch(a: Contract, b: Contract, a': Contract, b': Contract)
    requires Equivalent(a, a') && Equivalent(b, b')
    ensures CanCoexist(Union([a, b]), Union([a', b']))
  {
    var right := [a', b'];
    assert Equivalent(a, right[0]) && Equivalent(b, right[1]);
    assert HasMatch(a, right) && HasMatch(b, right);
  }

  lemma HolderReplaces(field: Contract, stored: Value, next: Value)
    requires Accepts(field, next)
    ensures Accepts(Holder(field), Held(next))
    ensures Merge(Holder(field), Some(Held(stored)), Held(next)) == Held(Merge(field, Some(stored), next))
  {
    var holder := Object(map[A := field], {});
    assert Accepts(holder, Held(next));
    FirstVariantWrites(holder, Null, Held(stored), Held(next));
    assert Field(Some(Held(stored)), A) == Some(stored);
    assert Merge(holder, Some(Held(stored)), Held(next)).entries == Held(Merge(field, Some(stored), next)).entries;
  }

  lemma HolderReads(field: Contract, v: Value)
    ensures Project(Holder(field), Held(v)).Some? <==> Project(field, v).Some?
  {
    var holder := Object(map[A := field], {});
    if Project(field, v).Some? {
      assert Project(holder, Held(v)).Some?;
      UnionReads(Holder(field), 0, Held(v));
    } else {
      UnreadableField(holder, Held(v), A);
      NoVariantReads(holder, Null, Held(v));
    }
  }

  // ---------------------------------------------------------------- a redundant variant may be harmless

  /**
   Redundancy is not always harmful: here the larger variant knows no further key, so it reads
   whatever the smaller one reads, and no equivalent view is ever locked out.
   */
  lemma HarmlessRedundancy(narrow: Contract, wide: Contract, b: Contract, v: Value)
    requires narrow == Object(map[A := Null], {}) && wide == Object(map[A := Any], {})
    requires Equivalent(Union([narrow, wide]), b) && Project(Union([narrow, wide]), v).Some?
    ensures !Irredundant(Union([narrow, wide])) && Project(b, v).Some?
  {
    NarrowInsideWide(narrow, wide);
    RedundantVariant(Union([narrow, wide]), 0, 1);
    if Project(wide, v).None? && Project(narrow, v).None? {
      NoVariantReads(narrow, wide, v);
    }
    if Project(narrow, v).Some? {
      SameKeysRead(narrow, wide, v);
    }
    WiderReads(narrow, wide, b, v);
  }

  /** Objects with the same keys, one of which takes anything in each. */
  predicate SameKeys(narrow: Contract, wide: Contract) {
    && narrow.Object? && wide.Object? && narrow.fields.Keys == wide.fields.Keys && narrow.optional == wide.optional
    && forall k :: k in wide.fields ==> wide.fields[k] == Any
  }

  lemma NarrowInsideWide(narrow: Contract, wide: Contract)
    requires SameKeys(narrow, wide) && A in narrow.fields && narrow.fields[A] == Null
    ensures Sub(narrow, wide) && !Sub(wide, narrow) && Irredundant(wide)
  {
    assert !Sub(wide.fields[A], narrow.fields[A]);
  }

  lemma SameKeysRead(narrow: Contract, wide: Contract, v: Value)
    requires SameKeys(narrow, wide) && Project(narrow, v).Some?
    ensures Project(wide, v).Some?
  {
  }

  lemma WiderReads(narrow: Contract, wide: Contract, b: Contract, v: Value)
    requires Sub(narrow, wide) && Irredundant(wide)
    requires Equivalent(Union([narrow, wide]), b) && Project(wide, v).Some?
    ensures Project(b, v).Some?
  {
    var both := [narrow, wide];
    SubReflexive(wide);
    SubVariant(wide, both, 1);
    AllIncluded(both, wide);
    EquivalentTransitive(wide, Union(both), b);
    EquivalentReads(wide, b, v);
  }
}
