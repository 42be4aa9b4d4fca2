/**
 A read that the step budget changes: the view of a document that can be stored is cheap to take but
 too costly to validate, so a union answers with a later variant.
 */
module ReaderCounterexample {

  import opened Order
  import opened Values
  import opened Contracts
  import opened ContractChecker
  import opened ContractReader
  import opened Lens
  import opened Definitions
  import opened StoredValues

  const Flag: Contract := Union([Null, Timestamp, Boolean])
  const Row: Contract := Array(Flag, None, None)
  const Sheet: Contract := Array(Row, None, None)
  const Strict: Contract := Object(map[A := Null, B := Sheet], {A})
  const Loose: Contract := Object(map[B := Array(Any, None, None)], {})
  const Inner: Contract := Union([Strict, Loose])
  const Outer: Contract := Union([Inner, Any])

  /** A row of 10,000 flags, the most a container holds. */
  predicate FullRow(v: Value) {
    v.ArrayValue? && |v.items| == MAX_CONTAINER_ITEMS && AllFlags(v.items)
  }

  predicate AllFlags(vs: seq<Value>) {
    forall v :: v in vs ==> v.BooleanValue?
  }

  predicate FullRows(rows: seq<Value>) {
    forall r :: r in rows ==> FullRow(r)
  }

  function Document(rows: seq<Value>): Value {
    ObjectValue(map[A := BooleanValue(true), B := ArrayValue(rows)])
  }

  function View(rows: seq<Value>): Value {
    ObjectValue(map[B := ArrayValue(rows)])
  }

  // ---------------------------------------------------------------- the definitions are valid

  lemma SheetIsWellShaped()
    ensures WellShaped(Sheet) && WellShaped(Array(Any, None, None))
  {
    assert WellShaped(Null) && WellShaped(Timestamp) && WellShaped(Boolean);
    assert WellShaped(Flag);
    assert WellShaped(Row);
  }

  lemma StrictIsWellShaped()
    ensures WellShaped(Strict)
  {
    SheetIsWellShaped();
    assert Strict.fields.Keys == {A, B};
    ObjectIsWellShaped(Strict);
  }

  lemma LooseIsWellShaped()
    ensures WellShaped(Loose) && Strict != Loose
  {
    SheetIsWellShaped();
    assert A in Strict.fields && Loose.fields.Keys == {B};
    ObjectIsWellShaped(Loose);
  }

  lemma ObjectIsWellShaped(c: Contract)
    requires c.Object? && (c.fields.Keys == {A, B} || c.fields.Keys == {B}) && c.optional <= c.fields.Keys
    requires forall k :: k in c.fields ==> WellShaped(c.fields[k])
    ensures WellShaped(c)
  {
    assert |c.fields| == |c.fields.Keys|;
  }

  lemma UnionIsWellShaped(a: Contract, b: Contract)
    requires WellShaped(a) && WellShaped(b) && a != b
    ensures WellShaped(Union([a, b]))
  {
  }

  lemma OuterIsWellShaped()
    ensures WellShaped(Outer)
  {
    StrictIsWellShaped();
    LooseIsWellShaped();
    UnionIsWellShaped(Strict, Loose);
    UnionIsWellShaped(Inner, Any);
  }

  // ---------------------------------------------------------------- the document is storable

  lemma {:induction false} FlagsLength(vs: seq<Value>, depth: nat)
    requires AllFlags(vs) && depth <= MAX_DEPTH && |vs| <= MAX_CONTAINER_ITEMS
    ensures ItemsLength(vs, depth) == Some(|vs|)
  {
    if vs != [] {
      FlagsLength(vs[1..], depth);
    }
  }

  lemma {:induction false} RowsLength(rows: seq<Value>, depth: nat)
    requires FullRows(rows) && depth < MAX_DEPTH && |rows| <= 5
    ensures ItemsLength(rows, depth) == Some(10_005 * |rows|)
  {
    if rows != [] {
      assert rows[0] in rows;
      FlagsLength(rows[0].items, depth + 1);
      assert BodyLength(rows[0], depth) == Some(10_005);
      RowsLength(rows[1..], depth);
    }
  }

  lemma DocumentIsStorable(rows: seq<Value>)
    requires FullRows(rows) && |rows| == 5
    ensures Storable(Document(rows))
  {
    var v := Document(rows);
    RowsLength(rows, 2);
    assert BodyLength(v.entries[B], 1) == Some(50_030);
    LeastOfTwo();
    LeastOfOne(B);
    assert v.entries.Keys == {A, B} && |v.entries| == |v.entries.Keys| && {A, B} - {A} == {B} && {B} - {B} == {};
    assert FieldsLength(v, {B}, 1) == Some(50_033);
    assert FieldsLength(v, {A, B}, 1) == Some(50_037);
  }

  // ---------------------------------------------------------------- items

  lemma FlagSteps(v: Value)
    requires v.BooleanValue?
    ensures Accepts(Flag, v) && Steps(Flag, v) == 4
  {
    var variants := [Null, Timestamp, Boolean];
    assert Accepts(variants[2], v);
    assert variants[1..] == [Timestamp, Boolean] && variants[1..][1..] == [Boolean];
    assert VariantSteps([Boolean], v) == 1;
    assert VariantSteps([Timestamp, Boolean], v) == 2;
  }

  lemma {:induction false} FlagItems(vs: seq<Value>)
    requires AllFlags(vs)
    ensures ItemSteps(Flag, vs) == 4 * |vs|
    ensures forall i :: 0 <= i < |vs| ==> Accepts(Flag, vs[i])
  {
    if vs != [] {
      FlagSteps(vs[0]);
      FlagItems(vs[1..]);
      assert vs == [vs[0]] + vs[1..];
    }
  }

  lemma RowSteps(row: Value)
    requires FullRow(row)
    ensures Accepts(Row, row) && Steps(Row, row) == 40_001
  {
    FlagItems(row.items);
  }

  lemma {:induction false} RowItems(rows: seq<Value>)
    requires FullRows(rows)
    ensures ItemSteps(Row, rows) == 40_001 * |rows|
    ensures forall i :: 0 <= i < |rows| ==> Accepts(Row, rows[i])
  {
    if rows != [] {
      RowSteps(rows[0]);
      RowItems(rows[1..]);
      assert rows == [rows[0]] + rows[1..];
    }
  }

  lemma {:induction false} AnyItems(vs: seq<Value>)
    ensures ItemSteps(Any, vs) == ItemReadSteps(Any, vs) == |vs|
  {
    if vs != [] {
      AnyItems(vs[1..]);
    }
  }

  lemma AnyArray(vs: seq<Value>)
    requires |vs| < VALIDATION_MAX_STEPS
    ensures var c := Array(Any, None, None); var v := ArrayValue(vs);
      && Project(c, v) == Some(v) && Reading(c, v) == Some(v) && Steps(c, v) == ReadSteps(c, v) == 1 + |vs|
  {
    AnyItems(vs);
    assert vs == seq(|vs|, i requires 0 <= i < |vs| => Project(Any, vs[i]).value);
    assert vs == seq(|vs|, i requires 0 <= i < |vs| => Reading(Any, vs[i]).value);
  }

  // ---------------------------------------------------------------- objects

  lemma LeastOfOne(k: Text)
    ensures Least({k}) == k
  {
  }

  lemma LeastOfTwo()
    ensures Least({A, B}) == A
  {
    LeastIsUnique({A, B});
    assert Less(A, B);
    assert IsLeast({A, B}, A) && IsLeast({A, B}, Least({A, B}));
  }

  lemma LooseReads(vs: seq<Value>)
    requires |vs| + 2 <= VALIDATION_MAX_STEPS
    ensures Project(Loose, Document(vs)) == Some(View(vs)) && Reading(Loose, Document(vs)) == Some(View(vs))
    ensures ReadSteps(Loose, Document(vs)) == 2 + |vs|
  {
    AnyArray(vs);
    LeastOfOne(B);
    var entries := Document(vs).entries;
    assert Loose.fields.Keys == {B} && Loose.fields.Keys - {B} == {};
    assert FieldReads(Loose, entries, B);
    assert Reading(Loose, Document(vs)).value.entries == View(vs).entries;
    ObjectView(Loose, Document(vs), View(vs).entries);
    assert FieldReadSteps(Loose, entries, {B}) ==
      ReadSteps(Loose.fields[B], entries[B]) + FieldReadSteps(Loose, entries, {});
  }

  lemma LoosePasses(vs: seq<Value>)
    requires |vs| + 2 <= VALIDATION_MAX_STEPS
    ensures Passes(Loose, View(vs))
  {
    AnyArray(vs);
    LeastOfOne(B);
    var entries := View(vs).entries;
    assert entries.Keys == {B} && entries.Keys - {B} == {};
    assert Accepts(Loose.fields[B], entries[B]);
    assert FieldSteps(Loose, entries, {B}) == Steps(Loose.fields[B], entries[B]) + FieldSteps(Loose, entries, {});
  }

  lemma StrictFails(vs: seq<Value>)
    ensures Project(Strict, Document(vs)).None? && Reading(Strict, Document(vs)).None?
    ensures ReadSteps(Strict, Document(vs)) == 2
  {
    var entries := Document(vs).entries;
    UnreadableField(Strict, Document(vs), A);
    LeastOfTwo();
    assert Strict.fields.Keys == {A, B};
    assert !FieldReads(Strict, entries, A);
    assert FieldReadSteps(Strict, entries, {A, B}) == ReadSteps(Strict.fields[A], entries[A]) == 1;
  }

  lemma SheetCosts(rows: seq<Value>)
    requires FullRows(rows)
    ensures Accepts(Sheet, ArrayValue(rows)) && Steps(Sheet, ArrayValue(rows)) == 1 + 40_001 * |rows|
  {
    RowItems(rows);
  }

  lemma StrictCosts(rows: seq<Value>)
    requires FullRows(rows)
    ensures Accepts(Strict, View(rows)) && Steps(Strict, View(rows)) == 2 + 40_001 * |rows|
  {
    SheetCosts(rows);
    LeastOfOne(B);
    var entries := View(rows).entries;
    assert entries.Keys == {B} && entries.Keys - {B} == {};
    assert Accepts(Strict.fields[B], entries[B]);
    assert FieldSteps(Strict, entries, {B}) == Steps(Strict.fields[B], entries[B]) + FieldSteps(Strict, entries, {});
  }

  // ---------------------------------------------------------------- unions

  /** The second of two variants reads. */
  lemma SecondReads(first: Contract, second: Contract, v: Value)
    requires !VariantReads(first, v) && VariantReads(second, v)
    ensures Reading(Union([first, second]), v) == Reading(second, v)
    ensures ReadSteps(Union([first, second]), v) == 1 + ReadSteps(first, v) + ReadSteps(second, v)
  {
    var variants := [first, second];
    assert variants[1..] == [second];
    assert FirstReading(variants, v) == 1;
    TwoSteps(variants, v);
  }

  lemma TwoSteps(variants: seq<Contract>, v: Value)
    requires |variants| == 2 && !VariantReads(variants[0], v) && VariantReads(variants[1], v)
    ensures VariantReadSteps(variants, v) == ReadSteps(variants[0], v) + ReadSteps(variants[1], v)
  {
    assert variants[1..][0] == variants[1];
  }

  lemma SecondProjects(first: Contract, second: Contract, v: Value)
    requires Project(first, v).None? && Project(second, v).Some?
    ensures Project(Union([first, second]), v) == Project(second, v)
  {
    var variants := [first, second];
    assert FirstProjecting(variants, v) == 1;
  }

  lemma FirstProjects(first: Contract, second: Contract, v: Value)
    requires Project(first, v).Some?
    ensures Project(Union([first, second]), v) == Project(first, v)
  {
    var variants := [first, second];
    assert FirstProjecting(variants, v) == 0;
  }

  lemma InnerReads(vs: seq<Value>)
    requires |vs| + 2 <= VALIDATION_MAX_STEPS
    ensures Project(Inner, Document(vs)) == Some(View(vs)) && Reading(Inner, Document(vs)) == Some(View(vs))
    ensures ReadSteps(Inner, Document(vs)) == 5 + |vs|
  {
    StrictFails(vs);
    LooseReads(vs);
    LoosePasses(vs);
    SecondReads(Strict, Loose, Document(vs));
    SecondProjects(Strict, Loose, Document(vs));
  }

  lemma InnerCosts(rows: seq<Value>)
    requires FullRows(rows)
    ensures Steps(Inner, View(rows)) >= 3 + 40_001 * |rows|
  {
    StrictCosts(rows);
    var variants := [Strict, Loose];
    assert VariantSteps(variants, View(rows)) >= Steps(variants[0], View(rows));
  }

  /**
   A storable document with five rows of 10,000 flags: the read takes a dozen steps and gives the
   whole document, although the view of the first variant exists; so the document is not covered.
   */
  lemma LargeReadSkipsVariant(rows: seq<Value>)
    requires FullRows(rows) && |rows| == 5
    ensures WellShaped(Outer) && Storable(Document(rows))
    ensures ReadSteps(Outer, Document(rows)) == 12 && Reading(Outer, Document(rows)) == Some(Document(rows))
    ensures Project(Outer, Document(rows)) == Some(View(rows)) && View(rows) != Document(rows)
    ensures !Covered(Outer, Document(rows))
  {
    OuterIsWellShaped();
    DocumentIsStorable(rows);
    InnerReads(rows);
    InnerCosts(rows);
    SecondReads(Inner, Any, Document(rows));
    FirstProjects(Inner, Any, Document(rows));
    assert A in Document(rows).entries && A !in View(rows).entries;
    ReadingIsExact(Outer, Document(rows));
  }
}
