/**
 Reading through a contract and replacing through it, as a lens: exactly when reading after a
 replacement returns the replacement, exactly when writing back what was read changes nothing, and
 what a replacement never touches.
 */
module Lens {

  import opened Values
  import opened Contracts

  // ---------------------------------------------------------------- read after replace

  /**
   No union on the way shadows the replacement: the variant chosen by validating `r` is also the
   first one able to read the merged value.
   */
  predicate Unshadowed(c: Contract, stored: Option<Value>, r: Value)
    requires Accepts(c, r)
    decreases c
  {
    match c
    case Object(fields, _) => forall k :: k in r.entries ==> Unshadowed(fields[k], Field(stored, k), r.entries[k])
    case Array(items, _, _) => forall i :: 0 <= i < |r.items| ==> Unshadowed(items, Item(stored, i), r.items[i])
    case Union(variants) =>
      var chosen := FirstAccepting(variants, r);
      && (forall j :: 0 <= j < chosen ==> Project(variants[j], Merge(variants[chosen], stored, r)).None?)
      && Unshadowed(variants[chosen], stored, r)
    case _ => true
  }

  /** Reading after a valid replacement gives that replacement back, exactly when it is unshadowed. */
  lemma {:induction false} ReadAfterReplace(c: Contract, stored: Option<Value>, r: Value)
    requires Accepts(c, r)
    ensures Project(c, Merge(c, stored, r)) == Some(r) <==> Unshadowed(c, stored, r)
    decreases c, 1
  {
    match c
    case Object(_, _) => ReadAfterReplaceObject(c, stored, r);
    case Array(_, _, _) => ReadAfterReplaceArray(c, stored, r);
    case Union(_) => ReadAfterReplaceUnion(c, stored, r);
    case _ =>
  }

  lemma {:induction false} ReadAfterReplaceUnion(c: Contract, stored: Option<Value>, r: Value)
    requires c.Union? && Accepts(c, r)
    ensures Project(c, Merge(c, stored, r)) == Some(r) <==> Unshadowed(c, stored, r)
    decreases c, 0
  {
    var writer := FirstAccepting(c.variants, r);
    UnionMerge(c.variants, stored, r, writer);
    var merged := Merge(c.variants[writer], stored, r);
    ReadAfterReplace(c.variants[writer], stored, r);
    MergedIsProjectable(c.variants[writer], stored, r);
    var reader := FirstProjecting(c.variants, merged);
    UnionView(c.variants, merged, reader);
    assert Unshadowed(c, stored, r) <==> reader == writer && Unshadowed(c.variants[writer], stored, r);
    assert reader < writer ==> Project(c.variants[reader], merged) != Some(r);
  }

  lemma {:induction false} ReadAfterReplaceObject(c: Contract, stored: Option<Value>, r: Value)
    requires c.Object? && Accepts(c, r)
    ensures Project(c, Merge(c, stored, r)) == Some(r) <==> Unshadowed(c, stored, r)
    decreases c, 0
  {
    MergedView(c, stored, r);
    var view := Project(c, Merge(c, stored, r)).value.entries;
    forall k | k in r.entries
      ensures view[k] == r.entries[k] <==> Unshadowed(c.fields[k], Field(stored, k), r.entries[k])
    {
      ReadAfterReplace(c.fields[k], Field(stored, k), r.entries[k]);
    }
    assert view == r.entries <==> forall k :: k in r.entries ==> view[k] == r.entries[k];
  }

  /** The view of a merged object is made of the views of its merged fields. */
  lemma MergedView(c: Contract, stored: Option<Value>, r: Value)
    requires c.Object? && Accepts(c, r)
    ensures Project(c, Merge(c, stored, r)).Some?
    ensures var view := Project(c, Merge(c, stored, r)).value.entries;
      && view.Keys == r.entries.Keys
      && forall k :: k in r.entries ==>
        Project(c.fields[k], Merge(c.fields[k], Field(stored, k), r.entries[k])) == Some(view[k])
  {
    MergedIsProjectable(c, stored, r);
    var merged := Merge(c, stored, r).entries;
    assert forall k :: k in r.entries ==> merged[k] == Merge(c.fields[k], Field(stored, k), r.entries[k]);
  }

  lemma {:induction false} ReadAfterReplaceArray(c: Contract, stored: Option<Value>, r: Value)
    requires c.Array? && Accepts(c, r)
    ensures Project(c, Merge(c, stored, r)) == Some(r) <==> Unshadowed(c, stored, r)
    decreases c, 0
  {
    MergedIsProjectable(c, stored, r);
    var merged := Merge(c, stored, r).items;
    var view := Project(c, Merge(c, stored, r)).value.items;
    forall i | 0 <= i < |r.items|
      ensures view[i] == r.items[i] <==> Unshadowed(c.items, Item(stored, i), r.items[i])
    {
      ReadAfterReplace(c.items, Item(stored, i), r.items[i]);
      assert merged[i] == Merge(c.items, Item(stored, i), r.items[i]);
    }
    assert view == r.items <==> forall i :: 0 <= i < |r.items| ==> view[i] == r.items[i];
  }

  // ---------------------------------------------------------------- replace by what was read

  /** Every union on the way validates its own view of `v` with the variant that produced it. */
  predicate Settled(c: Contract, v: Value)
    requires Project(c, v).Some?
    decreases c
  {
    match c
    case Object(fields, _) => forall k :: k in fields && k in v.entries ==> Settled(fields[k], v.entries[k])
    case Array(items, _, _) => forall i :: 0 <= i < |v.items| ==> Settled(items, v.items[i])
    case Union(variants) =>
      var reader := FirstProjecting(variants, v);
      && FirstAccepting(variants, Project(variants[reader], v).value) == reader
      && Settled(variants[reader], v)
    case _ => true
  }

  /** Replacing a stored value by its own view leaves it unchanged, exactly when it is settled. */
  lemma {:induction false} ReplaceByView(c: Contract, v: Value)
    requires Project(c, v).Some?
    ensures Merge(c, Some(v), Project(c, v).value) == v <==> Settled(c, v)
    decreases c, 1
  {
    match c
    case Object(_, _) => ReplaceByViewObject(c, v);
    case Array(_, _, _) => ReplaceByViewArray(c, v);
    case Union(_) => ReplaceByViewUnion(c, v);
    case _ =>
  }

  lemma {:induction false} ReplaceByViewObject(c: Contract, v: Value)
    requires c.Object? && Project(c, v).Some?
    ensures Merge(c, Some(v), Project(c, v).value) == v <==> Settled(c, v)
    decreases c, 0
  {
    var view := Project(c, v).value.entries;
    var merged := Merge(c, Some(v), Project(c, v).value).entries;
    assert merged.Keys == v.entries.Keys;
    forall k | k in c.fields && k in v.entries
      ensures merged[k] == v.entries[k] <==> Settled(c.fields[k], v.entries[k])
    {
      ReplaceByView(c.fields[k], v.entries[k]);
      assert merged[k] == Merge(c.fields[k], Field(Some(v), k), view[k]);
    }
    assert merged == v.entries <==> forall k :: k in c.fields && k in v.entries ==> merged[k] == v.entries[k];
  }

  lemma {:induction false} ReplaceByViewArray(c: Contract, v: Value)
    requires c.Array? && Project(c, v).Some?
    ensures Merge(c, Some(v), Project(c, v).value) == v <==> Settled(c, v)
    decreases c, 0
  {
    var view := Project(c, v).value.items;
    var merged := Merge(c, Some(v), Project(c, v).value).items;
    forall i | 0 <= i < |v.items| ensures merged[i] == v.items[i] <==> Settled(c.items, v.items[i]) {
      ReplaceByView(c.items, v.items[i]);
      assert merged[i] == Merge(c.items, Item(Some(v), i), view[i]);
    }
    assert merged == v.items <==> forall i :: 0 <= i < |v.items| ==> merged[i] == v.items[i];
  }

  lemma {:induction false} ReplaceByViewUnion(c: Contract, v: Value)
    requires c.Union? && Project(c, v).Some?
    ensures Merge(c, Some(v), Project(c, v).value) == v <==> Settled(c, v)
    decreases c, 0
  {
    var reader := FirstProjecting(c.variants, v);
    UnionView(c.variants, v, reader);
    var view := Project(c.variants[reader], v).value;
    var writer := FirstAccepting(c.variants, view);
    UnionMerge(c.variants, Some(v), view, writer);
    assert Settled(c, v) <==> writer == reader && Settled(c.variants[reader], v);
    if writer < reader {
      ReplaceByStranger(c.variants[writer], v, view);
    } else {
      ReplaceByView(c.variants[reader], v);
    }
  }

  /** What a contract writes it can read, so a value it cannot read is not what it writes. */
  lemma ReplaceByStranger(c: Contract, v: Value, view: Value)
    requires Accepts(c, view) && Project(c, v).None?
    ensures Merge(c, Some(v), view) != v
  {
    MergedIsProjectable(c, Some(v), view);
  }

  // ---------------------------------------------------------------- what a replacement never touches

  datatype Step = Key(name: Text) | Index(at: nat)

  function Lookup(v: Value, path: seq<Step>): Option<Value> {
    if path == [] then Some(v)
    else
      match path[0]
      case Key(name) =>
        if v.ObjectValue? && name in v.entries then Lookup(v.entries[name], path[1..]) else None
      case Index(at) =>
        if v.ArrayValue? && at < |v.items| then Lookup(v.items[at], path[1..]) else None
  }

  /**
   The path descends through fields and positions present both in the stored value and in the
   replacement, and then leaves the writer's view at a key its contract does not declare.
   */
  predicate LeavesView(c: Contract, stored: Value, r: Value, path: seq<Step>)
    requires Accepts(c, r)
    decreases c
  {
    match c
    case Object(fields, _) =>
      && path != [] && path[0].Key? && stored.ObjectValue?
      && var name := path[0].name;
         if name !in fields then true
         else name in stored.entries && name in r.entries
              && LeavesView(fields[name], stored.entries[name], r.entries[name], path[1..])
    case Array(items, _, _) =>
      && path != [] && path[0].Index? && stored.ArrayValue?
      && path[0].at < |stored.items| && path[0].at < |r.items|
      && LeavesView(items, stored.items[path[0].at], r.items[path[0].at], path[1..])
    case Union(variants) => LeavesView(variants[FirstAccepting(variants, r)], stored, r, path)
    case _ => false
  }

  /** A full replacement never changes anything outside its writer's view. */
  lemma {:induction false} ReplacePreservesUnknown(c: Contract, stored: Value, r: Value, path: seq<Step>)
    requires Accepts(c, r) && LeavesView(c, stored, r, path)
    ensures Lookup(Merge(c, Some(stored), r), path) == Lookup(stored, path)
    decreases c
  {
    match c
    case Object(fields, optional) =>
      var name := path[0].name;
      if name in fields {
        ReplacePreservesUnknown(fields[name], stored.entries[name], r.entries[name], path[1..]);
        assert Field(Some(stored), name) == Some(stored.entries[name]);
      }
    case Array(items, minimum, maximum) =>
      var at := path[0].at;
      ReplacePreservesUnknown(items, stored.items[at], r.items[at], path[1..]);
      assert Item(Some(stored), at) == Some(stored.items[at]);
    case Union(variants) =>
      ReplacePreservesUnknown(variants[FirstAccepting(variants, r)], stored, r, path);
  }

  // ---------------------------------------------------------------- contracts whose unions hold no objects

  predicate ObjectFree(c: Contract) {
    match c
    case Object(_, _) => false
    case Array(items, _, _) => ObjectFree(items)
    case Union(variants) => forall i :: 0 <= i < |variants| ==> ObjectFree(variants[i])
    case _ => true
  }

  /** No object contract lies beneath a union. */
  predicate Flat(c: Contract) {
    match c
    case Object(fields, _) => forall k :: k in fields ==> Flat(fields[k])
    case Array(items, _, _) => Flat(items)
    case Union(variants) => forall i :: 0 <= i < |variants| ==> ObjectFree(variants[i])
    case _ => true
  }

  lemma {:induction false} ObjectFreeView(c: Contract, v: Value)
    requires ObjectFree(c)
    ensures Project(c, v) == if Accepts(c, v) then Some(v) else None
    decreases c
  {
    match c
    case Array(items, minimum, maximum) =>
      if v.ArrayValue? {
        forall i | 0 <= i < |v.items|
          ensures Project(items, v.items[i]) == if Accepts(items, v.items[i]) then Some(v.items[i]) else None
        {
          ObjectFreeView(items, v.items[i]);
        }
        if Project(c, v).Some? {
          assert Project(c, v).value.items == v.items;
        } else if Accepts(c, v) {
          AcceptedIsProjectable(c, v);
        }
      }
    case Union(variants) =>
      forall i | 0 <= i < |variants|
        ensures Project(variants[i], v) == if Accepts(variants[i], v) then Some(v) else None
      {
        ObjectFreeView(variants[i], v);
      }
    case _ =>
  }

  lemma {:induction false} ObjectFreeMerge(c: Contract, stored: Option<Value>, r: Value)
    requires ObjectFree(c) && Accepts(c, r)
    ensures Merge(c, stored, r) == r
    decreases c
  {
    match c
    case Array(items, minimum, maximum) =>
      forall i | 0 <= i < |r.items| ensures Merge(items, Item(stored, i), r.items[i]) == r.items[i] {
        ObjectFreeMerge(items, Item(stored, i), r.items[i]);
      }
      assert Merge(c, stored, r).items == r.items;
    case Union(variants) =>
      ObjectFreeMerge(variants[FirstAccepting(variants, r)], stored, r);
    case _ =>
  }

  lemma {:induction false} ObjectFreeIsUnshadowed(c: Contract, stored: Option<Value>, r: Value)
    requires ObjectFree(c) && Accepts(c, r)
    ensures Unshadowed(c, stored, r)
  {
    ObjectFreeMerge(c, stored, r);
    ObjectFreeView(c, r);
    ReadAfterReplace(c, stored, r);
  }

  lemma {:induction false} ObjectFreeIsSettled(c: Contract, v: Value)
    requires ObjectFree(c) && Project(c, v).Some?
    ensures Settled(c, v)
  {
    ObjectFreeView(c, v);
    ObjectFreeMerge(c, Some(v), v);
    ReplaceByView(c, v);
  }

  lemma {:induction false} FlatIsUnshadowed(c: Contract, stored: Option<Value>, r: Value)
    requires Flat(c) && Accepts(c, r)
    ensures Unshadowed(c, stored, r)
    decreases c
  {
    match c
    case Object(fields, optional) =>
      forall k | k in r.entries ensures Unshadowed(fields[k], Field(stored, k), r.entries[k]) {
        FlatIsUnshadowed(fields[k], Field(stored, k), r.entries[k]);
      }
    case Array(items, minimum, maximum) =>
      forall i | 0 <= i < |r.items| ensures Unshadowed(items, Item(stored, i), r.items[i]) {
        FlatIsUnshadowed(items, Item(stored, i), r.items[i]);
      }
    case Union(variants) => ObjectFreeIsUnshadowed(c, stored, r);
    case _ =>
  }

  lemma {:induction false} FlatIsSettled(c: Contract, v: Value)
    requires Flat(c) && Project(c, v).Some?
    ensures Settled(c, v)
    decreases c
  {
    match c
    case Object(fields, optional) =>
      forall k | k in fields && k in v.entries ensures Settled(fields[k], v.entries[k]) {
        FlatIsSettled(fields[k], v.entries[k]);
      }
    case Array(items, minimum, maximum) =>
      forall i | 0 <= i < |v.items| ensures Settled(items, v.items[i]) {
        FlatIsSettled(items, v.items[i]);
      }
    case Union(variants) => ObjectFreeIsSettled(c, v);
    case _ =>
  }

  /** Both lens laws, for every stored value and every valid replacement. */
  lemma FlatContractsAreLenses(c: Contract, stored: Value, r: Value)
    requires Flat(c) && Accepts(c, r)
    ensures Project(c, Merge(c, Some(stored), r)) == Some(r)
    ensures Project(c, stored).Some? ==> Merge(c, Some(stored), Project(c, stored).value) == stored
  {
    FlatIsUnshadowed(c, Some(stored), r);
    ReadAfterReplace(c, Some(stored), r);
    if Project(c, stored).Some? {
      FlatIsSettled(c, stored);
      ReplaceByView(c, stored);
    }
  }

  // ---------------------------------------------------------------- where the lens laws fail

  const A: Text := [97]
  const B: Text := [98]

  /** Two object variants; the first hides field `b` of a value written through the second. */
  lemma ShadowingVariant(narrow: Contract, wide: Contract, r: Value)
    requires narrow == Object(map[A := Null], {}) && wide == Object(map[A := Null, B := Null], {})
    requires r == ObjectValue(map[A := NullValue, B := NullValue])
    ensures Accepts(Union([narrow, wide]), r)
    ensures Project(Union([narrow, wide]), Merge(Union([narrow, wide]), Some(r), r)) ==
      Some(ObjectValue(map[A := NullValue]))
  {
    WideRewrite(wide, r);
    assert B in r.entries && B !in narrow.fields;
    SecondVariantWrites(narrow, wide, r, r);
    NarrowView(narrow, r);
    FirstVariantReads(narrow, wide, r);
  }

  lemma WideRewrite(wide: Contract, r: Value)
    requires wide == Object(map[A := Null, B := Null], {})
    requires r == ObjectValue(map[A := NullValue, B := NullValue])
    ensures Accepts(wide, r) && Merge(wide, Some(r), r) == r
  {
    assert Merge(wide, Some(r), r).entries == r.entries;
  }

  lemma SecondVariantWrites(first: Contract, second: Contract, stored: Value, r: Value)
    requires !Accepts(first, r) && Accepts(second, r)
    ensures Accepts(Union([first, second]), r)
    ensures Merge(Union([first, second]), Some(stored), r) == Merge(second, Some(stored), r)
  {
    var variants := [first, second];
    assert !Accepts(variants[0], r) && Accepts(variants[1], r);
    UnionMerge(variants, Some(stored), r, 1);
  }

  lemma FirstVariantReads(first: Contract, second: Contract, v: Value)
    requires Project(first, v).Some?
    ensures Project(Union([first, second]), v) == Project(first, v)
  {
    var variants := [first, second];
    assert Project(variants[0], v).Some?;
    UnionView(variants, v, 0);
  }

  /** Writing back the view read by the second variant drops field `b`, which the first one knows. */
  lemma WriteBackDropsField(wide: Contract, narrow: Contract, v: Value)
    requires wide == Object(map[A := Null, B := Null], {B}) && narrow == Object(map[A := Null], {})
    requires v == ObjectValue(map[A := NullValue, B := BooleanValue(true)])
    ensures Project(Union([wide, narrow]), v) == Some(ObjectValue(map[A := NullValue]))
    ensures Merge(Union([wide, narrow]), Some(v), ObjectValue(map[A := NullValue])) == ObjectValue(map[A := NullValue])
  {
    assert Project(wide.fields[B], v.entries[B]).None?;
    UnreadableField(wide, v, B);
    NarrowView(narrow, v);
    SecondVariantReads(wide, narrow, v);
    WideReplace(wide, v);
    FirstVariantWrites(wide, narrow, v, ObjectValue(map[A := NullValue]));
  }

  lemma NarrowView(narrow: Contract, v: Value)
    requires narrow == Object(map[A := Null], {})
    requires v.ObjectValue? && A in v.entries && v.entries[A] == NullValue
    ensures Project(narrow, v) == Some(ObjectValue(map[A := NullValue]))
  {
    assert Project(narrow, v).value.entries == map[A := NullValue];
  }

  lemma WideReplace(wide: Contract, v: Value)
    requires wide == Object(map[A := Null, B := Null], {B})
    requires v == ObjectValue(map[A := NullValue, B := BooleanValue(true)])
    ensures Accepts(wide, ObjectValue(map[A := NullValue]))
    ensures Merge(wide, Some(v), ObjectValue(map[A := NullValue])) == ObjectValue(map[A := NullValue])
  {
    var view := ObjectValue(map[A := NullValue]);
    assert Merge(wide, Some(v), view).entries == view.entries;
  }

  lemma FirstVariantWrites(first: Contract, second: Contract, stored: Value, r: Value)
    requires Accepts(first, r)
    ensures Accepts(Union([first, second]), r)
    ensures Merge(Union([first, second]), Some(stored), r) == Merge(first, Some(stored), r)
  {
    var variants := [first, second];
    assert Accepts(variants[0], r);
    UnionMerge(variants, Some(stored), r, 0);
  }

  lemma SecondVariantReads(first: Contract, second: Contract, v: Value)
    requires Project(first, v).None? && Project(second, v).Some?
    ensures Project(Union([first, second]), v) == Project(second, v)
  {
    var variants := [first, second];
    assert Project(variants[0], v).None? && Project(variants[1], v).Some?;
    UnionView(variants, v, 1);
  }
}
