/**
 Exactly when a replacement locks out a coexisting view: for every valid writer there is a contract
 that reads least among all valid views that may share its table.
 */
module LeastViews {

  import opened Values
  import opened Contracts
  import opened Relations
  import opened Coexistence
  import opened Definitions
  import opened Redundancy

  /** Each variant of a union reduced on its own: a coexisting union keeps an equivalent of every variant. */
  function Floor(c: Contract): Contract
    requires c.Union?
  {
    Union(seq(|c.variants|, i requires 0 <= i < |c.variants| => Reduced(c.variants[i])))
  }

  /** What reads least among the views that coexist with the contract. */
  function LeastView(c: Contract): Contract {
    if c.Union? && Reduced(c).Union? then Floor(c) else Reduced(c)
  }

  // ---------------------------------------------------------------- what it reads, every coexisting view reads

  lemma FloorReads(c: Contract, v: Value) returns (i: nat)
    requires c.Union? && Project(Floor(c), v).Some?
    ensures i < |c.variants| && Project(Reduced(c.variants[i]), v).Some?
  {
    i := FirstProjecting(Floor(c).variants, v);
  }

  /** What one reduced variant reads, every union with an equivalent variant reads. */
  lemma MatchReads(writer: Contract, reader: Contract, i: nat, v: Value)
    requires writer.Union? && reader.Union? && VariantsMatch(writer.variants, reader.variants)
    requires i < |writer.variants| && Project(Reduced(writer.variants[i]), v).Some?
    ensures Project(reader, v).Some?
  {
    var variant := writer.variants[i];
    assert HasMatch(variant, reader.variants);
    var j :| 0 <= j < |reader.variants| && Equivalent(variant, reader.variants[j]);
    ReducedReads(variant, reader.variants[j], v);
    UnionReads(reader, j, v);
  }

  lemma ReducedReads(c: Contract, b: Contract, v: Value)
    requires Equivalent(c, b) && Project(Reduced(c), v).Some?
    ensures Project(b, v).Some?
  {
    ReducedIsEquivalent(c);
    ReducedIsIrredundant(c);
    EquivalentTransitive(Reduced(c), c, b);
    EquivalentReads(Reduced(c), b, v);
  }

  /** An alternative of a reduced union is one of a reduced variant. */
  lemma ReducedVariantReads(c: Contract, v: Value) returns (i: nat)
    requires c.Union? && Project(Reduced(c), v).Some?
    ensures i < |c.variants| && Project(Reduced(c.variants[i]), v).Some?
  {
    var x := ReadingAlternative(Reduced(c), v);
    NestedAlternatives(Pruned(ReducedAlternatives(c.variants)));
    ReducedOfVariant(c.variants, x);
    i :| 0 <= i < |c.variants| && x in Alternatives(Reduced(c.variants[i]));
    AlternativeReads(Reduced(c.variants[i]), x, v);
  }

  /** What the reduced writer reads of a replacement, every coexisting view reads. */
  lemma {:induction false} ReducedSuffices(writer: Contract, reader: Contract, stored: Option<Value>, r: Value)
    requires CanCoexist(writer, reader) && Accepts(writer, r)
    requires stored.Some? ==> Project(reader, stored.value).Some?
    requires Project(Reduced(writer), Merge(writer, stored, r)).Some?
    ensures Project(reader, Merge(writer, stored, r)).Some?
    decreases writer, 1
  {
    if stored.None? {
      CoexistReadable(writer, reader, r);
    } else if writer.Object? && reader.Object? {
      ReducedSufficesObject(writer, reader, stored, r);
    } else if writer.Array? && reader.Array? {
      ReducedSufficesArray(writer, reader, stored, r);
    } else if writer.Union? && reader.Union? {
      var i := ReducedVariantReads(writer, Merge(writer, stored, r));
      MatchReads(writer, reader, i, Merge(writer, stored, r));
    } else {
      ReducedReads(writer, reader, Merge(writer, stored, r));
    }
  }

  lemma {:induction false} ReducedSufficesObject(writer: Contract, reader: Contract, stored: Option<Value>, r: Value)
    requires writer.Object? && reader.Object? && stored.Some?
    requires CanCoexist(writer, reader) && Accepts(writer, r) && Project(reader, stored.value).Some?
    requires Project(Reduced(writer), Merge(writer, stored, r)).Some?
    ensures Project(reader, Merge(writer, stored, r)).Some?
    decreases writer, 0
  {
    var merged := Merge(writer, stored, r).entries;
    forall k | k in reader.fields
      ensures if k in merged then Project(reader.fields[k], merged[k]).Some? else k in reader.optional
    {
      if k in writer.fields && k in merged {
        ReducedField(writer, Merge(writer, stored, r), k);
        ReducedSuffices(writer.fields[k], reader.fields[k], Field(stored, k), r.entries[k]);
      }
    }
  }

  lemma ReducedField(c: Contract, v: Value, k: Text)
    requires c.Object? && Project(Reduced(c), v).Some? && k in c.fields && k in v.entries
    ensures Project(Reduced(c.fields[k]), v.entries[k]).Some?
  {
    assert Reduced(c).fields[k] == Reduced(c.fields[k]);
  }

  lemma {:induction false} ReducedSufficesArray(writer: Contract, reader: Contract, stored: Option<Value>, r: Value)
    requires writer.Array? && reader.Array? && stored.Some?
    requires CanCoexist(writer, reader) && Accepts(writer, r) && Project(reader, stored.value).Some?
    requires Project(Reduced(writer), Merge(writer, stored, r)).Some?
    ensures Project(reader, Merge(writer, stored, r)).Some?
    decreases writer, 0
  {
    var merged := Merge(writer, stored, r).items;
    forall i | 0 <= i < |r.items| ensures Project(reader.items, merged[i]).Some? {
      assert merged[i] == Merge(writer.items, Item(stored, i), r.items[i]);
      assert Project(Reduced(writer).items, merged[i]).Some?;
      ReducedSuffices(writer.items, reader.items, Item(stored, i), r.items[i]);
    }
  }

  /** A union equivalent to something that is none has one maximal alternative. */
  lemma SingleAlternative(c: Contract, b: Contract)
    requires c.Union? && Equivalent(c, b) && !b.Union?
    ensures !Reduced(c).Union?
  {
    var kept := Pruned(ReducedAlternatives(c.variants));
    ReducedIsEquivalent(c);
    EquivalentTransitive(b, c, Reduced(c));
    NestedAlternatives(kept);
    PrunedIsAntichain(ReducedAlternatives(c.variants));
    var y := InsideAlternative(b, Reduced(c));
    forall i | 0 <= i < |kept| ensures kept[i] == y {
      AlternativeInside(Reduced(c), kept[i], b);
      SubTransitive(kept[i], b, y);
      var j :| 0 <= j < |kept| && kept[j] == y;
    }
    SameMembers(kept);
  }

  lemma SameMembers(cs: seq<Contract>)
    requires cs != [] && Antichain(cs) && forall i :: 0 <= i < |cs| ==> cs[i] == cs[0] && !cs[i].Union?
    ensures !Nested(cs).Union?
  {
    if |cs| >= 2 {
      var first, second := cs[0], cs[1];
      SubReflexive(first);
      assert false;
    }
  }

  /** If the least view reads what a replacement leaves, every coexisting view that could read before still can. */
  lemma LeastSuffices(writer: Contract, reader: Contract, stored: Option<Value>, r: Value)
    requires CanCoexist(writer, reader) && Accepts(writer, r)
    requires stored.Some? ==> Project(reader, stored.value).Some?
    requires Project(LeastView(writer), Merge(writer, stored, r)).Some?
    ensures Project(reader, Merge(writer, stored, r)).Some?
  {
    if writer.Union? && Reduced(writer).Union? {
      if !reader.Union? {
        SingleAlternative(writer, reader);
      }
      var i := FloorReads(writer, Merge(writer, stored, r));
      MatchReads(writer, reader, i, Merge(writer, stored, r));
    } else {
      ReducedSuffices(writer, reader, stored, r);
    }
  }

  /** The least view reads whatever the writer may insert. */
  lemma AcceptedIsLeastReadable(writer: Contract, v: Value)
    requires Accepts(writer, v)
    ensures Project(LeastView(writer), v).Some?
  {
    if writer.Union? && Reduced(writer).Union? {
      var i := FirstAccepting(writer.variants, v);
      ReducedReadsAccepted(writer.variants[i], v);
      FloorReadsVariant(writer, i, v);
    } else {
      ReducedReadsAccepted(writer, v);
    }
  }

  lemma ReducedReadsAccepted(c: Contract, v: Value)
    requires Accepts(c, v)
    ensures Project(Reduced(c), v).Some?
  {
    ReducedIsEquivalent(c);
    SubSound(c, Reduced(c), v);
    AcceptedIsProjectable(Reduced(c), v);
  }

  // ---------------------------------------------------------------- tighter contracts

  /** A union or an optional field somewhere: something to leave out or to demand. */
  predicate HasSlack(c: Contract) {
    match c
    case Object(fields, optional) => exists k :: k in fields && (k in optional || HasSlack(fields[k]))
    case Array(items, _, _) => HasSlack(items)
    case Union(_) => true
    case _ => false
  }

  ghost predicate ReadsNoMore(x: Contract, c: Contract) {
    forall v :: Project(x, v).Some? ==> Project(c, v).Some?
  }

  /** Another valid contract inside `r` that reads no more. */
  ghost predicate Inside(x: Contract, r: Contract) {
    WellShaped(r) && WellShaped(x) && Sub(x, r) && x != r && ReadsNoMore(x, r)
  }

  /** A valid contract with slack contains another one that reads no more. */
  lemma {:induction false} Tighter(c: Contract) returns (x: Contract)
    requires WellShaped(c) && HasSlack(c)
    ensures Inside(x, c)
    decreases c
  {
    match c
    case Object(fields, optional) =>
      var k :| k in fields && (k in optional || HasSlack(fields[k]));
      if k in optional {
        x := DemandField(c, k);
      } else {
        var inner := Tighter(fields[k]);
        x := TightenField(c, k, inner);
      }
    case Array(items, lo, hi) =>
      var inner := Tighter(items);
      x := Array(inner, lo, hi);
      ItemsReadNoMore(x, c);
    case Union(variants) => x := FirstOnly(c);
  }

  lemma DemandField(c: Contract, k: Text) returns (x: Contract)
    requires c.Object? && WellShaped(c) && k in c.optional
    ensures Inside(x, c)
  {
    x := Object(c.fields, c.optional - {k});
    FieldsInside(x, c);
  }

  lemma TightenField(c: Contract, k: Text, inner: Contract) returns (x: Contract)
    requires c.Object? && WellShaped(c) && k in c.fields && Inside(inner, c.fields[k])
    ensures Inside(x, c)
  {
    x := Object(c.fields[k := inner], c.optional);
    assert x.fields[k] != c.fields[k] && x.fields.Keys == c.fields.Keys;
    FieldsInside(x, c);
  }

  lemma FieldsInside(x: Contract, c: Contract)
    requires x.Object? && c.Object? && x.fields.Keys == c.fields.Keys && x.optional <= c.optional && x != c
    requires WellShaped(c)
    requires forall k :: k in c.fields ==> x.fields[k] == c.fields[k] || Inside(x.fields[k], c.fields[k])
    ensures Inside(x, c)
  {
    SubFields(x, c);
    FieldsReadNoMore(x, c);
    FieldsAreWellShaped(x, c);
  }

  lemma FieldsAreWellShaped(x: Contract, c: Contract)
    requires x.Object? && c.Object? && x.fields.Keys == c.fields.Keys && x.optional <= c.optional && WellShaped(c)
    requires forall k :: k in c.fields ==> x.fields[k] == c.fields[k] || WellShaped(x.fields[k])
    ensures WellShaped(x)
  {
    assert |x.fields| == |x.fields.Keys| == |c.fields|;
  }

  lemma FirstOnly(c: Contract) returns (x: Contract)
    requires c.Union? && WellShaped(c)
    ensures Inside(x, c)
  {
    x := c.variants[0];
    assert x < c;
    SubReflexive(x);
    SubVariant(x, c.variants, 0);
    forall v | Project(x, v).Some? ensures Project(c, v).Some? {
      UnionReads(c, 0, v);
    }
  }

  lemma SubFields(x: Contract, c: Contract)
    requires x.Object? && c.Object? && x.fields.Keys == c.fields.Keys && x.optional <= c.optional
    requires forall k :: k in c.fields ==> x.fields[k] == c.fields[k] || Sub(x.fields[k], c.fields[k])
    ensures Sub(x, c)
  {
    forall k | k in c.fields ensures Sub(x.fields[k], c.fields[k]) {
      SubReflexive(c.fields[k]);
    }
  }

  lemma FieldsReadNoMore(x: Contract, c: Contract)
    requires x.Object? && c.Object? && x.fields.Keys == c.fields.Keys && x.optional <= c.optional
    requires forall k :: k in c.fields ==> x.fields[k] == c.fields[k] || ReadsNoMore(x.fields[k], c.fields[k])
    ensures ReadsNoMore(x, c)
  {
    forall v | Project(x, v).Some? ensures Project(c, v).Some? {
      forall k | k in c.fields
        ensures if k in v.entries then Project(c.fields[k], v.entries[k]).Some? else k in c.optional
      {
        assert k in v.entries ==> Project(x.fields[k], v.entries[k]).Some?;
      }
    }
  }

  lemma ItemsReadNoMore(x: Contract, c: Contract)
    requires x.Array? && c.Array? && x == c.(items := x.items) && ReadsNoMore(x.items, c.items)
    ensures ReadsNoMore(x, c)
  {
    forall v | Project(x, v).Some? ensures Project(c, v).Some? {
      forall i | 0 <= i < |v.items| ensures Project(c.items, v.items[i]).Some? {
        assert Project(x.items, v.items[i]).Some?;
      }
    }
  }

  /** What lies inside a contract without slack reads no more. */
  lemma {:induction false} InsideReads(d: Contract, c: Contract, v: Value)
    requires Sub(d, c) && !HasSlack(c) && Project(d, v).Some?
    ensures Project(c, v).Some?
    decreases d, c
  {
    if c.Any? {
    } else if d.Union? {
      InsideReads(d.variants[FirstProjecting(d.variants, v)], c, v);
    } else if d.Object? {
      forall k | k in c.fields
        ensures k in v.entries && Project(c.fields[k], v.entries[k]).Some?
      {
        InsideReads(d.fields[k], c.fields[k], v.entries[k]);
      }
    } else if d.Array? {
      forall i | 0 <= i < |v.items| ensures Project(c.items, v.items[i]).Some? {
        InsideReads(d.items, c.items, v.items[i]);
      }
    } else {
      ObjectFreeReads(d, c, v);
    }
  }

  // ---------------------------------------------------------------- the view that is locked out

  /** Without slack the reduced contract coexists with the contract. */
  lemma {:induction false} ReducedShares(c: Contract)
    requires !HasSlack(Reduced(c))
    ensures CanCoexist(c, Reduced(c)) && CanCoexist(Reduced(c), c)
    decreases c
  {
    match c
    case Object(fields, optional) =>
      forall k | k in fields
        ensures CanCoexist(fields[k], Reduced(c).fields[k]) && CanCoexist(Reduced(c).fields[k], fields[k])
      {
        assert !HasSlack(Reduced(c).fields[k]);
        ReducedShares(fields[k]);
      }
    case Array(items, lo, hi) => ReducedShares(items);
    case _ => ReducedIsEquivalent(c);
  }

  /** Reads what `r` reads, coexists where the contract is no union, and is valid. */
  lemma PairedView(c: Contract, r: Contract, x: Contract) returns (b: Contract)
    requires !c.Union? && Equivalent(c, r) && Inside(x, r)
    ensures WellShaped(b) && CanCoexist(c, b) && CanCoexist(b, c)
    ensures forall v :: Project(b, v).Some? <==> Project(r, v).Some?
  {
    var both := [r, x];
    b := Union(both);
    PairIsEquivalent(r, x);
    EquivalentTransitive(c, r, b);
    PairReads(r, x);
  }

  lemma PairIsEquivalent(r: Contract, x: Contract)
    requires Sub(x, r)
    ensures Equivalent(r, Union([r, x]))
  {
    SubReflexive(r);
    SubVariant(r, [r, x], 0);
  }

  lemma PairReads(r: Contract, x: Contract)
    requires ReadsNoMore(x, r)
    ensures forall v :: Project(Union([r, x]), v).Some? <==> Project(r, v).Some?
  {
    var b := Union([r, x]);
    forall v ensures Project(b, v).Some? <==> Project(r, v).Some? {
      if Project(r, v).Some? {
        UnionReads(b, 0, v);
      }
      if Project(b, v).Some? {
        var i := FirstProjecting(b.variants, v);
        assert Project(b.variants[i], v).Some?;
      }
    }
  }

  /** A valid view that coexists and reads like the reduced contract, where that is not a union of several. */
  lemma ReducedView(c: Contract) returns (b: Contract)
    requires WellShaped(c) && (c.Union? ==> !Reduced(c).Union?)
    ensures WellShaped(b) && CanCoexist(c, b) && CanCoexist(b, c)
    ensures forall v :: Project(b, v).Some? <==> Project(Reduced(c), v).Some?
  {
    ReducedIsWellShaped(c);
    ReducedIsEquivalent(c);
    if c.Union? {
      b := Reduced(c);
    } else if HasSlack(Reduced(c)) {
      var x := Tighter(Reduced(c));
      b := PairedView(c, Reduced(c), x);
    } else {
      ReducedShares(c);
      b := Reduced(c);
    }
  }

  // ---------------------------------------------------------------- unions of several maximal alternatives

  /** No earlier variant is equivalent. */
  predicate IsFirst(variants: seq<Contract>, i: nat)
    requires i < |variants|
  {
    forall j :: 0 <= j < i ==> !Equivalent(variants[j], variants[i])
  }

  /** The first variant of the class of a variant. */
  lemma {:induction false} FirstOfClass(variants: seq<Contract>, i: nat) returns (f: nat)
    requires i < |variants|
    ensures f <= i && IsFirst(variants, f) && Equivalent(variants[f], variants[i])
    decreases i
  {
    if IsFirst(variants, i) {
      f := i;
      SubReflexive(variants[i]);
    } else {
      var j :| 0 <= j < i && Equivalent(variants[j], variants[i]);
      f := FirstOfClass(variants, j);
      EquivalentTransitive(variants[f], variants[j], variants[i]);
    }
  }

  /** The contract with the tighter one added `n` times over: as many different contracts of one meaning as needed. */
  function Tower(r: Contract, x: Contract, n: nat): Contract {
    if n == 0 then r else Union([Tower(r, x, n - 1), x])
  }

  lemma {:induction false} TowerGrows(r: Contract, x: Contract, m: nat, n: nat)
    requires m < n
    ensures Tower(r, x, m) < Tower(r, x, n)
    decreases n
  {
    var top := Tower(r, x, n);
    assert top.variants[0] == Tower(r, x, n - 1) && top.variants[0] < top;
    if m < n - 1 {
      TowerGrows(r, x, m, n - 1);
    }
  }

  lemma {:induction false} TowerStands(r: Contract, x: Contract, n: nat)
    requires Inside(x, r)
    ensures WellShaped(Tower(r, x, n)) && Equivalent(r, Tower(r, x, n)) && Tower(r, x, n) != x
    ensures ReadsNoMore(Tower(r, x, n), r)
  {
    if n == 0 {
      SubReflexive(r);
    } else {
      var below := Tower(r, x, n - 1);
      TowerStands(r, x, n - 1);
      SubTransitive(x, r, below);
      PairIsEquivalent(below, x);
      EquivalentTransitive(r, below, Tower(r, x, n));
      PairIsWellShaped(below, x);
      PairReadsNoMore(below, x, r);
      assert Tower(r, x, n).variants[1] == x && x < Tower(r, x, n);
    }
  }

  lemma PairIsWellShaped(a: Contract, b: Contract)
    requires WellShaped(a) && WellShaped(b) && a != b
    ensures WellShaped(Union([a, b]))
  {
  }

  lemma PairReadsNoMore(a: Contract, b: Contract, c: Contract)
    requires ReadsNoMore(a, c) && ReadsNoMore(b, c)
    ensures ReadsNoMore(Union([a, b]), c)
  {
    var pair := Union([a, b]);
    forall v | Project(pair, v).Some? ensures Project(c, v).Some? {
      var i := FirstProjecting(pair.variants, v);
      assert Project(pair.variants[i], v).Some?;
    }
  }

  lemma TowersDiffer(r: Contract, x: Contract, m: nat, n: nat)
    requires m != n
    ensures Tower(r, x, m) != Tower(r, x, n)
  {
    if m < n {
      TowerGrows(r, x, m, n);
    } else {
      TowerGrows(r, x, n, m);
    }
  }

  /** The variant that slot `i` stands for: its own where that is the first of its class, else `c`. */
  function Base(variants: seq<Contract>, c: nat, i: nat): nat
    requires i < |variants|
  {
    if IsFirst(variants, i) then i else c
  }

  /** How high the tower in slot `i` is. */
  function Level(variants: seq<Contract>, i: nat): nat
    requires i < |variants|
  {
    if IsFirst(variants, i) then 0 else i + 1
  }

  /** One least variant for each class of equivalent variants, and towers over one of them in the other places. */
  function Slots(variants: seq<Contract>, c: nat, x: Contract): (slots: seq<Contract>)
    requires c < |variants|
    ensures |slots| == |variants|
  {
    seq(|variants|, i requires 0 <= i < |variants| =>
      Tower(Reduced(variants[Base(variants, c, i)]), x, Level(variants, i)))
  }

  /** The slot is valid, equivalent to the variant, and reads no more than the reduced variant. */
  ghost predicate StandsFor(slot: Contract, variant: Contract) {
    WellShaped(slot) && Equivalent(variant, slot) && ReadsNoMore(slot, Reduced(variant))
  }

  lemma SlotStands(variants: seq<Contract>, c: nat, x: Contract, i: nat)
    requires c < |variants| && i < |variants| && WellShaped(variants[i]) && Inside(x, Reduced(variants[c]))
    ensures StandsFor(Slots(variants, c, x)[i], variants[Base(variants, c, i)])
  {
    if IsFirst(variants, i) {
      ReducedStands(variants[i]);
    } else {
      TowerStandsFor(variants[c], x, i + 1);
    }
  }

  lemma ReducedStands(c: Contract)
    requires WellShaped(c)
    ensures StandsFor(Reduced(c), c)
  {
    ReducedIsWellShaped(c);
    ReducedIsEquivalent(c);
  }

  lemma TowerStandsFor(c: Contract, x: Contract, n: nat)
    requires Inside(x, Reduced(c))
    ensures StandsFor(Tower(Reduced(c), x, n), c)
  {
    ReducedIsEquivalent(c);
    TowerStands(Reduced(c), x, n);
    EquivalentTransitive(c, Reduced(c), Tower(Reduced(c), x, n));
  }

  lemma SlotsDiffer(variants: seq<Contract>, c: nat, x: Contract, i: nat, j: nat)
    requires c < |variants| && i < |variants| && j < |variants| && i != j && IsFirst(variants, c)
    requires WellShaped(variants[i]) && WellShaped(variants[j]) && Inside(x, Reduced(variants[c]))
    ensures Slots(variants, c, x)[i] != Slots(variants, c, x)[j]
  {
    var a, b := Base(variants, c, i), Base(variants, c, j);
    if a == b {
      TowersDiffer(Reduced(variants[a]), x, Level(variants, i), Level(variants, j));
    } else {
      SlotStands(variants, c, x, i);
      SlotStands(variants, c, x, j);
      FirstsDiffer(variants, a, b);
      MeaningsDiffer(variants[a], variants[b], Slots(variants, c, x)[i], Slots(variants, c, x)[j]);
    }
  }

  lemma FirstsDiffer(variants: seq<Contract>, a: nat, b: nat)
    requires a < |variants| && b < |variants| && a != b && IsFirst(variants, a) && IsFirst(variants, b)
    ensures !Equivalent(variants[a], variants[b])
  {
  }

  lemma MeaningsDiffer(a: Contract, b: Contract, left: Contract, right: Contract)
    requires !Equivalent(a, b) && Equivalent(a, left) && Equivalent(b, right)
    ensures left != right
  {
    if left == right {
      EquivalentTransitive(a, left, b);
    }
  }

  lemma SlotsMatch(variants: seq<Contract>, c: nat, x: Contract)
    requires c < |variants| && IsFirst(variants, c) && Inside(x, Reduced(variants[c]))
    requires forall k :: 0 <= k < |variants| ==> WellShaped(variants[k])
    ensures VariantsMatch(variants, Slots(variants, c, x)) && VariantsMatch(Slots(variants, c, x), variants)
  {
    var slots := Slots(variants, c, x);
    forall i | 0 <= i < |variants| ensures HasMatch(variants[i], slots) && HasMatch(slots[i], variants) {
      var f := FirstOfClass(variants, i);
      SlotStands(variants, c, x, f);
      EquivalentTransitive(variants[i], variants[f], slots[f]);
      SlotStands(variants, c, x, i);
      assert Equivalent(slots[i], variants[Base(variants, c, i)]);
    }
  }

  lemma SlotsReadFloor(w: Contract, c: nat, x: Contract, v: Value)
    requires w.Union? && c < |w.variants| && IsFirst(w.variants, c) && Inside(x, Reduced(w.variants[c]))
    requires forall k :: 0 <= k < |w.variants| ==> WellShaped(w.variants[k])
    requires Project(Floor(w), v).Some?
    ensures Project(Union(Slots(w.variants, c, x)), v).Some?
  {
    var i := FloorReads(w, v);
    SlotsMatch(w.variants, c, x);
    MatchReads(w, Union(Slots(w.variants, c, x)), i, v);
  }

  lemma FloorReadsSlots(w: Contract, c: nat, x: Contract, v: Value)
    requires w.Union? && c < |w.variants| && Inside(x, Reduced(w.variants[c]))
    requires forall k :: 0 <= k < |w.variants| ==> WellShaped(w.variants[k])
    requires Project(Union(Slots(w.variants, c, x)), v).Some?
    ensures Project(Floor(w), v).Some?
  {
    var slots := Slots(w.variants, c, x);
    var i := ReadingVariant(slots, v);
    SlotStands(w.variants, c, x, i);
    FloorReadsVariant(w, Base(w.variants, c, i), v);
  }

  lemma ReadingVariant(variants: seq<Contract>, v: Value) returns (i: nat)
    requires Project(Union(variants), v).Some?
    ensures i < |variants| && Project(variants[i], v).Some?
  {
    i := FirstProjecting(variants, v);
  }

  lemma FloorReadsVariant(w: Contract, i: nat, v: Value)
    requires w.Union? && i < |w.variants| && Project(Reduced(w.variants[i]), v).Some?
    ensures Project(Floor(w), v).Some?
  {
    assert Floor(w).variants[i] == Reduced(w.variants[i]);
    UnionReads(Floor(w), i, v);
  }

  /** A valid view that coexists and reads like the floor, given slack in the first variant of some class. */
  lemma FloorView(w: Contract, c: nat) returns (b: Contract)
    requires w.Union? && WellShaped(w) && c < |w.variants| && IsFirst(w.variants, c)
    requires HasSlack(Reduced(w.variants[c]))
    ensures WellShaped(b) && CanCoexist(w, b) && CanCoexist(b, w)
    ensures forall v :: Project(b, v).Some? <==> Project(Floor(w), v).Some?
  {
    ReducedIsWellShaped(w.variants[c]);
    var x := Tighter(Reduced(w.variants[c]));
    b := Union(Slots(w.variants, c, x));
    SlotsAreWellShaped(w, c, x);
    SlotsMatch(w.variants, c, x);
    forall v ensures Project(b, v).Some? <==> Project(Floor(w), v).Some? {
      if Project(b, v).Some? {
        FloorReadsSlots(w, c, x, v);
      } else if Project(Floor(w), v).Some? {
        SlotsReadFloor(w, c, x, v);
      }
    }
  }

  lemma SlotsAreWellShaped(w: Contract, c: nat, x: Contract)
    requires w.Union? && WellShaped(w) && c < |w.variants| && IsFirst(w.variants, c)
    requires Inside(x, Reduced(w.variants[c]))
    ensures WellShaped(Union(Slots(w.variants, c, x)))
  {
    var slots := Slots(w.variants, c, x);
    forall i | 0 <= i < |slots| ensures WellShaped(slots[i]) {
      SlotStands(w.variants, c, x, i);
    }
    forall i, j | 0 <= i < j < |slots| ensures slots[i] != slots[j] {
      SlotsDiffer(w.variants, c, x, i, j);
    }
  }

  /** Without such slack the floor reads all that the contract reads. */
  lemma FloorReadsAll(w: Contract, v: Value)
    requires w.Union? && Project(w, v).Some?
    requires forall c :: 0 <= c < |w.variants| && IsFirst(w.variants, c) ==> !HasSlack(Reduced(w.variants[c]))
    ensures Project(Floor(w), v).Some?
  {
    var i := FirstProjecting(w.variants, v);
    var f := FirstOfClass(w.variants, i);
    ReducedIsEquivalent(w.variants[f]);
    SubTransitive(w.variants[i], w.variants[f], Reduced(w.variants[f]));
    InsideReads(w.variants[i], Reduced(w.variants[f]), v);
    FloorReadsVariant(w, f, v);
  }

  // ---------------------------------------------------------------- the exact condition

  /** A valid view that shares the table with the writer and could read the document before. */
  predicate Shares(writer: Contract, reader: Contract, stored: Value) {
    WellShaped(reader) && CanCoexist(writer, reader) && CanCoexist(reader, writer) && Project(reader, stored).Some?
  }

  /** Where the least view cannot read what a replacement leaves, some valid coexisting view is locked out. */
  lemma LockedOutView(writer: Contract, stored: Value, r: Value) returns (reader: Contract)
    requires WellShaped(writer) && Accepts(writer, r) && Project(LeastView(writer), stored).Some?
    requires Project(LeastView(writer), Merge(writer, Some(stored), r)).None?
    ensures Shares(writer, reader, stored) && Project(reader, Merge(writer, Some(stored), r)).None?
  {
    if writer.Union? && Reduced(writer).Union? {
      MergedIsProjectable(writer, Some(stored), r);
      var variants := writer.variants;
      if forall c :: 0 <= c < |variants| && IsFirst(variants, c) ==> !HasSlack(Reduced(variants[c])) {
        FloorReadsAll(writer, Merge(writer, Some(stored), r));
      }
      var c :| 0 <= c < |variants| && IsFirst(variants, c) && HasSlack(Reduced(variants[c]));
      reader := FloorView(writer, c);
    } else {
      reader := ReducedView(writer);
    }
  }

  /**
   For every valid writer and every valid replacement of a document that the least view reads: all
   valid views that coexist in both argument orders and read the document still read it afterwards,
   if and only if the least view does.
   */
  lemma LockOutIsExact(writer: Contract, stored: Value, r: Value)
    requires WellShaped(writer) && Accepts(writer, r) && Project(LeastView(writer), stored).Some?
    ensures Project(LeastView(writer), Merge(writer, Some(stored), r)).Some? <==>
            forall reader :: Shares(writer, reader, stored) ==> Project(reader, Merge(writer, Some(stored), r)).Some?
  {
    if Project(LeastView(writer), Merge(writer, Some(stored), r)).Some? {
      forall reader | Shares(writer, reader, stored) ensures Project(reader, Merge(writer, Some(stored), r)).Some? {
        LeastSuffices(writer, reader, Some(stored), r);
      }
    } else {
      var reader := LockedOutView(writer, stored, r);
    }
  }
}
