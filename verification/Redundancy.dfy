/**
 Unions whose alternatives lie inside one another, and what they mean for views: equivalent
 contracts accept the same values, but may read different ones.
 */
module Redundancy {

  import opened Values
  import opened Contracts
  import opened Relations
  import opened Lens
  import opened Definitions

  // ---------------------------------------------------------------- alternatives

  /** What a contract offers once nested unions are taken apart; the contract itself when it is no union. */
  function Alternatives(c: Contract): (r: seq<Contract>)
    ensures forall x :: x in r ==> !x.Union?
    decreases c, 0
  {
    if c.Union? then AllAlternatives(c.variants) else [c]
  }

  function AllAlternatives(variants: seq<Contract>): (r: seq<Contract>)
    ensures forall x :: x in r ==> !x.Union?
    decreases variants, 1
  {
    if variants == [] then [] else Alternatives(variants[0]) + AllAlternatives(variants[1..])
  }

  lemma {:induction false} AlternativeOfVariant(variants: seq<Contract>, x: Contract)
    ensures x in AllAlternatives(variants) <==> exists i :: 0 <= i < |variants| && x in Alternatives(variants[i])
  {
    if variants != [] {
      AlternativeOfVariant(variants[1..], x);
      assert variants == [variants[0]] + variants[1..];
      if x in AllAlternatives(variants[1..]) {
        var i :| 0 <= i < |variants[1..]| && x in Alternatives(variants[1..][i]);
        assert x in Alternatives(variants[i + 1]);
      }
      if i :| 0 <= i < |variants| && x in Alternatives(variants[i]) {
        assert i > 0 ==> x in Alternatives(variants[1..][i - 1]);
      }
    }
  }

  /** The variant of a union that offers one of its alternatives. */
  lemma {:induction false} OfferingVariant(c: Contract, x: Contract) returns (i: nat)
    requires c.Union? && x in Alternatives(c)
    ensures i < |c.variants| && x in Alternatives(c.variants[i])
  {
    AlternativeOfVariant(c.variants, x);
    i :| 0 <= i < |c.variants| && x in Alternatives(c.variants[i]);
  }

  lemma {:induction false} AlternativeIsSmaller(c: Contract, x: Contract)
    requires x in Alternatives(c)
    ensures x == c || x < c
    ensures c.Union? ==> x < c
    decreases c
  {
    if c.Union? {
      var i := OfferingVariant(c, x);
      AlternativeIsSmaller(c.variants[i], x);
      assert c.variants[i] < c;
    }
  }

  /** An alternative is included wherever the whole is. */
  lemma {:induction false} AlternativeInside(c: Contract, x: Contract, b: Contract)
    requires x in Alternatives(c) && Sub(c, b)
    ensures Sub(x, b)
    decreases c
  {
    if c.Union? {
      var i := OfferingVariant(c, x);
      assert b.Any? || Sub(c.variants[i], b);
      assert Sub(c.variants[i], b);
      AlternativeInside(c.variants[i], x, b);
    }
  }

  /** What is included in a contract, and is no union itself, is included in one of its alternatives. */
  lemma {:induction false} InsideAlternative(x: Contract, b: Contract) returns (z: Contract)
    requires Sub(x, b) && !x.Union?
    ensures z in Alternatives(b) && Sub(x, z)
    decreases b
  {
    if b.Union? {
      var i :| 0 <= i < |b.variants| && Sub(x, b.variants[i]);
      z := InsideAlternative(x, b.variants[i]);
      AlternativeOfVariant(b.variants, z);
    } else {
      z := b;
    }
  }

  /** A contract reads what one of its alternatives reads. */
  lemma {:induction false} AlternativeReads(b: Contract, z: Contract, v: Value)
    requires z in Alternatives(b) && Project(z, v).Some?
    ensures Project(b, v).Some?
    decreases b
  {
    if b.Union? {
      var i := OfferingVariant(b, z);
      AlternativeReads(b.variants[i], z, v);
      UnionReads(b, i, v);
    }
  }

  lemma UnionReads(b: Contract, i: nat, v: Value)
    requires b.Union? && i < |b.variants| && Project(b.variants[i], v).Some?
    ensures Project(b, v).Some?
  {
  }

  lemma {:induction false} ReadingAlternative(c: Contract, v: Value) returns (x: Contract)
    requires Project(c, v).Some?
    ensures x in Alternatives(c) && Project(x, v).Some?
    decreases c
  {
    if c.Union? {
      var i := FirstProjecting(c.variants, v);
      x := ReadingAlternative(c.variants[i], v);
      AlternativeOfVariant(c.variants, x);
    } else {
      x := c;
    }
  }

  // ---------------------------------------------------------------- irredundant contracts

  /**
   At every depth, no alternative with objects lies strictly inside another alternative of its
   union. The inclusion check of the compatibility engine decides this.
   */
  predicate Irredundant(c: Contract) {
    match c
    case Object(fields, _) => forall k :: k in fields ==> Irredundant(fields[k])
    case Array(items, _, _) => Irredundant(items)
    case Union(variants) =>
      && (forall i :: 0 <= i < |variants| ==> Irredundant(variants[i]))
      && Incomparable(Alternatives(c))
    case _ => true
  }

  predicate Incomparable(alternatives: seq<Contract>) {
    forall x, y :: x in alternatives && y in alternatives && Sub(x, y) && !ObjectFree(x) ==> Sub(y, x)
  }

  /** One variant with objects strictly inside another is enough to make a union redundant. */
  lemma RedundantVariant(c: Contract, i: nat, j: nat)
    requires c.Union? && i < |c.variants| && j < |c.variants| && !c.variants[i].Union? && !c.variants[j].Union?
    requires Sub(c.variants[i], c.variants[j]) && !Sub(c.variants[j], c.variants[i]) && !ObjectFree(c.variants[i])
    ensures !Irredundant(c)
  {
    AlternativeOfVariant(c.variants, c.variants[i]);
    AlternativeOfVariant(c.variants, c.variants[j]);
  }

  lemma {:induction false} IrredundantAlternative(c: Contract, x: Contract)
    requires Irredundant(c) && x in Alternatives(c)
    ensures Irredundant(x)
    decreases c
  {
    if c.Union? {
      var i := OfferingVariant(c, x);
      IrredundantAlternative(c.variants[i], x);
    }
  }

  lemma {:induction false} ObjectFreeAlternative(c: Contract, x: Contract)
    requires ObjectFree(c) && x in Alternatives(c)
    ensures ObjectFree(x)
    decreases c
  {
    if c.Union? {
      var i := OfferingVariant(c, x);
      ObjectFreeAlternative(c.variants[i], x);
    }
  }

  lemma {:induction false} ObjectFreeIsIrredundant(c: Contract)
    requires ObjectFree(c)
    ensures Irredundant(c)
  {
    match c
    case Array(items, lo, hi) => ObjectFreeIsIrredundant(items);
    case Union(variants) =>
      forall i | 0 <= i < |variants| ensures Irredundant(variants[i]) {
        ObjectFreeIsIrredundant(variants[i]);
      }
      forall x | x in Alternatives(c) ensures ObjectFree(x) {
        ObjectFreeAlternative(c, x);
      }
    case _ =>
  }

  /** Contracts without an object beneath a union are irredundant. */
  lemma {:induction false} FlatIsIrredundant(c: Contract)
    requires Flat(c)
    ensures Irredundant(c)
  {
    match c
    case Object(fields, optional) =>
      forall k | k in fields ensures Irredundant(fields[k]) {
        FlatIsIrredundant(fields[k]);
      }
    case Array(items, lo, hi) => FlatIsIrredundant(items);
    case Union(variants) => ObjectFreeIsIrredundant(c);
    case _ =>
  }

  // ---------------------------------------------------------------- equivalent contracts read alike

  /** Whatever an irredundant contract reads, every equivalent contract reads. */
  lemma {:induction false} EquivalentReads(c: Contract, b: Contract, v: Value)
    requires Irredundant(c) && Equivalent(c, b) && Project(c, v).Some?
    ensures Project(b, v).Some?
    decreases c, b
  {
    if ObjectFree(c) {
      ObjectFreeReads(c, b, v);
    } else if c.Union? || b.Union? {
      var x := ReadingAlternative(c, v);
      if ObjectFree(x) {
        AlternativeInside(c, x, b);
        ObjectFreeReads(x, b, v);
      } else {
        var z := MatchingAlternative(c, b, x);
        AlternativeIsSmaller(c, x);
        AlternativeIsSmaller(b, z);
        IrredundantAlternative(c, x);
        EquivalentReads(x, z, v);
        AlternativeReads(b, z, v);
      }
    } else if c.Object? && b.Object? {
      forall k | k in b.fields && k in v.entries ensures Project(b.fields[k], v.entries[k]).Some? {
        EquivalentReads(c.fields[k], b.fields[k], v.entries[k]);
      }
    } else if c.Array? && b.Array? {
      forall i | 0 <= i < |v.items| ensures Project(b.items, v.items[i]).Some? {
        EquivalentReads(c.items, b.items, v.items[i]);
      }
    }
  }

  /** Without objects reading is accepting, which inclusion keeps. */
  lemma ObjectFreeReads(c: Contract, b: Contract, v: Value)
    requires ObjectFree(c) && Sub(c, b) && Project(c, v).Some?
    ensures Project(b, v).Some?
  {
    ObjectFreeView(c, v);
    SubSound(c, b, v);
    AcceptedIsProjectable(b, v);
  }

  /** An alternative with objects of an irredundant contract has its equal in every equivalent contract. */
  lemma {:induction false} MatchingAlternative(c: Contract, b: Contract, x: Contract) returns (z: Contract)
    requires Irredundant(c) && Equivalent(c, b) && x in Alternatives(c) && !ObjectFree(x)
    ensures z in Alternatives(b) && Equivalent(x, z)
  {
    AlternativeInside(c, x, b);
    z := InsideAlternative(x, b);
    AlternativeInside(b, z, c);
    var y := InsideAlternative(z, c);
    SubTransitive(x, z, y);
    if c.Union? {
      SubTransitive(z, y, x);
    }
  }

  // ---------------------------------------------------------------- the reader that reads least

  /** The maximal contracts of a list: each one not inside a later one, without those inside it. */
  function Pruned(cs: seq<Contract>): (r: seq<Contract>)
    ensures forall x :: x in r ==> x in cs
  {
    if cs == [] then []
    else
      var rest := Pruned(cs[1..]);
      if exists y :: y in rest && Sub(cs[0], y) then rest else [cs[0]] + Outside(rest, cs[0])
  }

  /** Those of a list that do not lie inside `c`. */
  function Outside(cs: seq<Contract>, c: Contract): (r: seq<Contract>)
    ensures forall x :: x in r <==> x in cs && !Sub(x, c)
  {
    if cs == [] then []
    else if Sub(cs[0], c) then Outside(cs[1..], c)
    else [cs[0]] + Outside(cs[1..], c)
  }

  /** No member lies inside another. */
  predicate Antichain(cs: seq<Contract>) {
    forall i, j :: 0 <= i < |cs| && 0 <= j < |cs| && i != j ==> !Sub(cs[i], cs[j])
  }

  lemma {:induction false} OutsideAntichain(cs: seq<Contract>, c: Contract)
    requires Antichain(cs)
    ensures Antichain(Outside(cs, c))
  {
    if cs != [] {
      OutsideAntichain(cs[1..], c);
      var rest := Outside(cs[1..], c);
      forall i | 0 <= i < |rest| ensures !Sub(cs[0], rest[i]) && !Sub(rest[i], cs[0]) {
        assert rest[i] in cs[1..];
      }
    }
  }

  lemma {:induction false} PrunedIsAntichain(cs: seq<Contract>)
    ensures Antichain(Pruned(cs))
  {
    if cs != [] {
      PrunedIsAntichain(cs[1..]);
      OutsideAntichain(Pruned(cs[1..]), cs[0]);
      var kept := Outside(Pruned(cs[1..]), cs[0]);
      forall i | 0 <= i < |kept| ensures !Sub(kept[i], cs[0]) && kept[i] in Pruned(cs[1..]) {
        assert kept[i] in kept;
      }
    }
  }

  /** Every contract of a list lies inside a kept one. */
  lemma {:induction false} PrunedCovers(cs: seq<Contract>, x: Contract) returns (y: Contract)
    requires x in cs
    ensures y in Pruned(cs) && Sub(x, y)
  {
    var rest := Pruned(cs[1..]);
    if x in cs[1..] {
      y := PrunedCovers(cs[1..], x);
      if y !in Pruned(cs) {
        SubTransitive(x, y, cs[0]);
        y := cs[0];
      }
    } else if z :| z in rest && Sub(cs[0], z) {
      y := z;
    } else {
      y := cs[0];
      SubReflexive(y);
    }
  }

  /** A list of alternatives as a contract, in unions of two. */
  function Nested(cs: seq<Contract>): Contract {
    if |cs| == 1 then cs[0] else if cs == [] then Union([]) else Union([cs[0], Nested(cs[1..])])
  }

  lemma {:induction false} NestedAlternatives(cs: seq<Contract>)
    requires forall x :: x in cs ==> !x.Union?
    ensures forall x :: x in Alternatives(Nested(cs)) <==> x in cs
  {
    if |cs| >= 2 {
      NestedAlternatives(cs[1..]);
      var c := Nested(cs);
      forall x ensures x in Alternatives(c) <==> x in cs {
        AlternativeOfVariant(c.variants, x);
        assert x in Alternatives(c) <==> x in Alternatives(c.variants[0]) || x in Alternatives(c.variants[1]);
        assert cs == [cs[0]] + cs[1..];
      }
    }
  }

  /** The contract with every alternative dropped that lies inside another one. */
  function Reduced(c: Contract): Contract
    decreases c, 0
  {
    match c
    case Object(fields, optional) => Object(map k | k in fields :: Reduced(fields[k]), optional)
    case Array(items, lo, hi) => Array(Reduced(items), lo, hi)
    case Union(variants) => Nested(Pruned(ReducedAlternatives(variants)))
    case _ => c
  }

  function ReducedAlternatives(variants: seq<Contract>): (r: seq<Contract>)
    ensures forall x :: x in r ==> !x.Union?
    decreases variants, 1
  {
    if variants == [] then [] else Alternatives(Reduced(variants[0])) + ReducedAlternatives(variants[1..])
  }

  lemma {:induction false} ReducedOfVariant(variants: seq<Contract>, x: Contract)
    ensures x in ReducedAlternatives(variants) <==>
      exists i :: 0 <= i < |variants| && x in Alternatives(Reduced(variants[i]))
  {
    if variants != [] {
      ReducedOfVariant(variants[1..], x);
      assert variants == [variants[0]] + variants[1..];
      if x in ReducedAlternatives(variants[1..]) {
        var i :| 0 <= i < |variants[1..]| && x in Alternatives(Reduced(variants[1..][i]));
        assert x in Alternatives(Reduced(variants[i + 1]));
      }
      if i :| 0 <= i < |variants| && x in Alternatives(Reduced(variants[i])) {
        assert i > 0 ==> x in Alternatives(Reduced(variants[1..][i - 1]));
      }
    }
  }

  /** A contract lies inside whatever contains its alternatives, and each of them lies inside it. */
  lemma {:induction false} InsideByAlternatives(c: Contract, b: Contract)
    requires forall x :: x in Alternatives(c) ==> Sub(x, b)
    ensures Sub(c, b)
    decreases c
  {
    if c.Union? {
      forall i | 0 <= i < |c.variants| ensures Sub(c.variants[i], b) {
        forall x | x in Alternatives(c.variants[i]) ensures x in Alternatives(c) {
          AlternativeOfVariant(c.variants, x);
        }
        InsideByAlternatives(c.variants[i], b);
      }
    } else {
      assert c in Alternatives(c);
    }
  }

  lemma AlternativeInsideWhole(c: Contract, x: Contract)
    requires x in Alternatives(c)
    ensures Sub(x, c)
  {
    SubReflexive(c);
    AlternativeInside(c, x, c);
  }

  lemma {:induction false} ReducedIsEquivalent(c: Contract)
    ensures Equivalent(c, Reduced(c))
    decreases c
  {
    match c
    case Object(fields, optional) =>
      forall k | k in fields ensures Equivalent(fields[k], Reduced(c).fields[k]) {
        ReducedIsEquivalent(fields[k]);
      }
    case Array(items, lo, hi) => ReducedIsEquivalent(items);
    case Union(variants) =>
      forall i | 0 <= i < |variants| ensures Equivalent(variants[i], Reduced(variants[i])) {
        ReducedIsEquivalent(variants[i]);
      }
      UnionInsideReduced(c);
      ReducedInsideUnion(c);
    case _ => SubReflexive(c);
  }

  lemma {:induction false} UnionInsideReduced(c: Contract)
    requires c.Union? && forall i :: 0 <= i < |c.variants| ==> Sub(c.variants[i], Reduced(c.variants[i]))
    ensures Sub(c, Reduced(c))
  {
    var all := ReducedAlternatives(c.variants);
    NestedAlternatives(Pruned(all));
    forall i | 0 <= i < |c.variants| ensures Sub(c.variants[i], Reduced(c)) {
      forall x | x in Alternatives(Reduced(c.variants[i])) ensures Sub(x, Reduced(c)) {
        ReducedOfVariant(c.variants, x);
        var y := PrunedCovers(all, x);
        AlternativeInsideWhole(Reduced(c), y);
        SubTransitive(x, y, Reduced(c));
      }
      InsideByAlternatives(Reduced(c.variants[i]), Reduced(c));
      SubTransitive(c.variants[i], Reduced(c.variants[i]), Reduced(c));
    }
  }

  lemma {:induction false} ReducedInsideUnion(c: Contract)
    requires c.Union? && forall i :: 0 <= i < |c.variants| ==> Sub(Reduced(c.variants[i]), c.variants[i])
    ensures Sub(Reduced(c), c)
  {
    var all := ReducedAlternatives(c.variants);
    NestedAlternatives(Pruned(all));
    forall x | x in Alternatives(Reduced(c)) ensures Sub(x, c) {
      ReducedOfVariant(c.variants, x);
      var i :| 0 <= i < |c.variants| && x in Alternatives(Reduced(c.variants[i]));
      AlternativeInside(Reduced(c.variants[i]), x, c.variants[i]);
      SubVariant(x, c.variants, i);
    }
    InsideByAlternatives(Reduced(c), c);
  }

  lemma {:induction false} ReducedIsIrredundant(c: Contract)
    ensures Irredundant(Reduced(c))
    decreases c
  {
    match c
    case Object(fields, optional) =>
      forall k | k in fields ensures Irredundant(Reduced(c).fields[k]) {
        ReducedIsIrredundant(fields[k]);
      }
    case Array(items, lo, hi) => ReducedIsIrredundant(items);
    case Union(variants) =>
      var kept := Pruned(ReducedAlternatives(variants));
      forall x | x in kept ensures Irredundant(x) {
        ReducedOfVariant(variants, x);
        var i :| 0 <= i < |variants| && x in Alternatives(Reduced(variants[i]));
        ReducedIsIrredundant(variants[i]);
        IrredundantAlternative(Reduced(variants[i]), x);
      }
      PrunedIsAntichain(ReducedAlternatives(variants));
      AntichainIsIrredundant(kept);
    case _ =>
  }

  lemma {:induction false} AntichainIsIrredundant(cs: seq<Contract>)
    requires Antichain(cs) && forall x :: x in cs ==> !x.Union? && Irredundant(x)
    ensures Irredundant(Nested(cs))
  {
    NestedAlternatives(cs);
    forall x, y | x in cs && y in cs && Sub(x, y) ensures x == y {
      var i :| 0 <= i < |cs| && cs[i] == x;
      var j :| 0 <= j < |cs| && cs[j] == y;
    }
    if |cs| >= 2 {
      AntichainIsIrredundant(cs[1..]);
      forall x | x in Alternatives(Nested(cs)) ensures x in cs {
      }
    }
  }

  lemma {:induction false} ReducedIsWellShaped(c: Contract)
    requires WellShaped(c)
    ensures WellShaped(Reduced(c)) && Alternatives(Reduced(c)) != []
    decreases c
  {
    match c
    case Object(fields, optional) =>
      assert Reduced(c).fields.Keys == fields.Keys;
      forall k | k in fields ensures WellShaped(Reduced(c).fields[k]) {
        ReducedIsWellShaped(fields[k]);
      }
    case Array(items, lo, hi) => ReducedIsWellShaped(items);
    case Union(variants) =>
      var all := ReducedAlternatives(variants);
      var kept := Pruned(all);
      forall x | x in kept ensures WellShaped(x) {
        ReducedOfVariant(variants, x);
        var i :| 0 <= i < |variants| && x in Alternatives(Reduced(variants[i]));
        ReducedIsWellShaped(variants[i]);
        WellShapedAlternative(Reduced(variants[i]), x);
      }
      ReducedIsWellShaped(variants[0]);
      assert all[0] in all;
      var some := PrunedCovers(all, all[0]);
      PrunedIsAntichain(all);
      NestedIsWellShaped(kept);
      NestedAlternatives(kept);
    case _ =>
  }

  lemma {:induction false} WellShapedAlternative(c: Contract, x: Contract)
    requires WellShaped(c) && x in Alternatives(c)
    ensures WellShaped(x)
    decreases c
  {
    if c.Union? {
      var i := OfferingVariant(c, x);
      WellShapedAlternative(c.variants[i], x);
    }
  }

  lemma {:induction false} NestedIsWellShaped(cs: seq<Contract>)
    requires cs != [] && Antichain(cs) && forall x :: x in cs ==> !x.Union? && WellShaped(x)
    ensures WellShaped(Nested(cs))
  {
    if |cs| >= 2 {
      NestedIsWellShaped(cs[1..]);
      SubReflexive(cs[0]);
      assert !Sub(cs[0], cs[1]);
    }
  }

  /**
   A value is readable through every valid contract equivalent to `c` exactly when the reduced
   contract reads it: among all equivalent views that one reads the least.
   */
  lemma ReducedReadsLeast(c: Contract, v: Value)
    requires WellShaped(c)
    ensures Project(Reduced(c), v).Some? <==> forall b :: WellShaped(b) && Equivalent(c, b) ==> Project(b, v).Some?
  {
    ReducedIsEquivalent(c);
    ReducedIsIrredundant(c);
    ReducedIsWellShaped(c);
    if Project(Reduced(c), v).Some? {
      forall b | Equivalent(c, b) ensures Project(b, v).Some? {
        EquivalentTransitive(Reduced(c), c, b);
        EquivalentReads(Reduced(c), b, v);
      }
    }
  }
}
