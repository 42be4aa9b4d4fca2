/** When two Release views may share one Environment, and when that decision is symmetric. */
module Coexistence {

  import opened Values
  import opened Contracts
  import opened Relations
  import opened Definitions

  predicate HasMatch(c: Contract, variants: seq<Contract>) {
    exists j :: 0 <= j < |variants| && Equivalent(c, variants[j])
  }

  /** Every left variant has an equivalent right variant. */
  predicate VariantsMatch(left: seq<Contract>, right: seq<Contract>) {
    forall i :: 0 <= i < |left| ==> HasMatch(left[i], right)
  }

  predicate CanCoexist(left: Contract, right: Contract)
    decreases left
  {
    if left.Object? && right.Object? then
      && (forall k :: k in left.fields ==>
            if k in right.fields then
              (k in left.optional <==> k in right.optional) && CanCoexist(left.fields[k], right.fields[k])
            else k in left.optional)
      && (forall k :: k in right.fields ==> k in left.fields || k in right.optional)
    else if left.Array? && right.Array? then
      && left.minimumItems == right.minimumItems && left.maximumItems == right.maximumItems
      && CanCoexist(left.items, right.items)
    else if left.Union? && right.Union? then
      |left.variants| == |right.variants| && VariantsMatch(left.variants, right.variants)
    else Equivalent(left, right)
  }

  /** Whatever the left view accepts, the right view can read. */
  lemma {:induction false} CoexistReadable(left: Contract, right: Contract, v: Value)
    requires CanCoexist(left, right) && Accepts(left, v)
    ensures Project(right, v).Some?
    decreases left
  {
    if left.Object? && right.Object? {
      forall k | k in right.fields && k in v.entries ensures Project(right.fields[k], v.entries[k]).Some? {
        CoexistReadable(left.fields[k], right.fields[k], v.entries[k]);
      }
    } else if left.Array? && right.Array? {
      forall i | 0 <= i < |v.items| ensures Project(right.items, v.items[i]).Some? {
        CoexistReadable(left.items, right.items, v.items[i]);
      }
    } else if left.Union? && right.Union? {
      var i := FirstAccepting(left.variants, v);
      assert HasMatch(left.variants[i], right.variants);
      var j :| 0 <= j < |right.variants| && Equivalent(left.variants[i], right.variants[j]);
      SubSound(left.variants[i], right.variants[j], v);
      AcceptedIsProjectable(right, v);
    } else {
      SubSound(left, right, v);
      AcceptedIsProjectable(right, v);
    }
  }

  lemma {:induction false} CoexistReflexive(c: Contract)
    ensures CanCoexist(c, c)
  {
    match c
    case Object(fields, optional) =>
      forall k | k in fields ensures CanCoexist(fields[k], fields[k]) {
        CoexistReflexive(fields[k]);
      }
    case Array(items, lo, hi) => CoexistReflexive(items);
    case Union(variants) =>
      forall i | 0 <= i < |variants| ensures HasMatch(variants[i], variants) {
        SubReflexive(variants[i]);
        assert Equivalent(variants[i], variants[i]);
      }
    case _ => SubReflexive(c);
  }

  // ---------------------------------------------------------------- symmetry

  /** Variants of every union reached through objects and arrays are pairwise inequivalent. */
  predicate DistinctUnions(c: Contract) {
    match c
    case Object(fields, _) => forall k :: k in fields ==> DistinctUnions(fields[k])
    case Array(items, _, _) => DistinctUnions(items)
    case Union(variants) => Inequivalent(variants)
    case _ => true
  }

  predicate Inequivalent(variants: seq<Contract>) {
    forall i, j :: 0 <= i < j < |variants| ==> !Equivalent(variants[i], variants[j])
  }

  /** An injection of a finite range into itself reaches everything. */
  lemma {:induction false} Pigeonhole(n: nat, f: seq<nat>, y: nat)
    requires |f| == n && y < n
    requires forall i :: 0 <= i < n ==> f[i] < n
    requires forall i, j :: 0 <= i < j < n ==> f[i] != f[j]
    ensures y in f
  {
    if y !in f {
      InjectiveSize(f);
      SubsetSize(Image(f), Range(n) - {y});
      assert false;
    }
  }

  function Range(n: nat): (r: set<int>)
    ensures forall x :: x in r <==> 0 <= x < n
    ensures |r| == n
  {
    if n == 0 then {} else Range(n - 1) + {n - 1}
  }

  function Image(f: seq<nat>): (image: set<int>)
    ensures forall x :: x in image <==> x in f
  {
    if f == [] then {} else Image(f[..|f| - 1]) + {f[|f| - 1]}
  }

  lemma {:induction false} InjectiveSize(f: seq<nat>)
    requires forall i, j :: 0 <= i < j < |f| ==> f[i] != f[j]
    ensures |Image(f)| == |f|
  {
    if f != [] {
      InjectiveSize(f[..|f| - 1]);
      assert f[|f| - 1] !in f[..|f| - 1];
    }
  }

  lemma {:induction false} SubsetSize<T>(small: set<T>, large: set<T>)
    requires small <= large
    ensures |small| <= |large|
    decreases small
  {
    if small != {} {
      var x :| x in small;
      SubsetSize(small - {x}, large - {x});
    }
  }

  /** A match for each of the first `n` left variants. */
  lemma {:induction false} ChooseMatches(left: seq<Contract>, right: seq<Contract>, n: nat) returns (f: seq<nat>)
    requires n <= |left| && VariantsMatch(left, right)
    ensures |f| == n && forall i :: 0 <= i < n ==> f[i] < |right| && Equivalent(left[i], right[f[i]])
  {
    if n == 0 {
      f := [];
    } else {
      f := ChooseMatches(left, right, n - 1);
      assert HasMatch(left[n - 1], right);
      var j :| 0 <= j < |right| && Equivalent(left[n - 1], right[j]);
      f := f + [j];
    }
  }

  /** With pairwise inequivalent left variants the matching is a bijection. */
  lemma {:induction false} MatchingIsBijective(left: seq<Contract>, right: seq<Contract>)
    requires |left| == |right| && VariantsMatch(left, right) && Inequivalent(left)
    ensures VariantsMatch(right, left)
  {
    var f := ChooseMatches(left, right, |left|);
    forall i, j | 0 <= i < j < |f| ensures f[i] != f[j] {
      if f[i] == f[j] {
        EquivalentTransitive(left[i], right[f[i]], left[j]);
      }
    }
    forall y | 0 <= y < |right| ensures HasMatch(right[y], left) {
      Pigeonhole(|left|, f, y);
      var i :| 0 <= i < |f| && f[i] == y;
      assert Equivalent(left[i], right[f[i]]);
    }
  }

  lemma {:induction false} CoexistSymmetric(left: Contract, right: Contract)
    requires CanCoexist(left, right) && DistinctUnions(left)
    ensures CanCoexist(right, left)
    decreases left
  {
    if left.Object? && right.Object? {
      forall k | k in left.fields && k in right.fields ensures CanCoexist(right.fields[k], left.fields[k]) {
        CoexistSymmetric(left.fields[k], right.fields[k]);
      }
    } else if left.Array? && right.Array? {
      CoexistSymmetric(left.items, right.items);
    } else if left.Union? && right.Union? {
      MatchingIsBijective(left.variants, right.variants);
    }
  }

  // ---------------------------------------------------------------- symmetry fails otherwise

  /** The contract accepting one integer only. */
  function Exactly(n: int): Contract {
    Int64(Some(n), Some(n))
  }

  predicate UnlikeAll(c: Contract, variants: seq<Contract>) {
    forall i :: 0 <= i < |variants| ==> !Equivalent(c, variants[i])
  }

  /** Among more candidates than variants, some one-integer contract is unlike all variants. */
  lemma {:induction false} FreshContract(variants: seq<Contract>, candidates: set<int>) returns (n: int)
    requires |candidates| > |variants|
    ensures n in candidates && UnlikeAll(Exactly(n), variants)
  {
    if variants == [] {
      assert (forall x :: x !in candidates) ==> candidates == {};
      n :| n in candidates;
    } else {
      var last := variants[|variants| - 1];
      var rest := variants[..|variants| - 1];
      var free := candidates;
      if taken :| taken in candidates && Equivalent(Exactly(taken), last) {
        free := candidates - {taken};
        forall m | m in free ensures !Equivalent(Exactly(m), last) {
          if Equivalent(Exactly(m), last) {
            EquivalentTransitive(Exactly(m), last, Exactly(taken));
          }
        }
      }
      n := FreshContract(rest, free);
      assert forall i :: 0 <= i < |rest| ==> rest[i] == variants[i];
    }
  }

  /** Two equivalent variants leave room for an unmatched one on the other side. */
  lemma {:induction false} AsymmetricUnion(variants: seq<Contract>) returns (right: Contract)
    requires !Inequivalent(variants)
    ensures CanCoexist(Union(variants), right) && !CanCoexist(right, Union(variants))
    ensures WellShaped(Union(variants)) ==> WellShaped(right)
  {
    var i, j :| 0 <= i < j < |variants| && Equivalent(variants[i], variants[j]);
    var n := FreshContract(variants, Range(|variants| + 1));
    var changed := variants[j := Exactly(n)];
    right := Union(changed);
    forall k | 0 <= k < |variants| ensures HasMatch(variants[k], changed) {
      SubReflexive(variants[k]);
      assert Equivalent(variants[k], changed[if k == j then i else k]);
    }
    assert !HasMatch(changed[j], variants);
    if WellShaped(Union(variants)) {
      ChangedIsWellShaped(variants, j, n);
    }
  }

  lemma ChangedIsWellShaped(variants: seq<Contract>, j: nat, n: int)
    requires WellShaped(Union(variants)) && j < |variants| && UnlikeAll(Exactly(n), variants)
    ensures WellShaped(Union(variants[j := Exactly(n)]))
  {
    SubReflexive(Exactly(n));
    assert forall i :: 0 <= i < |variants| ==> variants[i] != Exactly(n);
  }

  lemma {:induction false} AsymmetricPartner(left: Contract) returns (right: Contract)
    requires !DistinctUnions(left)
    ensures CanCoexist(left, right) && !CanCoexist(right, left)
    ensures WellShaped(left) ==> WellShaped(right)
    decreases left
  {
    match left
    case Object(fields, optional) =>
      var k :| k in fields && !DistinctUnions(fields[k]);
      var partner := AsymmetricPartner(fields[k]);
      right := Object(fields[k := partner], optional);
      forall name | name in fields ensures CanCoexist(fields[name], right.fields[name]) {
        CoexistReflexive(fields[name]);
      }
      assert !CanCoexist(right.fields[k], fields[k]);
      assert right.fields.Keys == fields.Keys;
    case Array(items, lo, hi) =>
      var partner := AsymmetricPartner(items);
      right := Array(partner, lo, hi);
    case Union(variants) =>
      right := AsymmetricUnion(variants);
  }

  /**
   Exactly the left contracts with pairwise inequivalent union variants get the same answer in
   both argument orders, whatever stands on the right; for valid definitions, whatever valid
   definition does.
   */
  lemma SymmetryIsExact(left: Contract)
    ensures (forall right :: CanCoexist(left, right) ==> CanCoexist(right, left)) <==> DistinctUnions(left)
    ensures WellShaped(left) ==>
              ((forall right :: WellShaped(right) && CanCoexist(left, right) ==> CanCoexist(right, left)) <==>
               DistinctUnions(left))
  {
    if DistinctUnions(left) {
      forall right | CanCoexist(left, right) ensures CanCoexist(right, left) {
        CoexistSymmetric(left, right);
      }
    } else {
      var right := AsymmetricPartner(left);
    }
  }

  /** So one positive answer makes each view readable for whatever the other one writes. */
  lemma CoexistReadableBothWays(left: Contract, right: Contract, v: Value)
    requires CanCoexist(left, right) && DistinctUnions(left)
    ensures Accepts(left, v) ==> Project(right, v).Some?
    ensures Accepts(right, v) ==> Project(left, v).Some?
  {
    CoexistSymmetric(left, right);
    if Accepts(left, v) {
      CoexistReadable(left, right, v);
    }
    if Accepts(right, v) {
      CoexistReadable(right, left, v);
    }
  }
}
