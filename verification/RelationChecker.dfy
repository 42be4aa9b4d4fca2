/**
 The relations between contracts as they run: recursion with early exits, a shared step counter
 and a hard budget. An answer, when there is one, is the answer of the budget-free relation.
 */
module RelationChecker {

  import opened Order
  import opened Values
  import opened Contracts
  import opened Relations
  import opened Coexistence
  import opened Definitions

  const MAX_RELATION_STEPS: nat := 200_000

  datatype CompatibilityError = InvalidRelease | LimitExceeded

  // ---------------------------------------------------------------- the steps of a comparison

  /** Steps that comparing two contracts takes: it stops at the first variant or field that decides. */
  function SubSteps(a: Contract, b: Contract): (n: nat)
    ensures n >= 1
    decreases a, b, 1, 0
  {
    if b.Any? then 1
    else if a.Union? then 1 + LeftSteps(a.variants, b)
    else if b.Union? then 1 + RightSteps(a, b.variants)
    else if a.Array? && b.Array? then 1 + if BoundsInside(a, b) then SubSteps(a.items, b.items) else 0
    else if a.Object? && b.Object? then 1 + FieldSteps(a, b, a.fields.Keys)
    else 1
  }

  predicate BoundsInside(a: Contract, b: Contract)
    requires a.Array? && b.Array?
  {
    LowerInside(a.minimumItems, b.minimumItems) && UpperInside(a.maximumItems, b.maximumItems)
  }

  function LeftSteps(variants: seq<Contract>, b: Contract): nat
    decreases variants, b, 0, 0
  {
    if variants == [] then 0
    else SubSteps(variants[0], b) + if Sub(variants[0], b) then LeftSteps(variants[1..], b) else 0
  }

  function RightSteps(a: Contract, variants: seq<Contract>): nat
    decreases a, variants, 0, 0
  {
    if variants == [] then 0
    else SubSteps(a, variants[0]) + if Sub(a, variants[0]) then 0 else RightSteps(a, variants[1..])
  }

  function FieldSteps(a: Contract, b: Contract, names: set<Text>): nat
    requires a.Object? && b.Object? && names <= a.fields.Keys
    decreases a, b, 0, |names|
  {
    if names == {} then 0
    else
      var k: Text := Least(names);
      if k !in b.fields then 0
      else
        SubSteps(a.fields[k], b.fields[k]) +
        if Sub(a.fields[k], b.fields[k]) then FieldSteps(a, b, names - {k}) else 0
  }

  lemma Product(a: nat, b: nat, c: nat, d: nat)
    requires a <= c && b <= d
    ensures a * b <= c * d
  {
    assert a * b <= a * d;
    assert a * d <= c * d;
  }

  lemma Distribute(x: nat, y: nat, z: nat)
    ensures (x + y) * z == x * z + y * z
    ensures z * (x + y) == z * x + z * y
  {
  }

  /** At most one step per pair of nodes. */
  lemma {:induction false} StepsPerPair(a: Contract, b: Contract)
    ensures SubSteps(a, b) <= Nodes(a) * Nodes(b)
    decreases a, b, 1, 0
  {
    Product(1, 1, Nodes(a), Nodes(b));
    if b.Any? {
    } else if a.Union? {
      LeftPerPair(a.variants, b);
      Distribute(1, VariantNodes(a.variants), Nodes(b));
    } else if b.Union? {
      RightPerPair(a, b.variants);
      Distribute(1, VariantNodes(b.variants), Nodes(a));
    } else if a.Array? && b.Array? {
      StepsPerPair(a.items, b.items);
      Product(Nodes(a.items), Nodes(b.items), Nodes(a.items), Nodes(b));
      Distribute(1, Nodes(a.items), Nodes(b));
    } else if a.Object? && b.Object? {
      FieldsPerPair(a, b, a.fields.Keys);
      Distribute(1, FieldNodes(a, a.fields.Keys), Nodes(b));
    }
  }

  lemma {:induction false} LeftPerPair(variants: seq<Contract>, b: Contract)
    ensures LeftSteps(variants, b) <= VariantNodes(variants) * Nodes(b)
    decreases variants, b, 0, 0
  {
    if variants != [] {
      StepsPerPair(variants[0], b);
      LeftPerPair(variants[1..], b);
      Distribute(Nodes(variants[0]), VariantNodes(variants[1..]), Nodes(b));
    }
  }

  lemma {:induction false} RightPerPair(a: Contract, variants: seq<Contract>)
    ensures RightSteps(a, variants) <= Nodes(a) * VariantNodes(variants)
    decreases a, variants, 0, 0
  {
    if variants != [] {
      StepsPerPair(a, variants[0]);
      RightPerPair(a, variants[1..]);
      Distribute(Nodes(variants[0]), VariantNodes(variants[1..]), Nodes(a));
    }
  }

  lemma {:induction false} FieldsPerPair(a: Contract, b: Contract, names: set<Text>)
    requires a.Object? && b.Object? && names <= a.fields.Keys
    ensures FieldSteps(a, b, names) <= FieldNodes(a, names) * Nodes(b)
    decreases a, b, 0, |names|
  {
    if names != {} {
      var k: Text := Least(names);
      FieldsPerPair(a, b, names - {k});
      Distribute(Nodes(a.fields[k]), FieldNodes(a, names - {k}), Nodes(b));
      if k in b.fields {
        StepsPerPair(a.fields[k], b.fields[k]);
        FieldWithin(b, k);
        Product(Nodes(a.fields[k]), Nodes(b.fields[k]), Nodes(a.fields[k]), Nodes(b));
      } else {
        Product(0, 0, FieldNodes(a, names), Nodes(b));
      }
    }
  }

  lemma FieldWithin(c: Contract, k: Text)
    requires c.Object? && k in c.fields
    ensures Nodes(c.fields[k]) < Nodes(c)
  {
    FieldNodesSplit(c, c.fields.Keys, k);
  }

  // ---------------------------------------------------------------- contract_subset_at

  /** From `spent` steps on, a part needing `needed` more was answered as `expected`, or ran out. */
  predicate Metered(spent: nat, needed: nat, expected: bool, r: Result<bool, CompatibilityError>, steps: nat) {
    if spent + needed <= MAX_RELATION_STEPS then steps == spent + needed && r == Ok(expected)
    else steps > MAX_RELATION_STEPS && r == Err(CompatibilityError.LimitExceeded)
  }

  /** The steps are counted exactly: within the budget the answer is that of the relation, beyond it an error. */
  method SubsetAt(a: Contract, b: Contract, spent: nat) returns (r: Result<bool, CompatibilityError>, steps: nat)
    ensures Metered(spent, SubSteps(a, b), Sub(a, b), r, steps)
    decreases a, b, 1
  {
    steps := spent + 1;
    if steps > MAX_RELATION_STEPS {
      return Err(CompatibilityError.LimitExceeded), steps;
    }
    if b.Any? {
      return Ok(true), steps;
    }
    if a.Union? {
      r, steps := LeftVariantsAt(a, b, steps);
      return;
    }
    if b.Union? {
      r, steps := RightVariantsAt(a, b, steps);
      return;
    }
    if a.Array? && b.Array? {
      if BoundsInside(a, b) {
        r, steps := SubsetAt(a.items, b.items, steps);
        return;
      }
      return Ok(false), steps;
    }
    if a.Object? && b.Object? {
      r, steps := ObjectSubsetAt(a, b, steps);
      return;
    }
    r := Ok(Sub(a, b));
  }

  method LeftVariantsAt(a: Contract, b: Contract, spent: nat) returns (r: Result<bool, CompatibilityError>, steps: nat)
    requires a.Union? && !b.Any? && spent <= MAX_RELATION_STEPS
    ensures Metered(spent, LeftSteps(a.variants, b), Sub(a, b), r, steps)
    decreases a, b, 0
  {
    steps := spent;
    for i := 0 to |a.variants|
      invariant steps <= MAX_RELATION_STEPS
      invariant steps + LeftSteps(a.variants[i..], b) == spent + LeftSteps(a.variants, b)
      invariant forall j :: 0 <= j < i ==> Sub(a.variants[j], b)
    {
      assert a.variants[i..][1..] == a.variants[i + 1..];
      r, steps := SubsetAt(a.variants[i], b, steps);
      if r != Ok(true) {
        return;
      }
    }
    r := Ok(true);
  }

  method RightVariantsAt(a: Contract, b: Contract, spent: nat) returns (r: Result<bool, CompatibilityError>, steps: nat)
    requires !a.Union? && b.Union? && spent <= MAX_RELATION_STEPS
    ensures Metered(spent, RightSteps(a, b.variants), Sub(a, b), r, steps)
    decreases a, b, 0
  {
    steps := spent;
    for i := 0 to |b.variants|
      invariant steps <= MAX_RELATION_STEPS
      invariant steps + RightSteps(a, b.variants[i..]) == spent + RightSteps(a, b.variants)
      invariant forall j :: 0 <= j < i ==> !Sub(a, b.variants[j])
    {
      assert b.variants[i..][1..] == b.variants[i + 1..];
      r, steps := SubsetAt(a, b.variants[i], steps);
      if r != Ok(false) {
        return;
      }
    }
    r := Ok(false);
  }

  method ObjectSubsetAt(a: Contract, b: Contract, spent: nat) returns (r: Result<bool, CompatibilityError>, steps: nat)
    requires a.Object? && b.Object? && spent <= MAX_RELATION_STEPS
    ensures Metered(spent, FieldSteps(a, b, a.fields.Keys), Sub(a, b), r, steps)
    decreases a, b, 0
  {
    steps := spent;
    var todo := a.fields.Keys;
    while todo != {}
      invariant steps <= MAX_RELATION_STEPS
      invariant todo <= a.fields.Keys
      invariant steps + FieldSteps(a, b, todo) == spent + FieldSteps(a, b, a.fields.Keys)
      invariant forall k :: k in a.fields && k !in todo ==> k in b.fields && Sub(a.fields[k], b.fields[k])
      decreases todo
    {
      var k: Text := Least(todo);
      if k !in b.fields {
        return Ok(false), steps;
      }
      r, steps := SubsetAt(a.fields[k], b.fields[k], steps);
      if r != Ok(true) {
        return;
      }
      todo := todo - {k};
    }
    var inside := RequiredInside(a, b);
    r := Ok(inside);
  }

  /** The second pass over an object inclusion: required keys on the right. */
  method RequiredInside(a: Contract, b: Contract) returns (inside: bool)
    requires a.Object? && b.Object?
    ensures inside <==> forall k :: k in b.fields && k !in b.optional ==> k in a.fields && k !in a.optional
  {
    var todo := b.fields.Keys;
    while todo != {}
      invariant todo <= b.fields.Keys
      invariant forall k :: k in b.fields && k !in todo && k !in b.optional ==> k in a.fields && k !in a.optional
      decreases todo
    {
      var k: Text := Least(todo);
      if k !in a.fields && k !in b.optional {
        return false;
      }
      if k !in b.optional && k in a.optional {
        return false;
      }
      todo := todo - {k};
    }
    inside := true;
  }

  /** Answers the relation exactly when its steps fit the budget; products of node counts up to it always do. */
  method ContractSubset(a: Contract, b: Contract) returns (r: Result<bool, CompatibilityError>)
    ensures r == if SubSteps(a, b) <= MAX_RELATION_STEPS then Ok(Sub(a, b)) else Err(CompatibilityError.LimitExceeded)
    ensures r.Err? ==> Nodes(a) * Nodes(b) > MAX_RELATION_STEPS
  {
    var steps;
    r, steps := SubsetAt(a, b, 0);
    StepsPerPair(a, b);
  }

  /** Both inclusions, the second only where the first holds, fit a budget of their own each. */
  predicate MutualFits(a: Contract, b: Contract) {
    SubSteps(a, b) <= MAX_RELATION_STEPS && (Sub(a, b) ==> SubSteps(b, a) <= MAX_RELATION_STEPS)
  }

  method Mutual(a: Contract, b: Contract) returns (r: Result<bool, CompatibilityError>)
    ensures r == if MutualFits(a, b) then Ok(Equivalent(a, b)) else Err(CompatibilityError.LimitExceeded)
  {
    r := ContractSubset(a, b);
    if r == Ok(true) {
      r := ContractSubset(b, a);
    }
  }

  lemma PairFits(a: Contract, b: Contract)
    requires Nodes(a) * Nodes(b) <= MAX_RELATION_STEPS
    ensures MutualFits(a, b)
  {
    StepsPerPair(a, b);
    StepsPerPair(b, a);
  }

  // ---------------------------------------------------------------- what coexistence asks of the subset check

  /** Every subset check made on the way, up to the one that decides, fits its budget. */
  predicate CoexistFits(left: Contract, right: Contract)
    decreases left, 1, 0
  {
    if left.Object? && right.Object? then FieldsFit(left, right, left.fields.Keys)
    else if left.Array? && right.Array? then SameBounds(left, right) ==> CoexistFits(left.items, right.items)
    else if left.Union? && right.Union? then
      |left.variants| == |right.variants| ==> VariantsFit(left.variants, right.variants)
    else MutualFits(left, right)
  }

  predicate SameBounds(left: Contract, right: Contract)
    requires left.Array? && right.Array?
  {
    left.minimumItems == right.minimumItems && left.maximumItems == right.maximumItems
  }

  /** Whether the field is compared at all. */
  predicate Compared(left: Contract, right: Contract, k: Text)
    requires left.Object? && right.Object? && k in left.fields
  {
    k in right.fields && (k in left.optional <==> k in right.optional)
  }

  /** Whether the field lets the comparison go on. */
  predicate FieldCoexists(left: Contract, right: Contract, k: Text)
    requires left.Object? && right.Object? && k in left.fields
  {
    if k in right.fields then
      (k in left.optional <==> k in right.optional) && CanCoexist(left.fields[k], right.fields[k])
    else k in left.optional
  }

  predicate FieldsFit(left: Contract, right: Contract, names: set<Text>)
    requires left.Object? && right.Object? && names <= left.fields.Keys
    decreases left, 0, |names|
  {
    names == {} ||
    var k: Text := Least(names);
    && (Compared(left, right, k) ==> CoexistFits(left.fields[k], right.fields[k]))
    && (FieldCoexists(left, right, k) ==> FieldsFit(left, right, names - {k}))
  }

  predicate VariantsFit(left: seq<Contract>, right: seq<Contract>) {
    left == [] || (MatchFits(left[0], right) && (HasMatch(left[0], right) ==> VariantsFit(left[1..], right)))
  }

  predicate MatchFits(c: Contract, right: seq<Contract>) {
    right == [] || (MutualFits(c, right[0]) && (Equivalent(c, right[0]) || MatchFits(c, right[1..])))
  }

  /** Steps of the counter that coexistence shares over objects and arrays. */
  function CoexistSteps(left: Contract, right: Contract): (n: nat)
    ensures n >= 1
    decreases left, 1, 0
  {
    if left.Object? && right.Object? then 1 + CoexistFieldSteps(left, right, left.fields.Keys)
    else if left.Array? && right.Array? && SameBounds(left, right) then 1 + CoexistSteps(left.items, right.items)
    else 1
  }

  function CoexistFieldSteps(left: Contract, right: Contract, names: set<Text>): nat
    requires left.Object? && right.Object? && names <= left.fields.Keys
    decreases left, 0, |names|
  {
    if names == {} then 0
    else
      var k: Text := Least(names);
      (if Compared(left, right, k) then CoexistSteps(left.fields[k], right.fields[k]) else 0) +
      if FieldCoexists(left, right, k) then CoexistFieldSteps(left, right, names - {k}) else 0
  }

  // ---------------------------------------------------------------- node counts bound both

  lemma {:induction false} CoexistPerNode(left: Contract, right: Contract)
    ensures CoexistSteps(left, right) <= Nodes(left)
    decreases left, 1, 0
  {
    if left.Object? && right.Object? {
      CoexistFieldsPerNode(left, right, left.fields.Keys);
    } else if left.Array? && right.Array? && SameBounds(left, right) {
      CoexistPerNode(left.items, right.items);
    }
  }

  lemma {:induction false} CoexistFieldsPerNode(left: Contract, right: Contract, names: set<Text>)
    requires left.Object? && right.Object? && names <= left.fields.Keys
    ensures CoexistFieldSteps(left, right, names) <= FieldNodes(left, names)
    decreases left, 0, |names|
  {
    if names != {} {
      var k: Text := Least(names);
      CoexistFieldsPerNode(left, right, names - {k});
      if Compared(left, right, k) {
        CoexistPerNode(left.fields[k], right.fields[k]);
      }
    }
  }

  /** Contracts whose node counts multiply to at most the budget are always answered. */
  lemma {:induction false} SmallPairsFit(left: Contract, right: Contract)
    requires Nodes(left) * Nodes(right) <= MAX_RELATION_STEPS
    ensures CoexistFits(left, right)
    decreases left, 1, 0
  {
    if left.Object? && right.Object? {
      SmallFieldsFit(left, right, left.fields.Keys);
    } else if left.Array? && right.Array? {
      Product(Nodes(left.items), Nodes(right.items), Nodes(left), Nodes(right));
      SmallPairsFit(left.items, right.items);
    } else if left.Union? && right.Union? {
      Product(VariantNodes(left.variants), VariantNodes(right.variants), Nodes(left), Nodes(right));
      SmallVariantsFit(left.variants, right.variants);
    } else {
      PairFits(left, right);
    }
  }

  lemma {:induction false} SmallFieldsFit(left: Contract, right: Contract, names: set<Text>)
    requires left.Object? && right.Object? && names <= left.fields.Keys
    requires Nodes(left) * Nodes(right) <= MAX_RELATION_STEPS
    ensures FieldsFit(left, right, names)
    decreases left, 0, |names|
  {
    if names != {} {
      var k: Text := Least(names);
      if Compared(left, right, k) {
        FieldWithin(left, k);
        FieldWithin(right, k);
        Product(Nodes(left.fields[k]), Nodes(right.fields[k]), Nodes(left), Nodes(right));
        SmallPairsFit(left.fields[k], right.fields[k]);
      }
      SmallFieldsFit(left, right, names - {k});
    }
  }

  lemma {:induction false} SmallVariantsFit(left: seq<Contract>, right: seq<Contract>)
    requires VariantNodes(left) * VariantNodes(right) <= MAX_RELATION_STEPS
    ensures VariantsFit(left, right)
  {
    if left != [] {
      Product(Nodes(left[0]), VariantNodes(right), VariantNodes(left), VariantNodes(right));
      SmallMatchFits(left[0], right);
      Product(VariantNodes(left[1..]), VariantNodes(right), VariantNodes(left), VariantNodes(right));
      SmallVariantsFit(left[1..], right);
    }
  }

  lemma {:induction false} SmallMatchFits(c: Contract, right: seq<Contract>)
    requires Nodes(c) * VariantNodes(right) <= MAX_RELATION_STEPS
    ensures MatchFits(c, right)
  {
    if right != [] {
      Product(Nodes(c), Nodes(right[0]), Nodes(c), VariantNodes(right));
      PairFits(c, right[0]);
      Product(Nodes(c), VariantNodes(right[1..]), Nodes(c), VariantNodes(right));
      SmallMatchFits(c, right[1..]);
    }
  }

  // ---------------------------------------------------------------- contracts_can_coexist_at

  /** From `spent` steps on: the answer where every check fits and the counter does, otherwise an error. */
  predicate Answered(fits: bool, spent: nat, needed: nat, expected: bool, r: Result<bool, CompatibilityError>,
      steps: nat)
  {
    if fits && spent + needed <= MAX_RELATION_STEPS then steps == spent + needed && r == Ok(expected)
    else r == Err(CompatibilityError.LimitExceeded)
  }

  method CoexistAt(left: Contract, right: Contract, spent: nat)
    returns (r: Result<bool, CompatibilityError>, steps: nat)
    ensures Answered(CoexistFits(left, right), spent, CoexistSteps(left, right), CanCoexist(left, right), r, steps)
    decreases left, 1
  {
    steps := spent + 1;
    if steps > MAX_RELATION_STEPS {
      return Err(CompatibilityError.LimitExceeded), steps;
    }
    if left.Object? && right.Object? {
      r, steps := ObjectCoexistAt(left, right, steps);
    } else if left.Array? && right.Array? {
      if SameBounds(left, right) {
        r, steps := CoexistAt(left.items, right.items, steps);
      } else {
        r := Ok(false);
      }
    } else if left.Union? && right.Union? {
      r := UnionsMatch(left.variants, right.variants);
    } else {
      r := Mutual(left, right);
    }
  }

  method ObjectCoexistAt(left: Contract, right: Contract, spent: nat)
    returns (r: Result<bool, CompatibilityError>, steps: nat)
    requires left.Object? && right.Object? && spent <= MAX_RELATION_STEPS
    ensures Answered(FieldsFit(left, right, left.fields.Keys), spent, CoexistFieldSteps(left, right, left.fields.Keys),
                     CanCoexist(left, right), r, steps)
    decreases left, 0
  {
    steps := spent;
    var todo := left.fields.Keys;
    while todo != {}
      invariant steps <= MAX_RELATION_STEPS
      invariant todo <= left.fields.Keys
      invariant steps + CoexistFieldSteps(left, right, todo) ==
                spent + CoexistFieldSteps(left, right, left.fields.Keys)
      invariant FieldsFit(left, right, todo) <==> FieldsFit(left, right, left.fields.Keys)
      invariant forall k :: k in left.fields && k !in todo ==> FieldCoexists(left, right, k)
      decreases todo
    {
      var k: Text := Least(todo);
      if k in right.fields {
        if (k in left.optional) != (k in right.optional) {
          return Ok(false), steps;
        }
        r, steps := CoexistAt(left.fields[k], right.fields[k], steps);
        if r != Ok(true) {
          return;
        }
      } else if k !in left.optional {
        return Ok(false), steps;
      }
      todo := todo - {k};
    }
    r := Ok(forall k :: k in right.fields ==> k in left.fields || k in right.optional);
  }

  method UnionsMatch(left: seq<Contract>, right: seq<Contract>) returns (r: Result<bool, CompatibilityError>)
    ensures r == if |left| == |right| ==> VariantsFit(left, right) then Ok(CanCoexist(Union(left), Union(right)))
                 else Err(CompatibilityError.LimitExceeded)
  {
    if |left| != |right| {
      return Ok(false);
    }
    for i := 0 to |left|
      invariant forall n :: 0 <= n < i ==> HasMatch(left[n], right)
      invariant VariantsFit(left[i..], right) <==> VariantsFit(left, right)
    {
      assert left[i..][1..] == left[i + 1..];
      r := FindMatch(left[i], right);
      if r != Ok(true) {
        return;
      }
    }
    r := Ok(true);
  }

  /** The inner loop: is there an equivalent variant? */
  method FindMatch(c: Contract, right: seq<Contract>) returns (r: Result<bool, CompatibilityError>)
    ensures r == if MatchFits(c, right) then Ok(HasMatch(c, right)) else Err(CompatibilityError.LimitExceeded)
  {
    for j := 0 to |right|
      invariant forall n :: 0 <= n < j ==> !Equivalent(c, right[n])
      invariant MatchFits(c, right[j..]) <==> MatchFits(c, right)
    {
      assert right[j..][1..] == right[j + 1..];
      r := Mutual(c, right[j]);
      if r != Ok(false) {
        return;
      }
    }
    r := Ok(false);
  }

  /**
   Answers the relation exactly when its checks and its counter fit; products of node counts up to
   the budget always do.
   */
  method ContractsCanCoexist(left: Contract, right: Contract) returns (r: Result<bool, CompatibilityError>)
    ensures r == if CoexistFits(left, right) && CoexistSteps(left, right) <= MAX_RELATION_STEPS
                 then Ok(CanCoexist(left, right)) else Err(CompatibilityError.LimitExceeded)
    ensures r.Err? ==> Nodes(left) * Nodes(right) > MAX_RELATION_STEPS
  {
    var steps;
    r, steps := CoexistAt(left, right, 0);
    SmallPairsAreAnswered(left, right);
  }

  lemma SmallPairsAreAnswered(left: Contract, right: Contract)
    ensures Nodes(left) * Nodes(right) <= MAX_RELATION_STEPS ==>
              CoexistFits(left, right) && CoexistSteps(left, right) <= MAX_RELATION_STEPS
  {
    CoexistPerNode(left, right);
    Product(Nodes(left), 1, Nodes(left), Nodes(right));
    if Nodes(left) * Nodes(right) <= MAX_RELATION_STEPS {
      SmallPairsFit(left, right);
    }
  }
}
