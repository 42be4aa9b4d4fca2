/**
 The read view as it runs: one step counter for the whole reading, and validations of views on
 counters of their own. What it reads is stated exactly and compared with the budget-free view.
 */
module ContractReader {

  import opened Order
  import opened Values
  import opened Contracts
  import opened ContractChecker

  // ---------------------------------------------------------------- the work of an operation

  /** Steps that validating `v` takes at most: one per contract node met. */
  function Work(c: Contract, v: Value): (n: nat)
    ensures n >= 1
    decreases c, 1, 0
  {
    1 + match c
        case Array(items, _, _) => if v.ArrayValue? then ItemWork(items, v.items) else 0
        case Object(fields, _) => if v.ObjectValue? then FieldWork(c, v.entries, fields.Keys * v.entries.Keys) else 0
        case Union(variants) => VariantWork(variants, v)
        case _ => 0
  }

  function ItemWork(items: Contract, vs: seq<Value>): nat
    decreases items, 2, |vs|
  {
    if vs == [] then 0 else Work(items, vs[0]) + ItemWork(items, vs[1..])
  }

  function FieldWork(c: Contract, entries: map<Text, Value>, names: set<Text>): nat
    requires c.Object? && names <= c.fields.Keys * entries.Keys
    decreases c, 0, |names|
  {
    if names == {} then 0
    else
      var k: Text := Least(names);
      Work(c.fields[k], entries[k]) + FieldWork(c, entries, names - {k})
  }

  function VariantWork(variants: seq<Contract>, v: Value): nat
    decreases variants, 0, 0
  {
    if variants == [] then 0 else Work(variants[0], v) + VariantWork(variants[1..], v)
  }

  /** The fields' work may be counted in any order. */
  lemma {:induction false} FieldWorkSplit(c: Contract, entries: map<Text, Value>, names: set<Text>, k: Text)
    requires c.Object? && names <= c.fields.Keys * entries.Keys && k in names
    ensures FieldWork(c, entries, names) == Work(c.fields[k], entries[k]) + FieldWork(c, entries, names - {k})
    decreases |names|
  {
    var first: Text := Least(names);
    if k != first {
      FieldWorkSplit(c, entries, names - {first}, k);
      assert names - {first} - {k} == names - {k} - {first};
      assert Least(names - {k}) == first by {
        LeastIsUnique(names - {k});
        assert IsLeast(names - {k}, first);
      }
    }
  }

  lemma NextWork(c: Contract, entries: map<Text, Value>, names: set<Text>, k: Text)
    requires c.Object? && names <= c.fields.Keys && k in names
    ensures FieldWork(c, entries, names * entries.Keys) ==
              (if k in entries then Work(c.fields[k], entries[k]) else 0)
              + FieldWork(c, entries, (names - {k}) * entries.Keys)
  {
    if k in entries {
      FieldWorkSplit(c, entries, names * entries.Keys, k);
      assert (names - {k}) * entries.Keys == names * entries.Keys - {k};
    } else {
      assert (names - {k}) * entries.Keys == names * entries.Keys;
    }
  }

  lemma {:induction false} StepsWithinWork(c: Contract, v: Value)
    ensures Steps(c, v) <= Work(c, v)
    decreases c, 1, 0
  {
    match c
    case Array(items, lo, hi) =>
      if v.ArrayValue? {
        ItemStepsWithinWork(items, v.items);
      }
    case Object(fields, optional) =>
      if v.ObjectValue? && ShapeFits(fields, optional, v.entries) {
        assert fields.Keys * v.entries.Keys == v.entries.Keys;
        FieldStepsWithinWork(c, v.entries, v.entries.Keys);
      }
    case Union(variants) => VariantStepsWithinWork(variants, v);
    case _ =>
  }

  lemma {:induction false} ItemStepsWithinWork(items: Contract, vs: seq<Value>)
    ensures ItemSteps(items, vs) <= ItemWork(items, vs)
    decreases items, 2, |vs|
  {
    if vs != [] {
      StepsWithinWork(items, vs[0]);
      ItemStepsWithinWork(items, vs[1..]);
    }
  }

  lemma {:induction false} FieldStepsWithinWork(c: Contract, entries: map<Text, Value>, names: set<Text>)
    requires c.Object? && names <= c.fields.Keys && names <= entries.Keys
    ensures FieldSteps(c, entries, names) <= FieldWork(c, entries, names)
    decreases c, 0, |names|
  {
    if names != {} {
      var k: Text := Least(names);
      StepsWithinWork(c.fields[k], entries[k]);
      FieldStepsWithinWork(c, entries, names - {k});
    }
  }

  lemma {:induction false} VariantStepsWithinWork(variants: seq<Contract>, v: Value)
    ensures VariantSteps(variants, v) <= VariantWork(variants, v)
    decreases variants, 0, 0
  {
    if variants != [] {
      StepsWithinWork(variants[0], v);
      VariantStepsWithinWork(variants[1..], v);
    }
  }

  // ---------------------------------------------------------------- readings

  /** `p` is `v` with object keys dropped at any depth. */
  predicate Thinner(p: Value, v: Value)
    decreases v
  {
    if p.ArrayValue? && v.ArrayValue? then
      |p.items| == |v.items| && forall i :: 0 <= i < |v.items| ==> Thinner(p.items[i], v.items[i])
    else if p.ObjectValue? && v.ObjectValue? then
      p.entries.Keys <= v.entries.Keys && forall k :: k in p.entries ==> Thinner(p.entries[k], v.entries[k])
    else p == v
  }

  lemma {:induction false} ThinnerReflexive(v: Value)
    ensures Thinner(v, v)
  {
    match v
    case ArrayValue(items) =>
      forall i | 0 <= i < |items| ensures Thinner(items[i], items[i]) {
        ThinnerReflexive(items[i]);
      }
    case ObjectValue(entries) =>
      forall k | k in entries ensures Thinner(entries[k], entries[k]) {
        ThinnerReflexive(entries[k]);
      }
    case _ =>
  }

  /** A read view only drops keys. */
  lemma {:induction false} ViewIsThinner(c: Contract, v: Value)
    requires Project(c, v).Some?
    ensures Thinner(Project(c, v).value, v)
    decreases c
  {
    match c
    case Object(fields, optional) =>
      forall k | k in fields && k in v.entries ensures Thinner(Project(fields[k], v.entries[k]).value, v.entries[k]) {
        ViewIsThinner(fields[k], v.entries[k]);
      }
    case Array(items, lo, hi) =>
      forall i | 0 <= i < |v.items| ensures Thinner(Project(items, v.items[i]).value, v.items[i]) {
        ViewIsThinner(items, v.items[i]);
      }
    case Union(variants) => ViewIsThinner(variants[FirstProjecting(variants, v)], v);
    case _ => ThinnerReflexive(v);
  }

  lemma {:induction false} ThinnerWork(c: Contract, p: Value, v: Value)
    requires Thinner(p, v)
    ensures Work(c, p) <= Work(c, v)
    decreases c, 1, 0
  {
    match c
    case Array(items, lo, hi) =>
      if v.ArrayValue? && p.ArrayValue? {
        ThinnerItemWork(items, p.items, v.items);
      }
    case Object(fields, optional) =>
      if v.ObjectValue? && p.ObjectValue? {
        ThinnerFieldWork(c, p.entries, v.entries, fields.Keys * p.entries.Keys, fields.Keys * v.entries.Keys);
      }
    case Union(variants) => ThinnerVariantWork(variants, p, v);
    case _ =>
  }

  lemma {:induction false} ThinnerItemWork(items: Contract, ps: seq<Value>, vs: seq<Value>)
    requires |ps| == |vs| && forall i :: 0 <= i < |vs| ==> Thinner(ps[i], vs[i])
    ensures ItemWork(items, ps) <= ItemWork(items, vs)
    decreases items, 2, |vs|
  {
    if vs != [] {
      ThinnerWork(items, ps[0], vs[0]);
      ThinnerItemWork(items, ps[1..], vs[1..]);
    }
  }

  lemma {:induction false} ThinnerFieldWork(c: Contract, ps: map<Text, Value>, vs: map<Text, Value>, few: set<Text>,
      many: set<Text>)
    requires c.Object? && few <= many && few <= c.fields.Keys * ps.Keys && many <= c.fields.Keys * vs.Keys
    requires forall k :: k in few ==> Thinner(ps[k], vs[k])
    ensures FieldWork(c, ps, few) <= FieldWork(c, vs, many)
    decreases c, 0, |few|
  {
    if few != {} {
      var k: Text := Least(few);
      ThinnerWork(c.fields[k], ps[k], vs[k]);
      ThinnerFieldWork(c, ps, vs, few - {k}, many - {k});
      FieldWorkSplit(c, vs, many, k);
    }
  }

  lemma {:induction false} ThinnerVariantWork(variants: seq<Contract>, p: Value, v: Value)
    requires Thinner(p, v)
    ensures VariantWork(variants, p) <= VariantWork(variants, v)
    decreases variants, 0, 0
  {
    if variants != [] {
      ThinnerWork(variants[0], p, v);
      ThinnerVariantWork(variants[1..], p, v);
    }
  }

  /** Validating a view, on a budget of its own, costs no more than validating the stored value. */
  lemma ViewWork(c: Contract, v: Value)
    requires Project(c, v).Some?
    ensures Steps(c, Project(c, v).value) <= Work(c, v)
  {
    ViewIsThinner(c, v);
    ThinnerWork(c, Project(c, v).value, v);
    StepsWithinWork(c, Project(c, v).value);
  }

  /** The outcome of a validation on a budget of its own. */
  predicate Passes(c: Contract, v: Value) {
    Accepts(c, v) && Steps(c, v) <= VALIDATION_MAX_STEPS
  }

  /**
   The view that the code reads: `Project`, except that a view too costly to validate counts as
   missing, so that a union may answer with a later variant.
   */
  function Reading(c: Contract, v: Value): (r: Option<Value>)
    decreases c, 1
  {
    match c
    case Any => Some(v)
    case Object(fields, optional) =>
      if v.ObjectValue? && forall k :: k in fields ==> FieldReads(c, v.entries, k)
      then Some(ObjectValue(map k | k in fields && k in v.entries :: Reading(fields[k], v.entries[k]).value))
      else None
    case Array(items, _, _) =>
      if v.ArrayValue? && forall i :: 0 <= i < |v.items| ==> Reading(items, v.items[i]).Some? then
        var read := ArrayValue(seq(|v.items|, i requires 0 <= i < |v.items| => Reading(items, v.items[i]).value));
        if Passes(c, read) then Some(read) else None
      else None
    case Union(variants) =>
      var i := FirstReading(variants, v);
      if i < |variants| then Reading(variants[i], v) else None
    case _ => if Accepts(c, v) then Some(v) else None
  }

  predicate FieldReads(c: Contract, entries: map<Text, Value>, k: Text)
    requires c.Object? && k in c.fields
    decreases c, 0
  {
    if k in entries then Reading(c.fields[k], entries[k]).Some? else k in c.optional
  }

  predicate VariantReads(c: Contract, v: Value)
    decreases c, 2
  {
    Reading(c, v).Some? && Passes(c, Reading(c, v).value)
  }

  function FirstReading(variants: seq<Contract>, v: Value): (i: nat)
    ensures i <= |variants|
    ensures forall j :: 0 <= j < i ==> !VariantReads(variants[j], v)
    ensures i < |variants| ==> VariantReads(variants[i], v)
    decreases variants, 0
  {
    if variants == [] || VariantReads(variants[0], v) then 0 else 1 + FirstReading(variants[1..], v)
  }

  /** Steps of the shared counter that a reading takes. */
  function ReadSteps(c: Contract, v: Value): (n: nat)
    ensures n >= 1
    decreases c, 1, 0
  {
    1 + match c
        case Array(items, _, _) => if v.ArrayValue? then ItemReadSteps(items, v.items) else 0
        case Object(fields, _) => if v.ObjectValue? then FieldReadSteps(c, v.entries, fields.Keys) else 0
        case Union(variants) => VariantReadSteps(variants, v)
        case _ => 0
  }

  function ItemReadSteps(items: Contract, vs: seq<Value>): nat
    decreases items, 2, |vs|
  {
    if vs == [] then 0
    else ReadSteps(items, vs[0]) + if Reading(items, vs[0]).Some? then ItemReadSteps(items, vs[1..]) else 0
  }

  function FieldReadSteps(c: Contract, entries: map<Text, Value>, names: set<Text>): nat
    requires c.Object? && names <= c.fields.Keys
    decreases c, 0, |names|
  {
    if names == {} then 0
    else
      var k: Text := Least(names);
      (if k in entries then ReadSteps(c.fields[k], entries[k]) else 0) +
      if FieldReads(c, entries, k) then FieldReadSteps(c, entries, names - {k}) else 0
  }

  function VariantReadSteps(variants: seq<Contract>, v: Value): nat
    decreases variants, 0, 0
  {
    if variants == [] then 0
    else ReadSteps(variants[0], v) + if VariantReads(variants[0], v) then 0 else VariantReadSteps(variants[1..], v)
  }

  // ---------------------------------------------------------------- what a reading is

  /** Whatever the budgets did, a reading satisfies its contract and only drops keys. */
  lemma {:induction false} ReadingIsSound(c: Contract, v: Value)
    requires Reading(c, v).Some?
    ensures Accepts(c, Reading(c, v).value) && Thinner(Reading(c, v).value, v)
    decreases c
  {
    match c
    case Object(fields, optional) =>
      forall k | k in fields && k in v.entries
        ensures Accepts(fields[k], Reading(fields[k], v.entries[k]).value)
        ensures Thinner(Reading(fields[k], v.entries[k]).value, v.entries[k])
      {
        assert FieldReads(c, v.entries, k);
        ReadingIsSound(fields[k], v.entries[k]);
      }
      assert forall k :: k in fields && k !in v.entries && !FieldReads(c, v.entries, k) ==> k !in optional;
    case Array(items, lo, hi) =>
      forall i | 0 <= i < |v.items| ensures Thinner(Reading(items, v.items[i]).value, v.items[i]) {
        ReadingIsSound(items, v.items[i]);
      }
    case Union(variants) => ReadingIsSound(variants[FirstReading(variants, v)], v);
    case _ => ThinnerReflexive(v);
  }

  /** There is no reading where there is no view. */
  lemma {:induction false} ReadingNeedsView(c: Contract, v: Value)
    requires Reading(c, v).Some?
    ensures Project(c, v).Some?
    decreases c
  {
    match c
    case Object(fields, optional) =>
      forall k | k in fields
        ensures if k in v.entries then Project(fields[k], v.entries[k]).Some? else k in optional
      {
        assert FieldReads(c, v.entries, k);
        if k in v.entries {
          ReadingNeedsView(fields[k], v.entries[k]);
        }
      }
    case Array(items, lo, hi) =>
      forall i | 0 <= i < |v.items| ensures Project(items, v.items[i]).Some? {
        ReadingNeedsView(items, v.items[i]);
      }
      ArrayViewExists(c, v);
    case Union(variants) => ReadingNeedsView(variants[FirstReading(variants, v)], v);
    case _ =>
  }

  /** An array has a view when its items have and their number is in bounds. */
  lemma ArrayViewExists(c: Contract, v: Value)
    requires c.Array? && v.ArrayValue? && forall i :: 0 <= i < |v.items| ==> Project(c.items, v.items[i]).Some?
    requires IntWithin(|v.items|, c.minimumItems, c.maximumItems)
    ensures Project(c, v).Some?
    ensures forall i :: 0 <= i < |v.items| ==> Project(c.items, v.items[i]) == Some(Project(c, v).value.items[i])
  {
  }

  /**
   Exactly when the reading is the view: every view on the way is cheap enough to validate, or a
   union that skips its view reads the same value through a later variant.
   */
  predicate Covered(c: Contract, v: Value)
    requires Project(c, v).Some?
    decreases c
  {
    match c
    case Object(fields, _) => forall k :: k in fields && k in v.entries ==> Covered(fields[k], v.entries[k])
    case Array(items, _, _) =>
      && (forall i :: 0 <= i < |v.items| ==> Covered(items, v.items[i]))
      && Steps(c, Project(c, v).value) <= VALIDATION_MAX_STEPS
    case Union(variants) =>
      var p := FirstProjecting(variants, v);
      var view := Project(variants[p], v).value;
      || (Covered(variants[p], v) && Steps(variants[p], view) <= VALIDATION_MAX_STEPS)
      || ReadsLater(variants, v, p, view)
    case _ => true
  }

  /** The variant read is later than `p` and gives the same view. */
  predicate ReadsLater(variants: seq<Contract>, v: Value, p: nat, view: Value) {
    var i := FirstReading(variants, v);
    p < i < |variants| && Reading(variants[i], v) == Some(view)
  }

  /** The reading of a value that has a view is that view if and only if the value is covered. */
  lemma {:induction false} ReadingIsExact(c: Contract, v: Value)
    requires Project(c, v).Some?
    ensures Reading(c, v) == Project(c, v) <==> Covered(c, v)
    decreases c, 1
  {
    match c
    case Object(_, _) => ReadingIsExactObject(c, v);
    case Array(_, _, _) => ReadingIsExactArray(c, v);
    case Union(_) => ReadingIsExactUnion(c, v);
    case _ =>
  }

  lemma {:induction false} ReadingIsExactObject(c: Contract, v: Value)
    requires c.Object? && Project(c, v).Some?
    ensures Reading(c, v) == Project(c, v) <==> Covered(c, v)
    decreases c, 0
  {
    forall k | k in c.fields && k in v.entries
      ensures Reading(c.fields[k], v.entries[k]) == Project(c.fields[k], v.entries[k]) <==>
              Covered(c.fields[k], v.entries[k])
    {
      ReadingIsExact(c.fields[k], v.entries[k]);
    }
    if Covered(c, v) {
      assert forall k :: k in c.fields ==> FieldReads(c, v.entries, k);
      assert Reading(c, v).value.entries == Project(c, v).value.entries;
    } else {
      var k :| k in c.fields && k in v.entries && !Covered(c.fields[k], v.entries[k]);
      assert Reading(c, v).Some? ==>
        FieldReads(c, v.entries, k) && Reading(c, v).value.entries[k] != Project(c, v).value.entries[k];
    }
  }

  lemma {:induction false} ReadingIsExactArray(c: Contract, v: Value)
    requires c.Array? && Project(c, v).Some?
    ensures Reading(c, v) == Project(c, v) <==> Covered(c, v)
    decreases c, 0
  {
    var view := Project(c, v).value;
    forall i | 0 <= i < |v.items|
      ensures Reading(c.items, v.items[i]) == Project(c.items, v.items[i]) <==> Covered(c.items, v.items[i])
    {
      ReadingIsExact(c.items, v.items[i]);
    }
    if forall i :: 0 <= i < |v.items| ==> Covered(c.items, v.items[i]) {
      assert view.items == seq(|v.items|, i requires 0 <= i < |v.items| => Reading(c.items, v.items[i]).value);
    } else {
      var i :| 0 <= i < |v.items| && !Covered(c.items, v.items[i]);
      assert Reading(c, v).Some? ==> Reading(c, v).value.items[i] != view.items[i];
    }
  }

  lemma {:induction false} ReadingIsExactUnion(c: Contract, v: Value)
    requires c.Union? && Project(c, v).Some?
    ensures Reading(c, v) == Project(c, v) <==> Covered(c, v)
    decreases c, 0
  {
    var p := FirstProjecting(c.variants, v);
    var i := FirstReading(c.variants, v);
    ReadingIsExact(c.variants[p], v);
    NothingReadsBefore(c.variants, v, p);
    assert p < i ==> !VariantReads(c.variants[p], v);
    assert i == p ==> VariantReads(c.variants[p], v);
  }

  lemma NothingReadsBefore(variants: seq<Contract>, v: Value, p: nat)
    requires p <= |variants| && forall j :: 0 <= j < p ==> Project(variants[j], v).None?
    ensures p <= FirstReading(variants, v)
  {
    var i := FirstReading(variants, v);
    if i < p {
      ReadingNeedsView(variants[i], v);
    }
  }

  /** A value whose nodes fit the budget is covered. */
  lemma {:induction false} WorkCovers(c: Contract, v: Value)
    requires Project(c, v).Some? && Work(c, v) <= VALIDATION_MAX_STEPS
    ensures Covered(c, v)
    decreases c
  {
    match c
    case Object(fields, optional) =>
      forall k | k in fields && k in v.entries ensures Covered(fields[k], v.entries[k]) {
        FieldWorkSplit(c, v.entries, fields.Keys * v.entries.Keys, k);
        WorkCovers(fields[k], v.entries[k]);
      }
    case Array(items, lo, hi) =>
      forall i | 0 <= i < |v.items| ensures Covered(items, v.items[i]) {
        ItemWorkWithin(items, v.items, i);
        WorkCovers(items, v.items[i]);
      }
      ViewWork(c, v);
    case Union(variants) =>
      var p := FirstProjecting(variants, v);
      VariantWorkWithin(variants, v, p);
      WorkCovers(variants[p], v);
      ViewWork(variants[p], v);
    case _ =>
  }

  lemma {:induction false} ItemWorkWithin(items: Contract, vs: seq<Value>, i: nat)
    requires i < |vs|
    ensures Work(items, vs[i]) <= ItemWork(items, vs)
    decreases i
  {
    if i > 0 {
      ItemWorkWithin(items, vs[1..], i - 1);
    }
  }

  lemma {:induction false} VariantWorkWithin(variants: seq<Contract>, v: Value, i: nat)
    requires i < |variants|
    ensures Work(variants[i], v) <= VariantWork(variants, v)
  {
    if i > 0 {
      VariantWorkWithin(variants[1..], v, i - 1);
    }
  }

  lemma {:induction false} ReadStepsWithinWork(c: Contract, v: Value)
    ensures ReadSteps(c, v) <= Work(c, v)
    decreases c, 1, 0
  {
    match c
    case Array(items, lo, hi) =>
      if v.ArrayValue? {
        ItemReadStepsWithinWork(items, v.items);
      }
    case Object(fields, optional) =>
      if v.ObjectValue? {
        FieldReadStepsWithinWork(c, v.entries, fields.Keys);
      }
    case Union(variants) => VariantReadStepsWithinWork(variants, v);
    case _ =>
  }

  lemma {:induction false} ItemReadStepsWithinWork(items: Contract, vs: seq<Value>)
    ensures ItemReadSteps(items, vs) <= ItemWork(items, vs)
    decreases items, 2, |vs|
  {
    if vs != [] {
      ReadStepsWithinWork(items, vs[0]);
      ItemReadStepsWithinWork(items, vs[1..]);
    }
  }

  lemma {:induction false} FieldReadStepsWithinWork(c: Contract, entries: map<Text, Value>, names: set<Text>)
    requires c.Object? && names <= c.fields.Keys
    ensures FieldReadSteps(c, entries, names) <= FieldWork(c, entries, names * entries.Keys)
    decreases c, 0, |names|
  {
    if names != {} {
      var k: Text := Least(names);
      NextWork(c, entries, names, k);
      if k in entries {
        ReadStepsWithinWork(c.fields[k], entries[k]);
      }
      FieldReadStepsWithinWork(c, entries, names - {k});
    }
  }

  lemma {:induction false} VariantReadStepsWithinWork(variants: seq<Contract>, v: Value)
    ensures VariantReadSteps(variants, v) <= VariantWork(variants, v)
    decreases variants, 0, 0
  {
    if variants != [] {
      ReadStepsWithinWork(variants[0], v);
      VariantReadStepsWithinWork(variants[1..], v);
    }
  }

  // ---------------------------------------------------------------- project_value_at

  /** From `spent` steps on, a part needing `needed` more was read with the outcome `expected`, or ran out. */
  predicate MeteredRead(spent: nat, needed: nat, expected: Option<Value>, r: Result<Value, ValidationError>,
      steps: nat) {
    if spent + needed <= VALIDATION_MAX_STEPS then
      steps == spent + needed && if expected.Some? then r == Ok(expected.value) else r.Err?
    else steps > VALIDATION_MAX_STEPS && r.Err?
  }

  /** The steps are counted exactly; within the budget the outcome is the reading, beyond it every call fails. */
  method ProjectAt(c: Contract, v: Value, spent: nat) returns (r: Result<Value, ValidationError>, steps: nat)
    ensures MeteredRead(spent, ReadSteps(c, v), Reading(c, v), r, steps)
    decreases c, 1
  {
    steps := spent + 1;
    if steps > VALIDATION_MAX_STEPS {
      return Err(BoundViolation), steps;
    }
    if c.Any? {
      r := Ok(v);
    } else if c.Object? && v.ObjectValue? {
      r, steps := ProjectObjectAt(c, v, steps);
    } else if c.Array? && v.ArrayValue? {
      r, steps := ProjectArrayAt(c, v, steps);
    } else if c.Union? {
      r, steps := ProjectUnionAt(c, v, steps);
    } else {
      var failure := ValidateValue(c, v);
      r := if failure.None? then Ok(v) else Err(failure.value);
    }
  }

  method ProjectObjectAt(c: Contract, v: Value, spent: nat) returns (r: Result<Value, ValidationError>, steps: nat)
    requires c.Object? && v.ObjectValue? && spent <= VALIDATION_MAX_STEPS
    ensures MeteredRead(spent, FieldReadSteps(c, v.entries, c.fields.Keys), Reading(c, v), r, steps)
    decreases c, 0
  {
    steps := spent;
    var projected: map<Text, Value> := map[];
    var todo := c.fields.Keys;
    while todo != {}
      invariant steps <= VALIDATION_MAX_STEPS
      invariant todo <= c.fields.Keys
      invariant steps + FieldReadSteps(c, v.entries, todo) == spent + FieldReadSteps(c, v.entries, c.fields.Keys)
      invariant forall k :: k in c.fields && k !in todo ==> FieldReads(c, v.entries, k)
      invariant forall k :: k in projected <==> k in c.fields && k !in todo && k in v.entries
      invariant forall k :: k in projected ==> Reading(c.fields[k], v.entries[k]) == Some(projected[k])
      decreases todo
    {
      var k: Text := Least(todo);
      if k in v.entries {
        var view;
        view, steps := ProjectAt(c.fields[k], v.entries[k], steps);
        if view.Err? {
          return view, steps;
        }
        projected := projected[k := view.value];
      } else if k !in c.optional {
        return Err(ObjectShape), steps;
      }
      todo := todo - {k};
    }
    r := Ok(ObjectValue(projected));
    assert Reading(c, v).value.entries == projected;
  }

  method ProjectArrayAt(c: Contract, v: Value, spent: nat) returns (r: Result<Value, ValidationError>, steps: nat)
    requires c.Array? && v.ArrayValue? && spent <= VALIDATION_MAX_STEPS
    ensures MeteredRead(spent, ItemReadSteps(c.items, v.items), Reading(c, v), r, steps)
    decreases c, 0
  {
    steps := spent;
    var projected: seq<Value> := [];
    for i := 0 to |v.items|
      invariant steps <= VALIDATION_MAX_STEPS
      invariant steps + ItemReadSteps(c.items, v.items[i..]) == spent + ItemReadSteps(c.items, v.items)
      invariant |projected| == i && forall j :: 0 <= j < i ==> Reading(c.items, v.items[j]) == Some(projected[j])
    {
      assert v.items[i..][1..] == v.items[i + 1..];
      var view;
      view, steps := ProjectAt(c.items, v.items[i], steps);
      if view.Err? {
        return view, steps;
      }
      projected := projected + [view.value];
    }
    assert projected == seq(|v.items|, j requires 0 <= j < |v.items| => Reading(c.items, v.items[j]).value);
    var failure := ValidateValue(c, ArrayValue(projected));
    r := if failure.None? then Ok(ArrayValue(projected)) else Err(failure.value);
  }

  method ProjectUnionAt(c: Contract, v: Value, spent: nat) returns (r: Result<Value, ValidationError>, steps: nat)
    requires c.Union? && spent <= VALIDATION_MAX_STEPS
    ensures MeteredRead(spent, VariantReadSteps(c.variants, v), Reading(c, v), r, steps)
    decreases c, 0
  {
    steps := spent;
    for i := 0 to |c.variants|
      invariant VariantsTried(c.variants, v, i, spent, steps)
    {
      NextVariant(c.variants, v, i, spent, steps);
      r, steps := ProjectAt(c.variants[i], v, steps);
      if r.Ok? {
        var failure := ValidateValue(c.variants[i], r.value);
        if failure.None? {
          return;
        }
      }
    }
    r := Err(UnionMismatch);
  }

  /** No variant before `i` reads, and their steps were counted unless the budget ran out. */
  ghost predicate VariantsTried(variants: seq<Contract>, v: Value, i: nat, spent: nat, steps: nat)
    requires i <= |variants|
  {
    if steps <= VALIDATION_MAX_STEPS then
      steps + VariantReadSteps(variants[i..], v) == spent + VariantReadSteps(variants, v)
        && i <= FirstReading(variants, v)
    else spent + VariantReadSteps(variants, v) > VALIDATION_MAX_STEPS
  }

  lemma NextVariant(variants: seq<Contract>, v: Value, i: nat, spent: nat, steps: nat)
    requires i < |variants| && VariantsTried(variants, v, i, spent, steps)
    ensures var after := steps + ReadSteps(variants[i], v);
            if after > VALIDATION_MAX_STEPS then spent + VariantReadSteps(variants, v) > VALIDATION_MAX_STEPS
            else if VariantReads(variants[i], v) then
              && after == spent + VariantReadSteps(variants, v)
              && Reading(Union(variants), v) == Reading(variants[i], v)
            else VariantsTried(variants, v, i + 1, spent, after)
  {
    assert variants[i..][1..] == variants[i + 1..];
  }

  /**
   Succeeds exactly when there is a reading within the budget. A view returned is always valid and
   only drops keys; it is the budget-free one exactly on covered values.
   */
  method ProjectValue(c: Contract, v: Value) returns (r: Result<Value, ValidationError>)
    ensures r.Ok? <==> Reading(c, v).Some? && ReadSteps(c, v) <= VALIDATION_MAX_STEPS
    ensures r.Ok? ==> Reading(c, v) == Some(r.value) && Accepts(c, r.value) && Thinner(r.value, v)
    ensures if Project(c, v).None? then r.Err?
            else r == Ok(Project(c, v).value) <==> Covered(c, v) && ReadSteps(c, v) <= VALIDATION_MAX_STEPS
  {
    var steps;
    r, steps := ProjectAt(c, v, 0);
    if Reading(c, v).Some? {
      ReadingIsSound(c, v);
      ReadingNeedsView(c, v);
    }
    if Project(c, v).Some? {
      ReadingIsExact(c, v);
    }
  }

  /** On a value whose nodes fit the budget the read succeeds exactly when there is a view, and gives it. */
  lemma ReadingIsView(c: Contract, v: Value)
    requires Work(c, v) <= VALIDATION_MAX_STEPS
    ensures Reading(c, v) == Project(c, v) && ReadSteps(c, v) <= VALIDATION_MAX_STEPS
  {
    ReadStepsWithinWork(c, v);
    if Project(c, v).Some? {
      WorkCovers(c, v);
      ReadingIsExact(c, v);
    } else if Reading(c, v).Some? {
      ReadingNeedsView(c, v);
    }
  }
}
