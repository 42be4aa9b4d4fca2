/**
 Contracts over canonical values, without work budgets: what a contract accepts, the read view it
 gives of a stored value, and the merge that a full replacement performs.
 */
module Contracts {

  import opened Values

  datatype Contract =
    | Any
    | Null
    | Boolean
    | Int64(minimum: Option<int>, maximum: Option<int>)
    | Float64(lowest: Option<real>, highest: Option<real>)
    | String(minimumBytes: Option<nat>, maximumBytes: Option<nat>)
    | Bytes(minimumLength: Option<nat>, maximumLength: Option<nat>)
    | Timestamp
    | TypedId(kind: Option<Text>)
    | DocumentId(table: Text)
    | Array(items: Contract, minimumItems: Option<nat>, maximumItems: Option<nat>)
    | Object(fields: map<Text, Contract>, optional: set<Text>)
    | Union(variants: seq<Contract>)

  predicate IntWithin(x: int, minimum: Option<int>, maximum: Option<int>) {
    (minimum.Some? ==> minimum.value <= x) && (maximum.Some? ==> x <= maximum.value)
  }

  predicate RealWithin(x: real, minimum: Option<real>, maximum: Option<real>) {
    (minimum.Some? ==> minimum.value <= x) && (maximum.Some? ==> x <= maximum.value)
  }

  /** The kind prefix of document identifiers, "doc". */
  const DOCUMENT_KIND: Text := [100, 111, 99]

  /** The exact keys an object contract demands and allows. */
  predicate ShapeFits(fields: map<Text, Contract>, optional: set<Text>, entries: map<Text, Value>) {
    && entries.Keys <= fields.Keys
    && forall k :: k in fields && k !in optional ==> k in entries
  }

  predicate Accepts(c: Contract, v: Value)
    decreases c
  {
    match c
    case Any => true
    case Null => v.NullValue?
    case Boolean => v.BooleanValue?
    case Timestamp => v.TimestampValue?
    case Int64(minimum, maximum) => v.Int64Value? && IntWithin(v.i, minimum, maximum)
    case Float64(lowest, highest) => v.Float64Value? && RealWithin(v.r, lowest, highest)
    case String(minimum, maximum) => v.StringValue? && IntWithin(|v.utf8|, minimum, maximum)
    case Bytes(minimum, maximum) => v.BytesValue? && IntWithin(|v.bytes|, minimum, maximum)
    case TypedId(kind) => v.TypedIdValue? && (kind.None? || kind.value == v.kind)
    case DocumentId(_) => v.TypedIdValue? && v.kind == DOCUMENT_KIND
    case Array(items, minimum, maximum) =>
      && v.ArrayValue?
      && IntWithin(|v.items|, minimum, maximum)
      && forall i :: 0 <= i < |v.items| ==> Accepts(items, v.items[i])
    case Object(fields, optional) =>
      && v.ObjectValue?
      && ShapeFits(fields, optional, v.entries)
      && forall k :: k in v.entries ==> Accepts(fields[k], v.entries[k])
    case Union(variants) => exists i :: 0 <= i < |variants| && Accepts(variants[i], v)
  }

  /** Index of the first variant accepting `v`, or the number of variants. */
  function FirstAccepting(variants: seq<Contract>, v: Value): (i: nat)
    ensures i <= |variants|
    ensures forall j :: 0 <= j < i ==> !Accepts(variants[j], v)
    ensures i < |variants| ==> Accepts(variants[i], v)
  {
    if variants == [] then 0
    else if Accepts(variants[0], v) then 0
    else 1 + FirstAccepting(variants[1..], v)
  }

  /** One Release's read view of a stored value: unknown object keys are dropped. */
  function Project(c: Contract, v: Value): (r: Option<Value>)
    ensures r.Some? ==> Accepts(c, r.value)
    decreases c, 1
  {
    match c
    case Any => Some(v)
    case Object(fields, optional) =>
      if v.ObjectValue? && (forall k :: k in fields ==>
          if k in v.entries then Project(fields[k], v.entries[k]).Some? else k in optional)
      then Some(ObjectValue(map k | k in fields && k in v.entries :: Project(fields[k], v.entries[k]).value))
      else None
    case Array(items, _, _) =>
      if v.ArrayValue? && (forall i :: 0 <= i < |v.items| ==> Project(items, v.items[i]).Some?) then
        var projected := ArrayValue(seq(|v.items|, i requires 0 <= i < |v.items| => Project(items, v.items[i]).value));
        if Accepts(c, projected) then Some(projected) else None
      else None
    case Union(variants) =>
      var i := FirstProjecting(variants, v);
      if i < |variants| then Project(variants[i], v) else None
    case _ => if Accepts(c, v) then Some(v) else None
  }

  /** Index of the first variant whose view of `v` exists and is valid, or the number of variants. */
  function FirstProjecting(variants: seq<Contract>, v: Value): (i: nat)
    ensures i <= |variants|
    ensures forall j :: 0 <= j < i ==> Project(variants[j], v).None?
    ensures i < |variants| ==> Project(variants[i], v).Some?
    decreases variants, 0
  {
    if variants == [] then 0
    else
      var projected := Project(variants[0], v);
      if projected.Some? && Accepts(variants[0], projected.value) then 0
      else 1 + FirstProjecting(variants[1..], v)
  }

  /**
   The value stored by a full replacement: known keys come from the replacement, keys unknown to
   the contract from the stored counterpart. `None` stands for an absent stored counterpart.
   */
  function Merge(c: Contract, stored: Option<Value>, r: Value): Value
    requires Accepts(c, r)
    decreases c
  {
    if stored.None? then r else
      match c
      case Object(fields, _) =>
        if !stored.value.ObjectValue? then r else
          var before := stored.value.entries;
          ObjectValue(map k | k in (before.Keys - fields.Keys) + r.entries.Keys ::
                        if k in r.entries then Merge(fields[k], Field(stored, k), r.entries[k]) else before[k])
      case Array(items, _, _) =>
        if !stored.value.ArrayValue? then r else
          ArrayValue(seq(|r.items|, i requires 0 <= i < |r.items| => Merge(items, Item(stored, i), r.items[i])))
      case Union(variants) => Merge(variants[FirstAccepting(variants, r)], stored, r)
      case _ => r
  }

  function Field(v: Option<Value>, k: Text): Option<Value> {
    if v.Some? && v.value.ObjectValue? && k in v.value.entries then Some(v.value.entries[k]) else None
  }

  function Item(v: Option<Value>, i: nat): Option<Value> {
    if v.Some? && v.value.ArrayValue? && i < |v.value.items| then Some(v.value.items[i]) else None
  }

  // ---------------------------------------------------------------- laws of every contract

  /** Whatever a contract accepts, it can also read. */
  lemma {:induction false} AcceptedIsProjectable(c: Contract, v: Value)
    requires Accepts(c, v)
    ensures Project(c, v).Some?
    decreases c
  {
    match c
    case Object(fields, optional) =>
      forall k | k in fields && k in v.entries ensures Project(fields[k], v.entries[k]).Some? {
        AcceptedIsProjectable(fields[k], v.entries[k]);
      }
    case Array(items, minimum, maximum) =>
      forall i | 0 <= i < |v.items| ensures Project(items, v.items[i]).Some? {
        AcceptedIsProjectable(items, v.items[i]);
      }
    case Union(variants) =>
      AcceptedIsProjectable(variants[FirstAccepting(variants, v)], v);
    case _ =>
  }

  /** After a valid replacement the writer can read the stored value, whatever was stored before. */
  lemma {:induction false} MergedIsProjectable(c: Contract, stored: Option<Value>, r: Value)
    requires Accepts(c, r)
    ensures Project(c, Merge(c, stored, r)).Some?
    decreases c
  {
    if stored.None? {
      AcceptedIsProjectable(c, r);
    } else {
      match c
      case Object(fields, optional) =>
        forall k | k in fields && k in r.entries
          ensures Project(fields[k], Merge(fields[k], Field(stored, k), r.entries[k])).Some?
          ensures Project(fields[k], r.entries[k]).Some?
        {
          MergedIsProjectable(fields[k], Field(stored, k), r.entries[k]);
          AcceptedIsProjectable(fields[k], r.entries[k]);
        }
      case Array(items, minimum, maximum) =>
        forall i | 0 <= i < |r.items|
          ensures Project(items, Merge(items, Item(stored, i), r.items[i])).Some?
          ensures Project(items, r.items[i]).Some?
        {
          MergedIsProjectable(items, Item(stored, i), r.items[i]);
          AcceptedIsProjectable(items, r.items[i]);
        }
      case Union(variants) =>
        MergedIsProjectable(variants[FirstAccepting(variants, r)], stored, r);
      case _ =>
    }
  }

  // ---------------------------------------------------------------- one object level of a view

  lemma ObjectView(c: Contract, v: Value, projected: map<Text, Value>)
    requires c.Object? && v.ObjectValue?
    requires forall k :: k in c.fields && k !in v.entries ==> k in c.optional
    requires forall k :: k in projected <==> k in c.fields && k in v.entries
    requires forall k :: k in projected ==> Project(c.fields[k], v.entries[k]) == Some(projected[k])
    ensures Project(c, v) == Some(ObjectValue(projected))
  {
    assert forall k :: k in c.fields && k in v.entries ==> k in projected;
    assert Project(c, v).Some?;
    assert Project(c, v).value.entries == projected;
  }

  lemma UnreadableField(c: Contract, v: Value, k: Text)
    requires c.Object? && v.ObjectValue? && k in c.fields && k in v.entries
    requires Project(c.fields[k], v.entries[k]).None?
    ensures Project(c, v).None?
  {
  }

  lemma MissingField(c: Contract, v: Value, k: Text)
    requires c.Object? && v.ObjectValue? && k in c.fields && k !in v.entries && k !in c.optional
    ensures Project(c, v).None?
  {
  }

  // ---------------------------------------------------------------- one union level

  lemma UnionView(variants: seq<Contract>, v: Value, reader: nat)
    requires reader < |variants| && reader == FirstProjecting(variants, v)
    ensures Project(Union(variants), v) == Project(variants[reader], v)
  {
  }

  lemma UnionMerge(variants: seq<Contract>, stored: Option<Value>, r: Value, writer: nat)
    requires writer < |variants| && writer == FirstAccepting(variants, r)
    ensures Accepts(Union(variants), r)
    ensures Merge(Union(variants), stored, r) == Merge(variants[writer], stored, r)
  {
  }
}
