/** Which canonical values the stored-value codec encodes: bounded depth, containers, keys and total length. */
module StoredValues {

  import opened Order
  import opened Values

  const STORED_VALUE_MAX_BYTES: nat := 1_048_576
  const MAX_DEPTH: nat := 64
  const MAX_CONTAINER_ITEMS: nat := 10_000
  const MAX_OBJECT_KEY_BYTES: nat := 256
  const MAX_ID_KIND_BYTES: nat := 16

  /** The bytes of a value without the header, or `None` when a limit is exceeded. */
  function BodyLength(v: Value, depth: nat): (r: Option<nat>)
    ensures r.Some? ==> r.value <= STORED_VALUE_MAX_BYTES
    decreases v, 1, 0
  {
    if depth > MAX_DEPTH then None
    else
      match v
      case NullValue => Some(1)
      case BooleanValue(_) => Some(1)
      case Int64Value(_) => Some(9)
      case Float64Value(_) => Some(9)
      case TimestampValue(_) => Some(9)
      case StringValue(utf8) => Sum(Some(5), Some(|utf8|))
      case BytesValue(bytes) => Sum(Some(5), Some(|bytes|))
      case TypedIdValue(kind, _) => if |kind| <= MAX_ID_KIND_BYTES then Some(3 + |kind| + 27) else None
      case ArrayValue(items) =>
        if |items| <= MAX_CONTAINER_ITEMS then Sum(Some(5), ItemsLength(items, depth + 1)) else None
      case ObjectValue(entries) =>
        if |entries| <= MAX_CONTAINER_ITEMS then Sum(Some(5), FieldsLength(v, entries.Keys, depth + 1)) else None
  }

  function Sum(a: Option<nat>, b: Option<nat>): Option<nat> {
    if a.Some? && b.Some? && a.value + b.value <= STORED_VALUE_MAX_BYTES then Some(a.value + b.value) else None
  }

  function ItemsLength(items: seq<Value>, depth: nat): Option<nat>
    decreases items, 0, 0
  {
    if items == [] then Some(0) else Sum(BodyLength(items[0], depth), ItemsLength(items[1..], depth))
  }

  function FieldsLength(v: Value, names: set<Text>, depth: nat): Option<nat>
    requires v.ObjectValue? && names <= v.entries.Keys
    decreases v, 0, |names|
  {
    if names == {} then Some(0)
    else
      var k: Text := Least(names);
      if |k| > MAX_OBJECT_KEY_BYTES then None
      else Sum(Sum(Some(2 + |k|), BodyLength(v.entries[k], depth)), FieldsLength(v, names - {k}, depth))
  }

  /** The codec encodes the value: two magic bytes and a version come first. */
  predicate Storable(v: Value) {
    BodyLength(v, 0).Some? && 3 + BodyLength(v, 0).value <= STORED_VALUE_MAX_BYTES
  }
}
