/** Canonical values, and the small types shared by every module. */
module Values {

  import opened Order

  datatype Option<+T> = None | Some(value: T)

  datatype Result<+T, +E> = Ok(value: T) | Err(error: E)

  /** UTF-8 bytes of a string; their lexicographic order is the order of the ordered maps. */
  type Text = Key

  /**
   The canonical value algebra. A finite binary64 number is the real number it denotes (there is
   one canonical zero, so equal reals are equal values), and a string is its UTF-8 bytes.
   */
  datatype Value =
    | NullValue
    | BooleanValue(b: bool)
    | Int64Value(i: int)
    | Float64Value(r: real)
    | StringValue(utf8: Text)
    | BytesValue(bytes: seq<int>)
    | TimestampValue(micros: int)
    | TypedIdValue(kind: Text, ulid: nat)
    | ArrayValue(items: seq<Value>)
    | ObjectValue(entries: map<Text, Value>)
}
