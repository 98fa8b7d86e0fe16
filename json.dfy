/**
 * JSON documents as the proxy sees them once encoding/json has decoded
 * them into Go's `map[string]any` / `[]any` values, and the codec itself
 * as an opaque parameter.
 */
module Json {
  import opened Wrappers
  import opened Bytes

  /**
   * A decoded JSON value. Go decodes objects into maps, which have no key
   * order and keep the last of duplicate keys, so an object is a map here.
   * A number is an opaque token standing for the float64 Go decodes it to.
   */
  datatype Value =
    | Null
    | Bool(b: bool)
    | Number(token: string)
    | Str(s: string)
    | Array(items: seq<Value>)
    | Object(fields: map<string, Value>)

  /**
   * json.Unmarshal and json.Marshal, which this model does not look inside:
   * parse yields None on a syntax error, serialize yields None when Marshal
   * reports an error.
   */
  datatype Codec = Codec(parse: seq<byte> -> Option<Value>, serialize: Value -> Option<seq<byte>>)

  /** The one key both rewrites are about. */
  const ReasoningContent := "reasoning_content"

  /**
   * json.Unmarshal into a `map[string]any` variable: an object decodes to
   * a map, `null` decodes without error to a nil map, every other value is
   * a type error.
   */
  function DecodeObject(c: Codec, data: seq<byte>): (r: Option<Value>)
    ensures r.Some? <==> c.parse(data).Some? && (c.parse(data).value.Object? || c.parse(data).value.Null?)
    ensures r.Some? ==> r == c.parse(data)
  {
    match c.parse(data)
    case Some(Object(m)) => Some(Object(m))
    case Some(Null) => Some(Null)
    case _ => None
  }

  /**
   * Indexing a Go map that may be nil (or reading a field of a value that
   * is not an object): None stands for the missing key.
   */
  function Get(v: Value, key: string): (r: Option<Value>)
    ensures r.Some? <==> v.Object? && key in v.fields
    ensures r.Some? ==> r.value == v.fields[key]
  {
    if v.Object? && key in v.fields then Some(v.fields[key]) else None
  }

  /** Marshal followed by Unmarshal gives back the value that was marshalled. */
  ghost predicate RoundTrips(c: Codec)
  {
    forall v :: c.serialize(v).Some? ==> c.parse(c.serialize(v).value) == Some(v)
  }

  /**
   * Marshal writes compact output: no raw newline (newlines inside strings
   * are escaped), and it starts and ends with a printable non-space
   * character (`{`, `}`, `n`, `l`, ...).
   */
  ghost predicate CompactOutput(c: Codec)
  {
    forall v :: c.serialize(v).Some? ==> IsCompact(c.serialize(v).value)
  }

  predicate IsCompact(s: seq<byte>)
  {
    && |s| > 0
    && IsPrintable(s[0]) && IsPrintable(s[|s| - 1])
    && forall i | 0 <= i < |s| :: s[i] != LF
  }
}
