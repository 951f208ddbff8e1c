/** JSON values as `encoding/json` sees them, and the printer and parser of their text. */
module Json {
  import opened Text

  /** `Fixed` is a number printed with six decimals, here counted in millionths. */
  datatype Json =
    | Null
    | Bool(b: bool)
    | Int(i: int)
    | Fixed(millionths: int)
    | Str(s: string)
    | Arr(elems: seq<Json>)
    | Obj(fields: seq<(string, Json)>)

  /** The text form of JSON, kept abstract: `encode` is `json.Marshal` and `decode` is `json.Unmarshal`. */
  datatype Codec = Codec(encode: Json -> Bytes, decode: Bytes -> Option<Json>)

  /** What is assumed of the text of a value: printing is undone by parsing, with or without the newline that
      `json.Encoder` appends, and the compact text is one clean non-empty line. `encoding/json` meets this for
      values whose strings are valid UTF-8. */
  predicate Faithful(codec: Codec, v: Json) {
    && codec.decode(codec.encode(v)) == Some(v)
    && codec.decode(codec.encode(v) + NEWLINE) == Some(v)
    && codec.encode(v) != []
    && CleanLine(codec.encode(v))
  }

  /** Unmarshalling into an `int` that holds `current`: JSON null leaves it alone. */
  function DecodeInt(v: Json, current: int64): Option<int64> {
    match v
    case Int(i) => if -TWO_63 <= i < TWO_63 then Some(i) else None
    case Null => Some(current)
    case _ => None
  }

  /** Unmarshalling into a `string` that holds `current`. */
  function DecodeStr(v: Json, current: string): Option<string> {
    match v
    case Str(s) => Some(s)
    case Null => Some(current)
    case _ => None
  }

  /** Unmarshalling into a nil slice of raw values. */
  function DecodeArr(v: Json): Option<seq<Json>> {
    match v
    case Arr(elems) => Some(elems)
    case Null => Some([])
    case _ => None
  }
}
