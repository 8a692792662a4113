/**
 JSON values, and the library that reads and writes them as a pair of parameters: every
 theorem that needs the pair to round-trip says so.
 */
module Json {
  import opened Options
  import opened Utf8
  import opened Numerals

  datatype Value =
    | Null
    | Bool(truth: bool)
    | Number(number: real)
    | Text(text: string)
    | Array(items: seq<Value>)
    | Object(fields: map<string, Value>)
  {
    /** `Value::get`: only objects have fields. */
    function Get(name: string): Option<Value> {
      if Object? && name in fields then Some(fields[name]) else None
    }

    /** `Value::get` followed by `Value::as_str`. */
    function GetText(name: string): Option<string> {
      match Get(name)
      case Some(Text(text)) => Some(text)
      case _ => None
    }
  }

  const EMPTY_OBJECT := Object(map[])

  datatype Codec = Codec(parse: bytes -> Option<Value>, render: Value -> Option<bytes>) {
    /** `to_vec`, with the fixed text that stands in when it fails. */
    function Print(value: Value): bytes {
      match render(value)
      case Some(b) => b
      case None => Encode("{\"error\":\"serialization_failed\"}")
    }

    /** Printing `value` succeeds, fits in memory, and parsing gives it back. */
    ghost predicate Lossless(value: Value) {
      render(value).Some? && |render(value).value| <= ISIZE_MAX && parse(render(value).value) == Some(value)
    }
  }
}
