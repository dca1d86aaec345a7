/** JSON values as `serde_json` holds them, and their text. */
module Json {
  import opened Wrappers
  import opened Text
  import opened Numbers

  /** The canonical text of a finite f64. */
  type FloatText = s: string | IsFloatText(s) witness "0.5"

  predicate IsFloatText(s: string) {
    s != [] && forall i :: 0 <= i < |s| ==> IsFloatChar(s[i])
  }

  predicate IsFloatChar(c: char) {
    IsDigit(c) || c == '.' || c == 'e' || c == '+' || c == '-'
  }

  datatype Number = Int(i: int) | Float(text: FloatText)

  /** An object is a map: `serde_json` keeps it sorted by name, and where the
      order of its names matters the string order of `Text` is used. */
  datatype Value =
    | Null
    | Bool(b: bool)
    | Num(n: Number)
    | Str(s: string)
    | Arr(items: seq<Value>)
    | Obj(fields: Fields)

  type Fields = map<string, Value>

  /** What the model does not look into: reading a text as a finite f64, and
      reading a text as a date and time in Asia/Shanghai. */
  datatype Host = Host(parseFloat: string -> Option<FloatText>, parseDate: string -> Option<int>)

  function NumberText(n: Number): (s: string)
    ensures s != [] && HasNoWhitespace(s)
  {
    match n
    case Int(i) => IntText(i)
    case Float(text) => text
  }

  function BoolText(b: bool): string {
    if b then "true" else "false"
  }

  /** `obj.get(name).and_then(Value::as_str)` */
  function GetStr(fields: Fields, name: string): Option<string> {
    if name in fields && fields[name].Str? then Some(fields[name].s) else None
  }
}
