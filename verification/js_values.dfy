/** The JavaScript values the index builder handles: parsed JSON (the
    manifest, the repository profile) plus `undefined`, which a property read
    of a missing field produces and which an object spread copies along. */
module JsValues {
  import opened Strings

  /** Numbers are integral here; see README for what that leaves out. */
  datatype Value =
    | Undefined
    | Null
    | Bool(b: bool)
    | Num(n: int)
    | Str(s: string)
    | Arr(items: seq<Value>)
    | Obj(fields: map<string, Value>)

  /** JavaScript truthiness: what `!v` negates and what `v || w` tests. */
  predicate Truthy(v: Value) {
    match v
    case Undefined => false
    case Null => false
    case Bool(b) => b
    case Num(n) => n != 0
    case Str(s) => s != ""
    case Arr(_) => true
    case Obj(_) => true
  }

  /** `v.key` and `v?.key`: an own field of an object, `undefined` for a
      missing field or for a value that is not an object. */
  function Get(v: Value, key: string): (r: Value)
    ensures !v.Obj? ==> r == Undefined
  {
    if v.Obj? && key in v.fields then v.fields[key] else Undefined
  }

  /** `parts.join(sep)` */
  function Join(parts: seq<string>, sep: string): string {
    if |parts| == 0 then ""
    else if |parts| == 1 then parts[0]
    else Join(parts[..|parts| - 1], sep) + sep + parts[|parts| - 1]
  }

  /** `String(v)`: the text a template literal inserts and the property key
      an object lookup `o[v]` uses. Arrays join their elements with commas,
      rendering `null` and `undefined` elements as empty text. */
  function ToString(v: Value): string {
    match v
    case Undefined => "undefined"
    case Null => "null"
    case Bool(b) => if b then "true" else "false"
    case Num(n) => if n < 0 then "-" + Decimal(-n) else Decimal(n)
    case Str(s) => s
    case Arr(items) =>
      Join(seq(|items|, i requires 0 <= i < |items| =>
        if items[i].Undefined? || items[i].Null? then "" else ToString(items[i])), ",")
    case Obj(_) => "[object Object]"
  }
}
