/**
  The JavaScript values the core inspects dynamically: what `js-yaml` loads,
  what `JSON.parse` returns and what the post payload holds before cleaning.
  Truthiness and `String(v)` are modelled because the source branches on them.
 */
module JsValues {

  import opened Text

  datatype Value =
    | Undefined
    | Null
    | Bool(b: bool)
    | Num(n: int)
    | Str(s: string)
    | Arr(items: seq<Value>)
    | Obj(fields: map<string, Value>)
      /** Any other object (a YAML timestamp loads as a `Date`); `String(v)` is `shown`. */
    | Other(shown: string)

  /** JavaScript truthiness: `undefined`, `null`, `false`, `0` and `''` are falsy. */
  predicate Truthy(v: Value) {
    match v
    case Undefined => false
    case Null => false
    case Bool(b) => b
    case Num(n) => n != 0
    case Str(s) => s != ""
    case _ => true
  }

  /** `String(v)`; an array joins its elements with ",", rendering `null` and `undefined` as "". */
  function ToJsString(v: Value): string
  {
    match v
    case Undefined => "undefined"
    case Null => "null"
    case Bool(b) => if b then "true" else "false"
    case Num(n) => IntToString(n)
    case Str(s) => s
    case Arr(items) =>
      Join(seq(|items|, k requires 0 <= k < |items| =>
        if items[k].Null? || items[k].Undefined? then "" else ToJsString(items[k])), ',')
    case Obj(_) => "[object Object]"
    case Other(shown) => shown
  }

  /** Property read `v[key]`; a missing property, or one read off a non-object, is `undefined`. */
  function Get(v: Value, key: string): (r: Value)
    ensures !v.Obj? ==> r == Undefined
  {
    if v.Obj? && key in v.fields then v.fields[key] else Undefined
  }

  lemma StringOfString(s: string)
    ensures ToJsString(Str(s)) == s
  {
  }
}
