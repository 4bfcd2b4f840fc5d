/** The JSON values the exporter receives from the geometry service, and
    the JavaScript coercions it applies to them: truthiness, optional
    chaining (`v?.key`) and `String(v)`. */
module JsValue {
  import opened Results
  import opened JsText

  /** A parsed JSON document. Numbers are integers in this model. */
  datatype Json =
    | JNull
    | JBool(b: bool)
    | JNum(n: int)
    | JStr(s: string)
    | JArr(items: seq<Json>)
    | JObj(fields: map<string, Json>)

  /** `v?.[key]`: `None` stands for `undefined`. Only objects have own
      properties here. */
  function Get(v: Option<Json>, key: string): (r: Option<Json>)
    ensures r.Some? <==> v.Some? && v.value.JObj? && key in v.value.fields
    ensures r.Some? ==> r.value == v.value.fields[key]
  {
    if v.Some? && v.value.JObj? && key in v.value.fields then Some(v.value.fields[key]) else None
  }

  /** JavaScript truthiness; `None` is `undefined`. */
  predicate Truthy(v: Option<Json>) {
    match v
    case None => false
    case Some(j) =>
      match j
      case JNull => false
      case JBool(b) => b
      case JNum(n) => n != 0
      case JStr(s) => s != ""
      case JArr(_) => true
      case JObj(_) => true
  }

  /** `items.join(",")`. */
  function JoinComma(items: seq<string>): string {
    if items == [] then ""
    else if |items| == 1 then items[0]
    else items[0] + "," + JoinComma(items[1..])
  }

  /** `String(v)`. An array is joined with commas, its `null` elements
      written as empty strings. */
  function ToJsString(v: Json): string
    decreases v
  {
    match v
    case JNull => "null"
    case JBool(b) => if b then "true" else "false"
    case JNum(n) => IntToDecimal(n)
    case JStr(s) => s
    case JArr(items) =>
      JoinComma(seq(|items|, i requires 0 <= i < |items| =>
        if items[i].JNull? then "" else ToJsString(items[i])))
    case JObj(_) => "[object Object]"
  }

  /** `String(v || "")`: the empty string for falsy values. */
  function StringOrEmpty(v: Option<Json>): (r: string)
    ensures !Truthy(v) ==> r == ""
    ensures v.Some? && v.value.JStr? ==> r == v.value.s
  {
    if Truthy(v) then ToJsString(v.value) else ""
  }
}
