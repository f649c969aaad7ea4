/** Parsed JSON values as JavaScript sees them after `JSON.parse`. An object
    key that is absent reads as `undefined`, modelled by `None`. Numbers are
    integers in this model. */
module Json {
  import opened Wrappers
  import Numerals
  import Text

  datatype Json =
    | JNull
    | JBool(b: bool)
    | JNum(n: int)
    | JStr(s: string)
    | JArr(items: seq<Json>)
    | JObj(fields: map<string, Json>)

  /** `v.key` on a value that is not `null`: only objects carry properties here. */
  function Get(v: Json, key: string): Option<Json>
  {
    if v.JObj? && key in v.fields then Some(v.fields[key]) else None
  }

  /** `v?.key`: also `undefined` when `v` is null or undefined. */
  function GetOpt(v: Option<Json>, key: string): Option<Json>
  {
    if v.Some? && !v.value.JNull? then Get(v.value, key) else None
  }

  /** `null` or `undefined`. */
  predicate IsNullish(v: Option<Json>)
  {
    v.None? || v.value.JNull?
  }

  /** `a ?? b`. */
  function Coalesce(a: Option<Json>, b: Option<Json>): (r: Option<Json>)
    ensures !IsNullish(a) ==> r == a
    ensures IsNullish(a) ==> r == b
  {
    if IsNullish(a) then b else a
  }

  /** JavaScript truthiness of a value. */
  predicate Truthy(v: Json)
  {
    match v
    case JNull => false
    case JBool(b) => b
    case JNum(n) => n != 0
    case JStr(s) => s != ""
    case JArr(_) => true
    case JObj(_) => true
  }

  predicate TruthyOpt(v: Option<Json>)
  {
    v.Some? && Truthy(v.value)
  }

  /** `String(v)`. */
  function ToJsString(v: Json): string
    decreases v, 1
  {
    match v
    case JNull => "null"
    case JBool(b) => if b then "true" else "false"
    case JNum(n) => Numerals.IntToString(n)
    case JStr(s) => s
    case JArr(items) => JoinElements(v, items)
    case JObj(_) => "[object Object]"
  }

  /** `items.join(',')`, where `null` elements render as the empty string. */
  function JoinElements(parent: Json, items: seq<Json>): string
    requires parent.JArr? && forall i :: 0 <= i < |items| ==> items[i] < parent
    decreases parent, 0, |items|
  {
    if |items| == 0 then ""
    else
      var head := if items[0].JNull? then "" else ToJsString(items[0]);
      if |items| == 1 then head else head + "," + JoinElements(parent, items[1..])
  }

  /** `String(v ?? '')`. */
  function StringOrEmpty(v: Option<Json>): string
  {
    if IsNullish(v) then "" else ToJsString(v.value)
  }

  /** `String(v)` of a string is the string itself. */
  lemma ToJsStringOfString(s: string)
    ensures ToJsString(JStr(s)) == s
  {
  }

  /** `Array.isArray(v)`. */
  predicate IsArray(v: Option<Json>)
  {
    v.Some? && v.value.JArr?
  }

  /** `typeof v === "string" ? v.trim() : ""`. */
  function TrimmedStringOrEmpty(v: Option<Json>): (r: string)
    ensures v.Some? && v.value.JStr? ==> r == Text.Trim(v.value.s)
    ensures !(v.Some? && v.value.JStr?) ==> r == ""
    ensures Text.IsTrimmed(r)
  {
    Text.TrimProperties(if v.Some? && v.value.JStr? then v.value.s else "");
    if v.Some? && v.value.JStr? then Text.Trim(v.value.s) else ""
  }

  /** Reading back a trimmed string gives the string itself. */
  lemma TrimmedStringOfTrimmed(s: string)
    requires Text.IsTrimmed(s)
    ensures TrimmedStringOrEmpty(Some(JStr(s))) == s
  {
    Text.TrimProperties(s);
  }

  /** A JSON array of strings. */
  function Strings(xs: seq<string>): (r: Json)
    ensures r.JArr? && |r.items| == |xs|
    ensures forall i :: 0 <= i < |xs| ==> r.items[i] == JStr(xs[i])
  {
    JArr(seq(|xs|, i requires 0 <= i < |xs| => JStr(xs[i])))
  }
}
