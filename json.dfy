/** The JSON tree the structured assets build (Gson's JsonElement): an object
    keeps its members in insertion order. `Render` turns a tree into text; it
    stands in for Gson's pretty printer, whose layout is not part of this model,
    and fixes only that the text is a function of the tree. */
module Json {
  import opened Wrappers
  import OrderedMaps

  datatype Json =
    | JNull
    | JBool(b: bool)
    | JInt(i: int)
    | JString(s: string)
    | JArray(items: seq<Json>)
    | JObject(fields: seq<(string, Json)>)

  /** The member names of an object, in order; nothing for any other node. */
  function Names(j: Json): seq<string>
  {
    if j.JObject? then OrderedMaps.KeysOf(j.fields) else []
  }

  /** The member `name` of an object. */
  function Member(j: Json, name: string): Option<Json>
  {
    if j.JObject? then OrderedMaps.Get(j.fields, name) else None
  }

  function Digit(d: int): char
    requires 0 <= d < 10
  {
    "0123456789"[d]
  }

  function NatToString(n: nat): string
  {
    if n < 10 then [Digit(n)] else NatToString(n / 10) + [Digit(n % 10)]
  }

  function IntToString(i: int): string
  {
    if i < 0 then "-" + NatToString(-i) else NatToString(i)
  }

  function Escape(s: string): string
  {
    if s == [] then []
    else (if s[0] == '"' || s[0] == '\\' then ['\\', s[0]] else [s[0]]) + Escape(s[1..])
  }

  function Render(j: Json): string
    decreases j, 1
  {
    match j
    case JNull => "null"
    case JBool(b) => if b then "true" else "false"
    case JInt(i) => IntToString(i)
    case JString(s) => "\"" + Escape(s) + "\""
    case JArray(items) => "[" + RenderItems(items) + "]"
    case JObject(fields) => "{" + RenderFields(fields) + "}"
  }

  function RenderItems(items: seq<Json>): string
    decreases items, 0
  {
    if items == [] then ""
    else Render(items[0]) + (if |items| == 1 then "" else "," + RenderItems(items[1..]))
  }

  function RenderFields(fields: seq<(string, Json)>): string
    decreases fields, 0
  {
    if fields == [] then ""
    else
      assert fields[0].1 < fields[0];
      "\"" + Escape(fields[0].0) + "\":" + Render(fields[0].1)
      + (if |fields| == 1 then "" else "," + RenderFields(fields[1..]))
  }

  /** `name: value` in front of `rest` when `present`, else just `rest`. */
  function OptionalMember(present: bool, name: string, value: Json, rest: seq<(string, Json)>): seq<(string, Json)>
  {
    if present then [(name, value)] + rest else rest
  }

  lemma GetOptionalMember(present: bool, name: string, value: Json, rest: seq<(string, Json)>, k: string)
    ensures OrderedMaps.Get(OptionalMember(present, name, value, rest), k)
            == if present && k == name then Some(value) else OrderedMaps.Get(rest, k)
    ensures OrderedMaps.KeysOf(OptionalMember(present, name, value, rest))
            == (if present then [name] else []) + OrderedMaps.KeysOf(rest)
  {
    if present {
      OrderedMaps.GetCons(name, value, rest, k);
      assert ([(name, value)] + rest)[1..] == rest;
    }
  }
}
