/** The part of `serde_json::Value` the Google response parsers use:
    indexing with `[i]`, `get(key)` and `Display` (`format!("{}", v)`).
    JSON escape sequences are not modelled: a string is displayed as its
    characters between two quotes. */
module Json {
  import opened Strings
  import opened Errors

  datatype Json =
    | JNull
    | JBool(b: bool)
    | JNum(n: int)
    | JStr(s: string)
    | JArr(items: seq<Json>)
    | JObj(fields: seq<Field>)

  /** A member of an object. Members are kept in the order of the sequence,
      and nothing here keeps a key from occurring twice. */
  datatype Field = Field(key: string, value: Json)

  /** `v[i]`: the element at `i` of an array, `Null` when `i` is out of range
      or `v` is not an array. */
  function At(v: Json, i: nat): Json
  {
    if v.JArr? && i < |v.items| then v.items[i] else JNull
  }

  /** The number of elements of an array; other values have none. */
  function Len(v: Json): nat
  {
    if v.JArr? then |v.items| else 0
  }

  /** `v.get(key)`: the first member named `key` of an object, `None` when
      there is none or `v` is not an object. */
  function Get(v: Json, key: string): Option<Json>
  {
    if v.JObj? then Lookup(v.fields, key) else None
  }

  function Lookup(fields: seq<Field>, key: string): Option<Json>
  {
    if fields == [] then None
    else if fields[0].key == key then Some(fields[0].value)
    else Lookup(fields[1..], key)
  }

  /** `format!("{}", v)`: compact JSON text, members in sequence order. */
  function Render(v: Json): string
  {
    match v
    case JNull => "null"
    case JBool(b) => if b then "true" else "false"
    case JNum(n) => if n < 0 then "-" + NatToString(-n) else NatToString(n)
    case JStr(s) => "\"" + s + "\""
    case JArr(items) => "[" + RenderItems(items) + "]"
    case JObj(fields) => "{" + RenderFields(fields) + "}"
  }

  function RenderItems(items: seq<Json>): string
  {
    if items == [] then ""
    else Render(items[0]) + (if |items| == 1 then "" else "," + RenderItems(items[1..]))
  }

  function RenderFields(fields: seq<Field>): string
  {
    if fields == [] then ""
    else
      "\"" + fields[0].key + "\":" + Render(fields[0].value)
      + (if |fields| == 1 then "" else "," + RenderFields(fields[1..]))
  }

  /** `format!("{}", v).replace("\"", "")`: the text the parsers keep. */
  function Text(v: Json): string
  {
    Replace(Render(v), "\"", "")
  }

  /** The display of a value is the word `null` exactly when the value is
      `Null`: the parsers' test for `"null"` is a test for a null value. */
  lemma RenderIsNull(v: Json)
    ensures Render(v) == "null" <==> v == JNull
  {
    match v
    case JNull =>
    case JBool(b) =>
    case JNum(n) =>
      var digits := NatToString(if n < 0 then -n else n);
      assert Render(v)[0] == (if n < 0 then '-' else digits[0]);
    case JStr(s) =>
      assert Render(v)[0] == '"';
    case JArr(items) =>
      assert Render(v)[0] == '[';
    case JObj(fields) =>
      assert Render(v)[0] == '{';
  }

  /** The kept text of a string value is its characters with every `"`
      removed. */
  lemma TextOfString(s: string)
    ensures Text(JStr(s)) == StripChars(s, {'"'})
  {
    var q := "\"";
    assert Render(JStr(s)) == q + (s + q);
    ReplaceOneChar(q + (s + q), '"', "");
    MapCharAppend(q, s + q, '"', "");
    MapCharAppend(s, q, '"', "");
    assert MapChar(q, '"', "") == [];
    MapCharDeletes(s, '"');
    assert MapChar(q + (s + q), '"', "") == MapChar(s, '"', "");
  }

  /** No kept text contains `"`. */
  lemma TextUnquoted(v: Json)
    ensures '"' !in Text(v)
  {
    ReplaceOneChar(Render(v), '"', "");
    MapCharRemoves(Render(v), '"', "");
  }
}
