/** The contents of a cJSON item and of everything below it. */
module Json {
  import opened Bytes
  import opened Doubles
  import opened Numbers

  datatype Kind = Invalid | False | True | Null | Number | String | Array | Object | Raw

  /**
   One item with the fields of the C struct: its type, `valuedouble`, `valueint`,
   `valuestring`, its name `string` (both C strings, None for NULL) and its children.
   */
  datatype Json = Json(kind: Kind, num: real, valueint: int, str: Option<bytes>, key: Option<bytes>, kids: seq<Json>)

  function Blank(kind: Kind): Json {
    Json(kind, 0.0, 0, None, None, [])
  }

  function TrueItem(): Json {
    Blank(True).(valueint := 1)
  }

  function NumberItem(d: real): Json {
    Blank(Number).(num := d, valueint := Saturate(d))
  }

  function StringItem(s: bytes): Json {
    Blank(String).(str := Some(s))
  }

  function ArrayItem(kids: seq<Json>): Json {
    Blank(Array).(kids := kids)
  }

  function ObjectItem(kids: seq<Json>): Json {
    Blank(Object).(kids := kids)
  }

  /** The item under a name. */
  function Named(j: Json, key: bytes): Json {
    j.(key := Some(key))
  }

  predicate NoNulOption(s: Option<bytes>) {
    s.Some? ==> NoNul(s.value)
  }

  /** Every string and name in the tree is a C string. */
  predicate CStrings(j: Json) {
    NoNulOption(j.str) && NoNulOption(j.key) && forall k | 0 <= k < |j.kids| :: CStrings(j.kids[k])
  }

  /**
   The fields of an item that its kind does not use are blank, and it has a name exactly
   when it is `named`.
   */
  predicate TidyFields(j: Json, named: bool) {
    && j.key.Some? == named
    && (j.kind != Number ==> j.num == 0.0)
    && j.valueint == (if j.kind == True then 1 else if j.kind == Number then Saturate(j.num) else 0)
    && j.str.Some? == (j.kind == String)
    && (j.kind != Array && j.kind != Object ==> j.kids == [])
  }

  /** Tidy throughout, with names exactly in objects, C strings, doubles, and no invalid or raw item. */
  predicate Tidy(j: Json, named: bool)
    decreases j
  {
    && TidyFields(j, named)
    && j.kind != Invalid && j.kind != Raw
    && NoNulOption(j.str) && NoNulOption(j.key) && (j.kind == Number ==> IsDouble(j.num))
    && forall k | 0 <= k < |j.kids| :: Tidy(j.kids[k], j.kind == Object)
  }

  /** How deeply arrays and objects are nested in the tree. */
  function Height(j: Json): nat
    decreases j
  {
    if j.kind == Array || j.kind == Object then 1 + MaxHeight(j.kids) else 0
  }

  function MaxHeight(js: seq<Json>): (r: nat)
    decreases js
  {
    if js == [] then 0
    else
      var h := Height(js[0]);
      var t := MaxHeight(js[1..]);
      if h > t then h else t
  }
}
