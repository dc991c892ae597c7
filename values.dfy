/** The two kinds of value the engine meets: the untyped search values that
    arrive in the criteria dictionary, and the typed values a record's fields
    hold. */
module Values {
  import opened Text

  /** A decoded JSON element (`System.Text.Json.JsonElement`). A number keeps
      the literal text it was written as and its numeric value. The type
      leaves the two independent; `NumberAgrees` states the tie the JSON
      decoder guarantees for integer literals. */
  datatype Json =
    | JString(s: string)
    | JNumber(text: string, value: real)
    | JTrue
    | JFalse
    | JNull
    | JArray(items: seq<Json>)
    | JObject(text: string)

  /** A value of the `Dictionary<string, object>` of search criteria: C# null,
      a JSON element (what the HTTP layer produces), or a native CLR object
      (what a direct caller may pass). `Other` is any other CLR object, known
      only by what its `ToString()` returns. */
  datatype Raw =
    | Null
    | Element(j: Json)
    | NativeString(s: string)
    | NativeInt(i: Int32)
    | Other(text: string)

  /** The numeric value of an integer literal is that integer. */
  predicate NumberAgrees(j: Json) {
    j.JNumber? && ParseInteger(j.text).Some? ==> j.value == ParseInteger(j.text).value as real
  }

  predicate IsJsonArray(raw: Raw) {
    raw.Element? && raw.j.JArray?
  }

  /** `object.ToString()` of a non-null value that is not a JSON array. A
      string is its own text, a JSON number or object is its raw JSON text,
      JSON booleans are `True` and `False` (`bool.ToString()`), JSON null is
      empty, and a native `int` is written so that it parses back to itself. */
  function RawText(raw: Raw): (t: string)
    requires raw != Null && !IsJsonArray(raw)
    ensures raw.NativeString? ==> t == raw.s
    ensures raw.Element? && raw.j.JString? ==> t == raw.j.s
    ensures raw.Element? && raw.j.JNull? ==> t == ""
    ensures raw.Element? && raw.j.JNumber? ==> t == raw.j.text
    ensures raw.Element? && raw.j.JTrue? ==> t == "True"
    ensures raw.Element? && raw.j.JFalse? ==> t == "False"
    ensures raw.Element? && raw.j.JObject? ==> t == raw.j.text
    ensures raw.Other? ==> t == raw.text
    ensures raw.NativeInt? ==> ParseInteger(t) == Some(raw.i as int)
  {
    match raw
    case Element(j) =>
      (match j
       case JString(s) => s
       case JNumber(text, _) => text
       case JTrue => "True"
       case JFalse => "False"
       case JNull => ""
       case JObject(text) => text)
    case NativeString(s) => s
    case NativeInt(i) => IntTextRoundTrip(i); IntText(i)
    case Other(text) => text
  }

  /** `JsonElement.GetString()`: the text of a JSON string, null for JSON null. */
  function GetString(j: Json): Option<string>
    requires j.JString? || j.JNull?
  {
    if j.JString? then Some(j.s) else None
  }

  /** The value of one field of a record. Integer, floating and decimal
      fields all hold `VNumber`; a `DateTime` holds its tick count; an enum
      holds its numeric code. */
  datatype Value =
    | VNull
    | VString(s: string)
    | VNumber(n: real)
    | VEnum(code: int)
    | VTime(ticks: int)
    | VBool(b: bool)
    | VObject

  /** A record: its fields by declared property name. A property missing
      from the map reads as null. */
  type Record = map<string, Value>

  function Field(r: Record, name: string): Value {
    if name in r then r[name] else VNull
  }
}
