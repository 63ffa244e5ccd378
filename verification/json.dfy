/**
 The parsed JSON value the handler receives as its request body, seen the
 way the JavaScript runtime sees it after `JSON.parse`.
 */
module Json {

  /** A finite JavaScript number that `Number.isInteger` rejects, such as 2.5. */
  type NonInteger = x: real | x.Floor as real != x witness 0.5

  /**
   A parsed JSON value. Numbers are split by `Number.isInteger`: `Int` holds
   the integral ones (`5.0` parses to the integer 5), `Frac` the others. An
   object is the map of its own properties; `JSON.parse` keeps the last of
   duplicated names, and a `"__proto__"` member becomes an ordinary own property.
   */
  datatype Value =
    | Null
    | Bool(b: bool)
    | Int(i: int)
    | Frac(x: NonInteger)
    | Str(s: string)
    | Arr(elems: seq<Value>)
    | Obj(fields: map<string, Value>)

  /** `Number.isInteger(v)`: true exactly for integral numbers, false for every non-number. */
  predicate IsInteger(v: Value)
  {
    v.Int?
  }

  /**
   `v && typeof v === "object"`: arrays and objects are objects; `null`,
   booleans, numbers and strings are not.
   */
  predicate IsObject(v: Value)
  {
    v.Arr? || v.Obj?
  }
}
