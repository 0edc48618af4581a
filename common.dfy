/** Values shared by every part of the model: optional values, bytes, and the
    scalar values a decoded JSON message may carry. */
module Common {

  datatype Option<+T> = None | Some(value: T)

  /** An octet on the wire or in a file. */
  type byte = x: int | 0 <= x < 256

  /** One field value of a decoded JSON object.  Strings and integers are the
      values the protocols use; every other JSON value (a float, a boolean,
      null, a list, a nested object) is kept by the text Python's `str` gives it. */
  datatype Value = Str(s: string) | Int(i: int) | Other(text: string)

  /** The fields of a decoded JSON object. */
  type Fields = map<string, Value>

  /** `d.get(key, default)` on a decoded JSON object. */
  function Get(fields: Fields, key: string, default: Value): Value
  {
    if key in fields then fields[key] else default
  }

  function Min(a: int, b: int): int { if a <= b then a else b }

  function Max(a: int, b: int): int { if a <= b then b else a }

  /** No element occurs twice. */
  predicate NoDuplicates<T(==)>(s: seq<T>)
  {
    forall i, j :: 0 <= i < j < |s| ==> s[i] != s[j]
  }
}
