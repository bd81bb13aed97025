/** Values shared by the four edge functions: optional JSON fields, bytes,
    decimal digits, and the JavaScript notions of "truthy string" and
    string length. */
module Base {

  /** A JSON request field: `None` stands for a field that is absent or null. */
  datatype Option<+T> = None | Some(value: T)

  /** The outcome of a step that can throw. */
  datatype Result<+T, +E> = Ok(value: T) | Err(error: E)

  /** An element of a `Uint8Array`. */
  type Byte = b: int | 0 <= b < 256

  /** What `Math.floor(Math.random() * 10)` can produce. */
  type Digit = d: int | 0 <= d < 10

  /** `!!field` for a string field: absent, null and the empty string are falsy. */
  predicate Present(field: Option<string>) {
    field.Some? && field.value != ""
  }

  /** JavaScript `String.prototype.length`: the number of UTF-16 code units,
      so a character outside the Basic Multilingual Plane counts twice. */
  function Utf16Length(s: string): (n: nat)
    ensures |s| <= n <= 2 * |s|
  {
    if s == [] then 0
    else (if s[0] as int >= 0x1_0000 then 2 else 1) + Utf16Length(s[1..])
  }
}
