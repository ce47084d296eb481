/** Values shared by every module: identifiers, optional values and results. */
module Core {

  /** A UUID read as an unsigned 128-bit number; PostgreSQL orders uuid columns the same way. */
  type Uuid = u: nat | u < 0x1_0000_0000_0000_0000_0000_0000_0000_0000

  /** A point in time, in the resolution the database stores. */
  type Time = int

  type Byte = b: nat | b < 256

  const U64_LIMIT: nat := 0x1_0000_0000_0000_0000

  datatype Option<+T> = None | Some(value: T) {
    function Or(other: Option<T>): Option<T> {
      if Some? then this else other
    }

    function GetOr(default: T): T {
      if Some? then value else default
    }
  }

  datatype Result<+T, +E> = Ok(value: T) | Err(error: E)

  /** `serde_json::Value`; numbers are kept as their text because no code here computes with them. */
  datatype Json =
    | Null
    | Bool(b: bool)
    | Number(text: string)
    | String(s: string)
    | Array(items: seq<Json>)
    | Object(fields: map<string, Json>)
}
