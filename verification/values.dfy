/** The values a string column holds: rows are optional byte strings, and
    dictionary indices are unsigned 16-bit integers. */
module Values {
  import opened Wrappers

  /** One byte of a string's encoding. UTF-8 validity is not modelled. */
  type Byte = b: int | 0 <= b < 0x100

  type Bytes = seq<Byte>

  /** A row of a string column: a string, or null. */
  type Row = Option<Bytes>

  /** The largest value of Rust's `u16`. */
  const U16_MAX: nat := 0xFFFF

  type U16 = n: int | 0 <= n <= U16_MAX

  /** The bytes a row contributes: a null row has none. */
  function RowBytes(row: Row): Bytes {
    match row
    case Some(s) => s
    case None => []
  }

  /** The row-by-row bytes of a column, with nulls read as empty strings. */
  function AllRowBytes(rows: seq<Row>): (r: seq<Bytes>)
    ensures |r| == |rows|
    ensures forall i :: 0 <= i < |rows| ==> r[i] == RowBytes(rows[i])
  {
    seq(|rows|, i requires 0 <= i < |rows| => RowBytes(rows[i]))
  }

  predicate NullFree(rows: seq<Row>) {
    forall i :: 0 <= i < |rows| ==> rows[i].Some?
  }

  /** No row contains the packer's terminator byte. */
  predicate ZeroFree(rows: seq<Row>) {
    forall i :: 0 <= i < |rows| ==> 0 !in RowBytes(rows[i])
  }

  function Min(a: nat, b: nat): nat {
    if a <= b then a else b
  }
}
