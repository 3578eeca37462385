/** `build_string_column`: the choice between the two encodings, and the
    column interface a query engine reads either of them through. */
module Builder {
  import opened Wrappers
  import opened Values
  import opened Masks
  import Packing
  import Dictionary

  /** The ceiling the upstream cardinality analysis applies before it
      reports a unique-value set. Declared beside the builder but not
      enforced by it. */
  const MAX_UNIQUE_STRINGS: nat := 10000

  /** The semantic type tags of decoded and encoded values. */
  datatype ValueType = StringType | U16Type | RefU16Type

  /** A built string column: one of the two encodings, chosen once. */
  datatype StringColumn =
    | Packed(packer: Packing.StringPacker)
    | Dict(dict: Dictionary.DictEncodedStrings)
  {
    predicate Valid() {
      match this
      case Packed(p) => p.Valid()
      case Dict(d) => d.Valid()
    }
  }

  /** Builds the dictionary encoding when the analysis reports a bounded
      unique-value set, and the raw packer otherwise. `order` is the hash
      set's iteration order and matters only for the dictionary. */
  function BuildStringColumn(rows: seq<Row>, unique: Option<set<Row>>, order: seq<Row>)
    : (r: Result<StringColumn, Dictionary.BuildError>)
    requires unique.Some? ==> Dictionary.Enumerates(order, unique.value)
    ensures r.Success? ==> r.value.Valid() && (r.value.Dict? <==> unique.Some?)
    ensures unique.None? ==> r.Success? && r.value.packer.data == Packing.Concat(rows)
    ensures unique.Some? && r.Success? ==>
              r.value.dict.mapping == order && Dictionary.Represents(r.value.dict, rows)
    ensures r.Failure? <==>
              && unique.Some?
              && (|unique.value| > U16_MAX || exists i :: 0 <= i < |rows| && rows[i] !in unique.value)
  {
    match unique
    case Some(u) =>
      (match Dictionary.FromStrings(rows, u, order)
       case Failure(e) => Failure(e)
       case Success(d) => Success(Dict(d)))
    case None => Success(Packed(Packing.FromStrings(rows)))
  }

  /** Full decode through the column interface: the packer never fails
      and yields one row per terminator; the dictionary fails only on a null
      entry. */
  function CollectDecoded(col: StringColumn): (r: Result<seq<Bytes>, Dictionary.DecodeError>)
    requires col.Valid()
    ensures col.Packed? ==> r.Success? && |r.value| == Packing.CountZeros(col.packer.data)
    ensures r.Failure? ==> col.Dict? && r.error.NullEntry?
  {
    match col
    case Packed(p) => Success(Packing.CollectDecoded(p))
    case Dict(d) => Dictionary.CollectDecoded(d)
  }

  /** Filtered decode through the column interface: whenever the full
      decode succeeds, the mask-selected sub-sequence of it, in row order;
      a failure is only ever a null dictionary entry. */
  function FilterDecode(col: StringColumn, mask: seq<bool>): (r: Result<seq<Bytes>, Dictionary.DecodeError>)
    requires col.Valid()
    ensures CollectDecoded(col).Success? ==> r == Success(Filter(CollectDecoded(col).value, mask))
    ensures r.Failure? ==> col.Dict? && r.error.NullEntry?
  {
    match col
    case Packed(p) => Success(Packing.FilterDecode(p, mask))
    case Dict(d) =>
      if Dictionary.CollectDecoded(d).Success? then
        Dictionary.FilterOfFullDecode(d, mask);
        Dictionary.FilterDecode(d, mask)
      else
        FilterSelects(d.encodedValues, mask);
        Dictionary.DecodeInRangeFailsOnNull(d, Filter(d.encodedValues, mask));
        Dictionary.FilterDecode(d, mask)
  }

  function DecodedType(col: StringColumn): ValueType {
    StringType
  }

  /** `to_codec`, the encoded-access capability: only the dictionary has
      one, and decoding its stored indices is the column's full decode. */
  function ToCodec(col: StringColumn): (r: Option<Dictionary.DictEncodedStrings>)
    ensures r.Some? <==> col.Dict?
    ensures col.Valid() && r.Some? ==>
              Dictionary.Decode(r.value, Dictionary.GetEncoded(r.value).indices) == CollectDecoded(col)
  {
    match col
    case Packed(_) => None
    case Dict(d) => Some(d)
  }

  function EncodedType(d: Dictionary.DictEncodedStrings): ValueType {
    U16Type
  }

  function RefEncodedType(d: Dictionary.DictEncodedStrings): ValueType {
    RefU16Type
  }

  /** The dictionary branch of the round trip. */
  lemma {:induction false} DictionaryRoundTrip(rows: seq<Row>, u: set<Row>, order: seq<Row>, mask: seq<bool>)
    requires NullFree(rows)
    requires Dictionary.Enumerates(order, u) && u == Dictionary.Elements(rows) && |u| <= U16_MAX
    ensures Dictionary.FromStrings(rows, u, order).Success?
    ensures Dictionary.CollectDecoded(Dictionary.FromStrings(rows, u, order).value)
            == Success(AllRowBytes(rows))
    ensures Dictionary.FilterDecode(Dictionary.FromStrings(rows, u, order).value, mask)
            == Success(Filter(AllRowBytes(rows), mask))
  {
    assert forall i :: 0 <= i < |rows| ==> rows[i] in Dictionary.Elements(rows);
    var d := Dictionary.FromStrings(rows, u, order).value;
    Dictionary.CollectDecodedRoundTrip(d, rows);
    Dictionary.FilterDecodeRoundTrip(d, rows, mask);
  }

  /** Round trip through either encoding: for null-free rows (zero-free for
      the packer; for the dictionary, a unique set that is exactly the rows'
      values and fits the index width) the column builds, decodes to the
      rows' strings, and filters to the selected rows' strings. */
  lemma {:induction false} BuildRoundTrip(rows: seq<Row>, unique: Option<set<Row>>, order: seq<Row>, mask: seq<bool>)
    requires NullFree(rows)
    requires unique.None? ==> ZeroFree(rows)
    requires unique.Some? ==>
               && Dictionary.Enumerates(order, unique.value)
               && unique.value == Dictionary.Elements(rows)
               && |unique.value| <= U16_MAX
    ensures BuildStringColumn(rows, unique, order).Success?
    ensures CollectDecoded(BuildStringColumn(rows, unique, order).value) == Success(AllRowBytes(rows))
    ensures FilterDecode(BuildStringColumn(rows, unique, order).value, mask)
            == Success(Filter(AllRowBytes(rows), mask))
  {
    if unique.Some? {
      DictionaryRoundTrip(rows, unique.value, order, mask);
    } else {
      Packing.RoundTrip(rows, mask);
    }
  }

  /** The two encodings treat a null row differently: the packer reads it
      back as "", while the dictionary refuses to decode the column. */
  lemma {:induction false} NullRowPolicy(rows: seq<Row>, unique: Option<set<Row>>, order: seq<Row>, i: nat)
    requires unique.Some? ==>
               && Dictionary.Enumerates(order, unique.value)
               && |unique.value| <= U16_MAX
               && forall j :: 0 <= j < |rows| ==> rows[j] in unique.value
    requires i < |rows| && rows[i].None?
    ensures BuildStringColumn(rows, unique, order).Success?
    ensures unique.Some? ==>
              && CollectDecoded(BuildStringColumn(rows, unique, order).value).Failure?
              && CollectDecoded(BuildStringColumn(rows, unique, order).value).error.NullEntry?
    ensures unique.None? && ZeroFree(rows) ==>
              && CollectDecoded(BuildStringColumn(rows, unique, order).value).Success?
              && |CollectDecoded(BuildStringColumn(rows, unique, order).value).value| == |rows|
              && CollectDecoded(BuildStringColumn(rows, unique, order).value).value[i] == []
  {
    var col := BuildStringColumn(rows, unique, order).value;
    if unique.Some? {
      Dictionary.CollectDecodedRoundTrip(col.dict, rows);
    } else if ZeroFree(rows) {
      Packing.RoundTrip(rows, []);
    }
  }

  /** Encoded access agrees with the column interface: the codec exists
      exactly for the dictionary, decoding its stored indices is the full
      decode, and decoding its filtered indices is the filtered decode. */
  lemma {:induction false} CodecConsistent(col: StringColumn, mask: seq<bool>)
    requires col.Valid()
    ensures ToCodec(col).Some? <==> col.Dict?
    ensures ToCodec(col).Some? ==>
              && Dictionary.Decode(ToCodec(col).value, Dictionary.GetEncoded(ToCodec(col).value).indices)
                 == CollectDecoded(col)
              && Dictionary.Decode(ToCodec(col).value, Filter(ToCodec(col).value.encodedValues, mask))
                 == FilterDecode(col, mask)
  {
  }

  /** Within the upstream ceiling, and with every row's value in the unique
      set, the dictionary branch never reaches a failure. */
  lemma UpstreamCeilingSuffices(rows: seq<Row>, u: set<Row>, order: seq<Row>)
    requires Dictionary.Enumerates(order, u)
    requires |u| <= MAX_UNIQUE_STRINGS
    requires forall i :: 0 <= i < |rows| ==> rows[i] in u
    ensures BuildStringColumn(rows, Some(u), order).Success?
    ensures BuildStringColumn(rows, Some(u), order).value.Dict?
  {
  }
}
