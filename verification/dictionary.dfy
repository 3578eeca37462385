/** The dictionary encoder: each distinct row value stored once in
    `mapping`, and one 16-bit index into it per row. */
module Dictionary {
  import opened Wrappers
  import opened Values
  import opened Masks

  predicate Distinct<T(==)>(s: seq<T>) {
    forall i, j :: 0 <= i < j < |s| ==> s[i] != s[j]
  }

  function Elements<T>(s: seq<T>): set<T> {
    set x | x in s
  }

  /** `order` lists every member of `values` exactly once: one possible
      iteration order of the hash set the dictionary is built from. */
  predicate Enumerates<T(==)>(order: seq<T>, values: set<T>) {
    Distinct(order) && Elements(order) == values
  }

  lemma {:induction false} DistinctCardinality<T>(s: seq<T>)
    requires Distinct(s)
    ensures |Elements(s)| == |s|
    decreases |s|
  {
    if |s| > 0 {
      var init := s[..|s| - 1];
      assert Elements(s) == Elements(init) + {s[|s| - 1]};
      assert s[|s| - 1] !in Elements(init);
      DistinctCardinality(init);
    }
  }

  datatype DictEncodedStrings = DictEncodedStrings(mapping: seq<Row>, encodedValues: seq<U16>) {
    /** What construction guarantees: each dictionary entry once, an index
        space that fits `u16`, and every row index inside the dictionary. */
    predicate Valid() {
      && Distinct(mapping)
      && |mapping| <= U16_MAX
      && forall i :: 0 <= i < |encodedValues| ==> encodedValues[i] < |mapping|
    }
  }

  /** `d` losslessly encodes `rows`: one index per row, naming the row's
      value. */
  predicate Represents(d: DictEncodedStrings, rows: seq<Row>) {
    && |d.encodedValues| == |rows|
    && forall i :: 0 <= i < |rows| ==>
         d.encodedValues[i] < |d.mapping| && d.mapping[d.encodedValues[i]] == rows[i]
  }

  /** Why construction stops: the assertion on the unique count, or a row
      whose value the reverse lookup does not hold. */
  datatype BuildError = TooManyUniqueValues(count: nat) | ValueNotInDictionary(row: nat)

  /** Why decoding an index stops: it lies outside the dictionary, or its
      entry is null and is unwrapped. */
  datatype DecodeError = IndexOutOfRange(index: nat) | NullEntry(index: nat)

  /** The reverse lookup `value -> index`, collected from `mapping` zipped
      with `0..`; a later entry would overwrite an earlier equal one. */
  function ReverseMapping(mapping: seq<Row>): (m: map<Row, U16>)
    requires |mapping| <= U16_MAX
    ensures m.Keys == Elements(mapping)
    ensures forall v :: v in m ==> m[v] < |mapping| && mapping[m[v]] == v
    decreases |mapping|
  {
    if |mapping| == 0 then map[]
    else
      var init := mapping[..|mapping| - 1];
      assert Elements(mapping) == Elements(init) + {mapping[|mapping| - 1]};
      ReverseMapping(init)[mapping[|mapping| - 1] := |mapping| - 1]
  }

  /** On a duplicate-free dictionary the reverse lookup inverts `mapping`. */
  lemma ReverseMappingInverts(mapping: seq<Row>)
    requires |mapping| <= U16_MAX && Distinct(mapping)
    ensures forall i :: 0 <= i < |mapping| ==> ReverseMapping(mapping)[mapping[i]] == i
  {
  }

  /** Looks every row up in the reverse mapping, stopping at the first row
      the lookup does not hold. */
  function EncodeRows(rows: seq<Row>, reverse: map<Row, U16>): (r: Result<seq<U16>, BuildError>)
    ensures r.Success? <==> forall i :: 0 <= i < |rows| ==> rows[i] in reverse
    ensures r.Success? ==>
              && |r.value| == |rows|
              && forall i :: 0 <= i < |rows| ==> r.value[i] == reverse[rows[i]]
    ensures r.Failure? ==>
              && r.error.ValueNotInDictionary?
              && r.error.row < |rows|
              && rows[r.error.row] !in reverse
              && forall j :: 0 <= j < r.error.row ==> rows[j] in reverse
    decreases |rows|
  {
    if |rows| == 0 then Success([])
    else
      var n := |rows| - 1;
      match EncodeRows(rows[..n], reverse)
      case Failure(e) => Failure(e)
      case Success(prefix) =>
        if rows[n] in reverse then Success(prefix + [reverse[rows[n]]])
        else Failure(ValueNotInDictionary(n))
  }

  /** `DictEncodedStrings::from_strings`. `order` is the iteration order of
      the unique-value hash set; every property holds for every order. */
  function FromStrings(rows: seq<Row>, unique: set<Row>, order: seq<Row>)
    : (r: Result<DictEncodedStrings, BuildError>)
    requires Enumerates(order, unique)
    ensures |unique| > U16_MAX ==> r == Failure(TooManyUniqueValues(|unique|))
    ensures |unique| <= U16_MAX ==>
              (r.Success? <==> forall i :: 0 <= i < |rows| ==> rows[i] in unique)
    ensures r.Success? ==> r.value.Valid() && r.value.mapping == order && Represents(r.value, rows)
    ensures |unique| <= U16_MAX && r.Failure? ==> r.error.ValueNotInDictionary?
    ensures r.Failure? && r.error.ValueNotInDictionary? ==>
              && r.error.row < |rows|
              && rows[r.error.row] !in unique
              && forall j :: 0 <= j < r.error.row ==> rows[j] in unique
  {
    DistinctCardinality(order);
    if |unique| > U16_MAX then Failure(TooManyUniqueValues(|unique|))
    else
      var reverse := ReverseMapping(order);
      match EncodeRows(rows, reverse)
      case Failure(e) => Failure(e)
      case Success(encoded) => Success(DictEncodedStrings(order, encoded))
  }

  /** `to_raw`: one index to the string its dictionary entry holds. */
  function ToRaw(d: DictEncodedStrings, elem: U16): (r: Result<Bytes, DecodeError>)
    ensures r.Success? <==> elem < |d.mapping| && d.mapping[elem].Some?
    ensures r.Success? ==> Some(r.value) == d.mapping[elem]
    ensures r.Failure? ==>
              r.error == (if elem < |d.mapping| then NullEntry(elem) else IndexOutOfRange(elem))
  {
    if elem >= |d.mapping| then Failure(IndexOutOfRange(elem))
    else match d.mapping[elem]
      case None => Failure(NullEntry(elem))
      case Some(s) => Success(s)
  }

  /** An index whose entry decodes to a string. */
  predicate Decodable(d: DictEncodedStrings, elem: U16) {
    elem < |d.mapping| && d.mapping[elem].Some?
  }

  /** `PointCodec::decode`: every index to its entry's string, stopping at
      the first index that cannot be decoded. */
  function Decode(d: DictEncodedStrings, data: seq<U16>): (r: Result<seq<Bytes>, DecodeError>)
    ensures r.Success? <==> forall k :: 0 <= k < |data| ==> Decodable(d, data[k])
    ensures r.Success? ==>
              && |r.value| == |data|
              && forall k :: 0 <= k < |data| ==> Some(r.value[k]) == d.mapping[data[k]]
    ensures r.Failure? ==>
              exists k :: 0 <= k < |data| && !Decodable(d, data[k])
                          && ToRaw(d, data[k]) == Failure(r.error)
                          && forall j :: 0 <= j < k ==> Decodable(d, data[j])
    decreases |data|
  {
    if |data| == 0 then Success([])
    else
      var n := |data| - 1;
      match Decode(d, data[..n])
      case Failure(e) => Failure(e)
      case Success(prefix) =>
        match ToRaw(d, data[n])
        case Failure(e) => Failure(e)
        case Success(s) => Success(prefix + [s])
  }

  /** Indices inside the dictionary can only fail to decode on a null
      entry. */
  lemma DecodeInRangeFailsOnNull(d: DictEncodedStrings, data: seq<U16>)
    requires forall k :: 0 <= k < |data| ==> data[k] < |d.mapping|
    ensures Decode(d, data).Failure? ==> Decode(d, data).error.NullEntry?
  {
  }

  /** `collect_decoded`: decodes the whole index array. It succeeds exactly
      when every row's entry is a string, and on a valid dictionary the only
      way it fails is a null entry. */
  function CollectDecoded(d: DictEncodedStrings): (r: Result<seq<Bytes>, DecodeError>)
    ensures r.Success? <==>
              forall i :: 0 <= i < |d.encodedValues| ==> Decodable(d, d.encodedValues[i])
    ensures r.Success? ==>
              && |r.value| == |d.encodedValues|
              && forall i :: 0 <= i < |d.encodedValues| ==>
                   Some(r.value[i]) == d.mapping[d.encodedValues[i]]
    ensures d.Valid() && r.Failure? ==> r.error.NullEntry?
  {
    if d.Valid() then
      DecodeInRangeFailsOnNull(d, d.encodedValues);
      Decode(d, d.encodedValues)
    else
      Decode(d, d.encodedValues)
  }

  /** The loop of `filter_decode` after its first `n` zipped rows: only
      selected rows are looked up, so an unselected null row does no harm.
      At every step it equals decoding the indices filtered so far,
      failures included. */
  function FilterDecodePrefix(d: DictEncodedStrings, mask: seq<bool>, n: nat)
    : (r: Result<seq<Bytes>, DecodeError>)
    requires n <= |d.encodedValues| && n <= |mask|
    ensures r == Decode(d, FilterPrefix(d.encodedValues, mask, n))
    decreases n
  {
    if n == 0 then Success([])
    else
      var prev := FilterDecodePrefix(d, mask, n - 1);
      if !mask[n - 1] then
        assert FilterPrefix(d.encodedValues, mask, n) == FilterPrefix(d.encodedValues, mask, n - 1);
        prev
      else
        DecodeAppend(d, FilterPrefix(d.encodedValues, mask, n - 1), d.encodedValues[n - 1]);
        match prev
        case Failure(e) => Failure(e)
        case Success(prefix) =>
          match ToRaw(d, d.encodedValues[n - 1])
          case Failure(e) => Failure(e)
          case Success(s) => Success(prefix + [s])
  }

  /** `filter_decode`: the index array zipped with the mask; the same as
      decoding the filtered index array. */
  function FilterDecode(d: DictEncodedStrings, mask: seq<bool>): (r: Result<seq<Bytes>, DecodeError>)
    ensures r == Decode(d, Filter(d.encodedValues, mask))
  {
    FilterDecodePrefix(d, mask, Min(|d.encodedValues|, |mask|))
  }

  /** The encoded view handed to a consumer that defers decoding: indices
      plus the dictionary that decodes them. */
  datatype EncodedView = EncodedView(indices: seq<U16>, authority: DictEncodedStrings)

  /** `get_encoded`: the index array as stored, with this dictionary as the
      decoder; decoding the view is the full decode. */
  function GetEncoded(d: DictEncodedStrings): (view: EncodedView)
    ensures view.authority == d && view.indices == d.encodedValues
    ensures Decode(view.authority, view.indices) == CollectDecoded(d)
  {
    EncodedView(d.encodedValues, d)
  }

  /** `filter_encoded`: the indices of the selected rows, in row order. */
  method FilterEncoded(d: DictEncodedStrings, mask: seq<bool>) returns (view: EncodedView)
    ensures view.authority == d
    ensures view.indices == Filter(d.encodedValues, mask)
  {
    var n := Min(|d.encodedValues|, |mask|);
    var result: seq<U16> := [];
    var i := 0;
    while i < n
      invariant 0 <= i <= n
      invariant result == FilterPrefix(d.encodedValues, mask, i)
    {
      if mask[i] {
        result := result + [d.encodedValues[i]];
      }
      i := i + 1;
    }
    view := EncodedView(result, d);
  }

  lemma DecodeAppend(d: DictEncodedStrings, data: seq<U16>, x: U16)
    ensures Decode(d, data + [x]) ==
            match Decode(d, data)
            case Failure(e) => Failure(e)
            case Success(prefix) =>
              match ToRaw(d, x)
              case Failure(e) => Failure(e)
              case Success(s) => Success(prefix + [s])
  {
  }

  /** Encoded-access consistency: decoding the stored indices is the full
      decode, and decoding the filtered indices is the filtered decode,
      failures included. */
  lemma EncodedAccessConsistent(d: DictEncodedStrings, mask: seq<bool>)
    ensures Decode(GetEncoded(d).authority, GetEncoded(d).indices) == CollectDecoded(d)
    ensures GetEncoded(d).indices == d.encodedValues
    ensures FilterDecode(d, mask) == Decode(d, Filter(d.encodedValues, mask))
  {
  }

  /** Single-element decode agrees with decoding a one-index array. */
  lemma ToRawIsDecodeOfOne(d: DictEncodedStrings, elem: U16)
    ensures Decode(d, [elem]) ==
            match ToRaw(d, elem)
            case Failure(e) => Failure(e)
            case Success(s) => Success([s])
  {
    var empty: seq<U16> := [];
    assert Decode(d, empty) == Success([]);
    DecodeAppend(d, empty, elem);
    assert empty + [elem] == [elem];
    if ToRaw(d, elem).Success? {
      var none: seq<Bytes> := [];
      assert none + [ToRaw(d, elem).value] == [ToRaw(d, elem).value];
    }
  }

  /** Full-decode round trip: a dictionary that represents `rows` decodes
      to their strings exactly when no row is null; otherwise the decode
      fails on a null entry. */
  lemma CollectDecodedRoundTrip(d: DictEncodedStrings, rows: seq<Row>)
    requires Represents(d, rows)
    ensures CollectDecoded(d).Success? <==> NullFree(rows)
    ensures NullFree(rows) ==> CollectDecoded(d) == Success(AllRowBytes(rows))
    ensures !NullFree(rows) ==> CollectDecoded(d).error.NullEntry?
  {
    var r := CollectDecoded(d);
    if r.Success? {
      assert NullFree(rows) by {
        forall i | 0 <= i < |rows| ensures rows[i].Some? {
          assert Decodable(d, d.encodedValues[i]);
        }
      }
      assert r.value == AllRowBytes(rows);
    } else {
      var k :| 0 <= k < |d.encodedValues| && !Decodable(d, d.encodedValues[k])
               && ToRaw(d, d.encodedValues[k]) == Failure(r.error);
      assert rows[k].None?;
    }
  }

  /** The filtered indices are the stored indices at the selected
      positions, and each names its row's value. */
  lemma FilteredIndicesNameRows(d: DictEncodedStrings, rows: seq<Row>, mask: seq<bool>)
    requires Represents(d, rows)
    ensures |Filter(d.encodedValues, mask)| == |Positions(mask, Min(|rows|, |mask|))|
    ensures |Filter(AllRowBytes(rows), mask)| == |Filter(d.encodedValues, mask)|
    ensures forall k :: 0 <= k < |Filter(d.encodedValues, mask)| ==>
              && Positions(mask, Min(|rows|, |mask|))[k] < |rows|
              && Filter(d.encodedValues, mask)[k]
                 == d.encodedValues[Positions(mask, Min(|rows|, |mask|))[k]]
              && Filter(AllRowBytes(rows), mask)[k]
                 == RowBytes(rows[Positions(mask, Min(|rows|, |mask|))[k]])
  {
    FilterSelects(d.encodedValues, mask);
    FilterSelects(AllRowBytes(rows), mask);
  }

  /** Decoding the filtered indices succeeds exactly when every selected
      row of the zipped prefix is non-null. */
  lemma FilteredDecodeSucceeds(d: DictEncodedStrings, rows: seq<Row>, mask: seq<bool>)
    requires Represents(d, rows)
    ensures Decode(d, Filter(d.encodedValues, mask)).Success? <==>
              forall i :: 0 <= i < Min(|rows|, |mask|) && mask[i] ==> rows[i].Some?
  {
    var n := Min(|rows|, |mask|);
    FilteredIndicesNameRows(d, rows, mask);
    var idx := Filter(d.encodedValues, mask);
    var p := Positions(mask, n);
    if Decode(d, idx).Success? {
      forall i | 0 <= i < n && mask[i]
        ensures rows[i].Some?
      {
        var k :| 0 <= k < |p| && p[k] == i;
        assert Decodable(d, idx[k]);
      }
    } else {
      var k :| 0 <= k < |idx| && !Decodable(d, idx[k]);
      assert idx[k] == d.encodedValues[p[k]];
      assert rows[p[k]].None?;
    }
  }

  /** A successful decode of the filtered indices is the selected rows'
      strings in row order. */
  lemma FilteredDecodeValue(d: DictEncodedStrings, rows: seq<Row>, mask: seq<bool>)
    requires Represents(d, rows)
    requires Decode(d, Filter(d.encodedValues, mask)).Success?
    ensures Decode(d, Filter(d.encodedValues, mask)).value == Filter(AllRowBytes(rows), mask)
  {
    FilteredIndicesNameRows(d, rows, mask);
    var idx := Filter(d.encodedValues, mask);
    var p := Positions(mask, Min(|rows|, |mask|));
    var got := Decode(d, idx).value;
    var want := Filter(AllRowBytes(rows), mask);
    forall k | 0 <= k < |idx|
      ensures got[k] == want[k]
    {
      assert idx[k] == d.encodedValues[p[k]];
      assert Some(got[k]) == d.mapping[idx[k]] == rows[p[k]];
    }
  }

  /** Filtered-decode round trip: succeeds exactly when every selected row
      of the zipped prefix is non-null, and then yields the selected rows'
      strings in row order; an unselected null row does no harm. */
  lemma FilterDecodeRoundTrip(d: DictEncodedStrings, rows: seq<Row>, mask: seq<bool>)
    requires Represents(d, rows)
    ensures FilterDecode(d, mask).Success? <==>
              forall i :: 0 <= i < Min(|rows|, |mask|) && mask[i] ==> rows[i].Some?
    ensures FilterDecode(d, mask).Success? ==>
              FilterDecode(d, mask) == Success(Filter(AllRowBytes(rows), mask))
  {
    EncodedAccessConsistent(d, mask);
    FilteredDecodeSucceeds(d, rows, mask);
    if FilterDecode(d, mask).Success? {
      FilteredDecodeValue(d, rows, mask);
    }
  }

  /** Filter correctness: when the full decode succeeds, the filtered decode
      is the mask-selected sub-sequence of it. */
  lemma FilterOfFullDecode(d: DictEncodedStrings, mask: seq<bool>)
    requires CollectDecoded(d).Success?
    ensures FilterDecode(d, mask) == Success(Filter(CollectDecoded(d).value, mask))
  {
    var enc := d.encodedValues;
    var rows := seq(|enc|, i requires 0 <= i < |enc| => d.mapping[enc[i]]);
    assert Represents(d, rows);
    assert NullFree(rows);
    assert AllRowBytes(rows) == CollectDecoded(d).value;
    FilterDecodeRoundTrip(d, rows, mask);
  }
}
