# String-column encodings of LocustDB, in Dafny

A model of `src/mem_store/strings.rs`, the layer of LocustDB's in-memory
store that turns a column of optional strings into one of two compact
encodings and reads it back for the query engine:

- **Raw packer** (`Packing`): every row's bytes followed by a `0`
  terminator in one buffer (a null row is an empty segment), read back by
  a forward iterator that scans for the next terminator.
- **Dictionary encoder** (`Dictionary`): each distinct row value stored
  once in `mapping`, plus one `u16` index per row; decoded in full, through
  a row mask, for an arbitrary index list or for one index, and exposed in
  encoded form so decoding can be deferred.
- **Builder** (`Builder`): `build_string_column`, which picks the
  dictionary when the cardinality analysis supplies a unique-value set and
  the packer otherwise, and the column interface (full decode, filtered
  decode, codec capability) over either encoding.

Supporting modules: `Wrappers` (`Option`, `Result`), `Values` (bytes,
rows as `Option<seq<Byte>>`, `U16` with ceiling `0xFFFF`), `Masks` (the
`zip`-then-select of a filtered read, which stops at the shorter of column
and mask, and the positions it selects).

Modelling decisions:

- Panics become `Result` failures: the `u16::MAX` assertion
  (`TooManyUniqueValues`), a row missing from the reverse lookup
  (`ValueNotInDictionary`, carrying the first such row), an index past the
  dictionary (`IndexOutOfRange`) and `unwrap` of a null dictionary entry
  (`NullEntry`). Decode errors carry the offending index value, so the
  failure a filtered decode hits is the same one decoding the filtered
  indices hits.
- The hash set's iteration order is a parameter `order`, constrained only
  to list each unique value exactly once; every property is proved for
  every such order.
- The packer's buffer is private and only ever grown by `push`, so it is
  always empty or ends in `0` (`Terminated`). The iterator's scan assumes
  this invariant; it is what keeps `data[index]` in bounds.
- The iterator's state is a value (`StringPackerIterator(data, currIndex)`);
  `next` returns the item and the advanced iterator. `Next` is the scan loop
  and is proved equal to the reference step `NextOf`.

Behaviour of the code worth noting, which the model reproduces:

- The index ceiling is 65535 unique values (`<= u16::MAX`), not 65536.
- A mask whose length differs from the column's is not an error: `zip`
  stops at the shorter of the two.
- The builder is not total: the dictionary branch panics when the unique
  set exceeds the ceiling or misses a row, which `BuildStringColumn`
  reports as a failure.
- A null dictionary entry is unwrapped on decode, which panics; the model
  reports `NullEntry` for the first such index reached. A filtered decode
  only unwraps selected rows, so unselected nulls do not fail it.
- `MAX_UNIQUE_STRINGS` (10000) is declared next to the builder but never
  checked by it.
- The packer does not escape bytes. A row holding a 0 byte (which a Rust
  `String` may contain) is written verbatim, so the scan splits it into
  extra segments; every later row, and the mask alignment of a filtered
  decode, shifts accordingly (`Packing.ZeroByteSplitsRow`: the single row
  `[1, 0, 2]` decodes as `[1]` and `[2]`). The packer round trip is
  therefore stated for rows without a 0 byte.

## Model

| member | source | states |
|---|---|---|
| `Builder.BuildStringColumn` | src/mem_store/strings.rs:18-26 | The dictionary is built exactly when a unique set is supplied, the packer otherwise; the packer branch always succeeds and lays out every row; a successful dictionary branch losslessly represents the rows; the build fails exactly when a unique set is given and it exceeds 65535 values or misses some row. |
| `Builder.DictionaryRoundTrip` | src/mem_store/strings.rs:21-22 | With null-free rows and a unique set equal to the rows' values within 65535, the dictionary builds, decodes to the rows and filters to the selected rows. |
| `Builder.BuildRoundTrip` | src/mem_store/strings.rs:18-26 | For null-free rows (zero-free for the packer; unique set equal to the rows' values and within 65535 for the dictionary), either encoding builds, decodes to exactly the rows, and a filtered decode gives the selected rows in order. |
| `Builder.NullRowPolicy` | src/mem_store/strings.rs:41-44 | A column with a null row still builds; with zero-free rows the packer reads the null row back as "", while the dictionary (null in its unique set) fails its full decode on a null entry. |
| `Builder.CollectDecoded` | src/mem_store/strings.rs:70-72 | The column's full decode never fails for the packer, yielding one row per terminator; for the dictionary it fails only on a null entry. |
| `Builder.FilterDecode` | src/mem_store/strings.rs:74-82 | Whenever the full decode succeeds, the filtered decode is its mask-selected sub-sequence in row order; a failure is only ever a null dictionary entry. |
| `Builder.ToCodec` | src/mem_store/strings.rs:163 | The codec is present exactly for the dictionary, and decoding its stored indices is the column's full decode. |
| `Builder.CodecConsistent` | src/mem_store/strings.rs:163 | Only the dictionary exposes the codec; decoding its stored indices equals the full decode and decoding its mask-filtered indices equals the filtered decode. |
| `Builder.UpstreamCeilingSuffices` | src/mem_store/strings.rs:16 | With at most `MAX_UNIQUE_STRINGS` unique values covering every row, the dictionary branch always succeeds. |
| `Packing.Push` | src/mem_store/strings.rs:50-55 | Appending a string keeps the earlier buffer as a prefix and writes after it exactly the string's bytes followed by one 0 terminator. |
| `Packing.PushThenNext` | src/mem_store/strings.rs:50-55 | A pushed zero-free string is exactly the segment the iterator yields from where the push began, and the cursor ends at the buffer's end. |
| `Packing.PushAll` | src/mem_store/strings.rs:40-45 | Pushing the rows in order appends their packed form to the buffer: each row's bytes then a terminator, and for a null row no bytes and one terminator. |
| `Packing.ConcatLayout` | src/mem_store/strings.rs:50-55 | The packed form of rows has length equal to the sum of each row's length plus one, and is empty or ends in 0. |
| `Packing.FromStrings` | src/mem_store/strings.rs:38-48 | The packed column is terminated, its size is the sum over rows of length plus one, and its bytes are the rows' packed form. |
| `Packing.ConcatDependsOnBytes` | src/mem_store/strings.rs:41-44 | Rows that read as the same bytes (null versus "") pack to identical buffers. |
| `Packing.NullCollapse` | src/mem_store/strings.rs:41-44 | Replacing a row by null or by "" gives the same packed buffer, and with zero-free rows the null row decodes to "". |
| `Packing.Iter` | src/mem_store/strings.rs:61-66 | A fresh iterator's unread bytes are the whole buffer, and it keeps the buffer's terminated invariant. |
| `Packing.FirstZeroFrom` | src/mem_store/strings.rs:106-109 | The scan stops at the first 0 at or after the cursor, or at the end when there is none, having passed only non-zero bytes. |
| `Packing.NextOf` | src/mem_store/strings.rs:101-113 | `next` gives `None` exactly when the cursor is at or past the end; otherwise it yields the zero-free bytes up to the next terminator and moves the cursor strictly forward, just past that terminator. |
| `Packing.SegmentAt` | src/mem_store/strings.rs:106-111 | A zero-free segment followed by a terminator is the unique item the iterator yields from the segment's start. |
| `Packing.Next` | src/mem_store/strings.rs:101-113 | The terminator-scan loop stays inside the buffer and computes the same item and cursor as the reference step. |
| `Packing.Collect` | src/mem_store/strings.rs:70-72 | Draining the iterator terminates and every yielded segment is free of 0 bytes. |
| `Packing.CollectStep` | src/mem_store/strings.rs:70-72 | Collecting an iterator whose next item is `s` gives `s` followed by collecting the advanced iterator. |
| `Packing.NextSplits` | src/mem_store/strings.rs:106-111 | The bytes from the cursor are the yielded segment, its terminator, then the bytes from the advanced cursor. |
| `Packing.CountZerosSegment` | src/mem_store/strings.rs:107-111 | A zero-free segment followed by its terminator contributes exactly one terminator to the count. |
| `Packing.CollectCountsTerminators` | src/mem_store/strings.rs:101-113 | The iterator yields exactly one segment per terminator left after the cursor. |
| `Packing.ConcatHead` | src/mem_store/strings.rs:50-55 | In a packed run the first row's bytes start at the run's start, are followed by a 0, and then by the packed remaining rows. |
| `Packing.RowsTail` | src/mem_store/strings.rs:40-45 | Dropping the first row keeps the rows zero-free and drops the first entry of their bytes. |
| `Packing.CollectConcat` | src/mem_store/strings.rs:101-113 | From a cursor at the start of packed zero-free rows the iterator yields exactly those rows' bytes. |
| `Packing.CollectDecoded` | src/mem_store/strings.rs:70-72 | The full decode yields one segment per 0 byte in the buffer, each free of 0 bytes. |
| `Packing.FilterDecode` | src/mem_store/strings.rs:74-82 | The filtered decode is the full decode's segments at the set bits of the mask, over the shorter of decode and mask, in row order; its length is the number of those bits. |
| `Packing.PackZeroByteRow` | src/mem_store/strings.rs:50-55 | The row `[1, 0, 2]` is written verbatim, giving the buffer `[1, 0, 2, 0]`. |
| `Packing.ScanZeroByteRow` | src/mem_store/strings.rs:101-113 | Scanning `[1, 0, 2, 0]` yields the two segments `[1]` and `[2]`. |
| `Packing.ZeroByteSplitsRow` | src/mem_store/strings.rs:50-55 | Because push does not escape bytes, one row holding a 0 byte decodes as two rows. |
| `Packing.RoundTrip` | src/mem_store/strings.rs:70-82 | For zero-free rows, the full decode of the packed column is the rows' bytes (null as "") and the filtered decode is their mask-selected sub-sequence. |
| `Masks.FilterPrefix` | src/mem_store/strings.rs:76-80 | A filtered prefix keeps at most as many rows as it scans. |
| `Masks.Positions` | src/mem_store/strings.rs:76-80 | The selected positions are strictly increasing, lie below the scanned length, have their bit set, and include every set bit. |
| `Masks.FilterPrefixSelects` | src/mem_store/strings.rs:76-80 | The filtered prefix is the elements at the selected positions, one per set bit. |
| `Masks.FilterSelects` | src/mem_store/strings.rs:74-82 | A zip-filtered read is the sub-sequence at the set bits of the zipped prefix, in row order; its length is the count of those bits. |
| `Dictionary.DistinctCardinality` | src/mem_store/strings.rs:125-128 | A duplicate-free listing of a set has as many entries as the set, so the dictionary length is the unique count. |
| `Dictionary.ReverseMapping` | src/mem_store/strings.rs:130-131 | The reverse lookup's keys are the dictionary entries, and every key maps to an in-range index whose entry is that key. |
| `Dictionary.ReverseMappingInverts` | src/mem_store/strings.rs:130-131 | On a duplicate-free dictionary the reverse lookup sends entry `i` back to `i`. |
| `Dictionary.EncodeRows` | src/mem_store/strings.rs:132 | Encoding succeeds exactly when every row is in the lookup, then gives one index per row; otherwise it fails at the first missing row. |
| `Dictionary.FromStrings` | src/mem_store/strings.rs:122-143 | More than 65535 unique values is rejected; otherwise construction succeeds exactly when every row is in the unique set, giving a duplicate-free dictionary (the set's iteration order) and one in-range index per row naming the row's value; within the ceiling the only failure is `ValueNotInDictionary`, naming the first missing row. |
| `Dictionary.ToRaw` | src/mem_store/strings.rs:175-177 | A single index decodes exactly when it is in range with a non-null entry, to that entry's string; otherwise it reports out-of-range or null entry. |
| `Dictionary.Decode` | src/mem_store/strings.rs:167-173 | Decoding an index list succeeds exactly when every index is decodable, giving the entries' strings in order; otherwise it fails with the error of the first undecodable index. |
| `Dictionary.DecodeAppend` | src/mem_store/strings.rs:169-171 | Decoding one more index extends the previous result or stops at the first failure. |
| `Dictionary.FilterEncoded` | src/mem_store/strings.rs:184-197 | The filtered index array is the mask-selected sub-sequence of the stored indices, paired with the same dictionary. |
| `Dictionary.FilterDecodePrefix` | src/mem_store/strings.rs:153-157 | After each zipped row, the filtered-decode loop equals decoding the indices filtered so far, failures included. |
| `Dictionary.FilterDecode` | src/mem_store/strings.rs:151-159 | `filter_decode` equals decoding the mask-filtered index array, failures included. |
| `Dictionary.CollectDecoded` | src/mem_store/strings.rs:147-149 | The full decode succeeds exactly when every row's index names a non-null entry, giving each row's entry in order; on a valid dictionary a failure is always a null entry. |
| `Dictionary.DecodeInRangeFailsOnNull` | src/mem_store/strings.rs:170 | Indices inside the dictionary can only fail to decode by unwrapping a null entry. |
| `Dictionary.GetEncoded` | src/mem_store/strings.rs:180-182 | `get_encoded` hands out the stored index array with this dictionary as decoder, and decoding it is the full decode. |
| `Dictionary.FilterOfFullDecode` | src/mem_store/strings.rs:151-159 | Whenever the full decode succeeds, the filtered decode is its mask-selected sub-sequence. |
| `Dictionary.EncodedAccessConsistent` | src/mem_store/strings.rs:147-197 | `get_encoded` returns the stored indices, decoding them is `collect_decoded`, and `filter_decode` equals decoding `filter_encoded`. |
| `Dictionary.ToRawIsDecodeOfOne` | src/mem_store/strings.rs:167-177 | Decoding one index with `to_raw` agrees with decoding a one-element index list. |
| `Dictionary.CollectDecodedRoundTrip` | src/mem_store/strings.rs:147-149 | A dictionary that represents the rows decodes to their strings exactly when no row is null; otherwise the decode fails on a null entry. |
| `Dictionary.FilteredIndicesNameRows` | src/mem_store/strings.rs:184-197 | The filtered indices and the filtered rows line up: entry `k` of each comes from the same selected row, and that index names that row's value. |
| `Dictionary.FilteredDecodeSucceeds` | src/mem_store/strings.rs:151-159 | Decoding the filtered indices succeeds exactly when every selected row of the zipped prefix is non-null. |
| `Dictionary.FilteredDecodeValue` | src/mem_store/strings.rs:151-159 | A successful decode of the filtered indices is the selected rows' strings in row order. |
| `Dictionary.FilterDecodeRoundTrip` | src/mem_store/strings.rs:151-159 | A filtered decode succeeds exactly when every selected row of the zipped prefix is non-null, and then yields the selected rows' strings in order; unselected nulls do no harm. |

## Left out

- Memory accounting (`HeapSizeOf` for both encodings): size reporting only, no behaviour to model.
- `shrink_to_fit` and `with_capacity`: they change capacity, not contents; `FromStrings` treats the shrink as the identity.
- `Rc` sharing of input strings and the `String` copies made for `mapping`: ownership details; strings are plain values.
- UTF-8 validity and `from_utf8_unchecked`: strings are byte sequences and a decoded item is the byte slice itself.
- `TypedVec`, `Type`, `RawVal`, `BitVec`, `UniqueValues` and the `ColumnData`/`ColumnCodec`/`PointCodec` traits are not part of this model: results are plain sequences, masks are `seq<bool>`, the unique set is an `Option<set<Row>>`, `to_raw` returns the string `RawVal::Str` would wrap, and the trait dispatch is the `StringColumn` match. `strings.rs` does not override `to_codec` for `StringPacker`, so the packer's `None` in `Builder.ToCodec` stands for the `ColumnData` trait's default, whose file is not part of this model. The borrowed and owned index arrays are both an `EncodedView`.
- The type tags `decoded_type`, `encoded_type` and `ref_encoded_type` (src/mem_store/strings.rs:84, 161, 199-200) are modelled as constants (`Builder.DecodedType`, `Builder.EncodedType`, `Builder.RefEncodedType`) with no contract, as is `StringPacker::new` (src/mem_store/strings.rs:34-36, `Packing.New`, the empty buffer): they have nothing to prove.
- Hash-table internals: `reverse_mapping` is a Dafny `map` built from `mapping`, and the hash set's iteration order is an input.
- Idempotence of repeated decodes holds because every operation is a pure function; no lemma states it.
- `StringPackerIterator` state is a value threaded through `Next`, not a mutable borrow; the packer's filtered decode is modelled as the filter of the full decode, which agrees with the lazy `zip` on every well-formed buffer because a scan never fails there.
