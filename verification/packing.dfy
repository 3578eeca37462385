/** The raw packer: every row's bytes followed by a single 0 terminator, in
    one buffer, read back by a forward scanning iterator. A null row is
    written as an empty segment, so null and "" pack identically. */
module Packing {
  import opened Wrappers
  import opened Values
  import opened Masks

  /** The buffer invariant push keeps: empty, or ending in the terminator. */
  predicate Terminated(data: Bytes) {
    |data| == 0 || data[|data| - 1] == 0
  }

  datatype StringPacker = StringPacker(data: Bytes) {
    predicate Valid() {
      Terminated(data)
    }
  }

  function New(): StringPacker {
    StringPacker([])
  }

  /** Appends the bytes of one string and a terminator. */
  function Push(sp: StringPacker, s: Bytes): (r: StringPacker)
    ensures |r.data| == |sp.data| + |s| + 1
    ensures r.data[..|sp.data|] == sp.data
    ensures r.data[|sp.data|..] == s + [0]
    ensures r.Valid()
  {
    StringPacker(sp.data + s + [0])
  }

  /** Pushes the rows in order, a null row as the empty string: the buffer
      grows by the rows' packed form. */
  function PushAll(sp: StringPacker, rows: seq<Row>): (r: StringPacker)
    ensures r.data == sp.data + Concat(rows)
    decreases |rows|
  {
    if |rows| == 0 then sp
    else
      var b := RowBytes(rows[0]);
      assert Concat(rows) == b + [0] + Concat(rows[1..]);
      PushAll(Push(sp, b), rows[1..])
  }

  /** The packed form of a run of rows. */
  function Concat(rows: seq<Row>): Bytes
    decreases |rows|
  {
    if |rows| == 0 then []
    else RowBytes(rows[0]) + [0] + Concat(rows[1..])
  }

  /** The buffer size the packer needs: one byte per string byte plus one
      terminator per row. */
  function PackedSize(rows: seq<Row>): nat
    decreases |rows|
  {
    if |rows| == 0 then 0
    else |RowBytes(rows[0])| + 1 + PackedSize(rows[1..])
  }

  lemma {:induction false} ConcatLayout(rows: seq<Row>)
    ensures |Concat(rows)| == PackedSize(rows)
    ensures Terminated(Concat(rows))
    decreases |rows|
  {
    if |rows| > 0 {
      ConcatLayout(rows[1..]);
    }
  }

  /** `StringPacker::from_strings`; the final `shrink_to_fit` only changes
      capacity and is the identity here. */
  function FromStrings(rows: seq<Row>): (sp: StringPacker)
    ensures sp.Valid()
    ensures |sp.data| == PackedSize(rows)
    ensures sp.data == Concat(rows)
  {
    ConcatLayout(rows);
    PushAll(New(), rows)
  }

  /** Packing depends only on the bytes of each row, so rows that read the
      same (a null and an empty string) pack to the same buffer. */
  lemma {:induction false} ConcatDependsOnBytes(rows: seq<Row>, rows': seq<Row>)
    requires AllRowBytes(rows) == AllRowBytes(rows')
    ensures Concat(rows) == Concat(rows')
    decreases |rows|
  {
    if |rows| > 0 {
      assert RowBytes(rows[0]) == AllRowBytes(rows)[0] == RowBytes(rows'[0]);
      assert AllRowBytes(rows[1..]) == AllRowBytes(rows)[1..];
      assert AllRowBytes(rows'[1..]) == AllRowBytes(rows')[1..];
      ConcatDependsOnBytes(rows[1..], rows'[1..]);
    }
  }

  /** A cursor over a packed buffer. */
  datatype StringPackerIterator = StringPackerIterator(data: Bytes, currIndex: nat) {
    predicate Valid() {
      Terminated(data)
    }
  }

  /** `iter`: a fresh iterator sees the whole buffer. */
  function Iter(sp: StringPacker): (it: StringPackerIterator)
    ensures it.Valid() <==> sp.Valid()
    ensures it.currIndex <= |it.data| && it.data[it.currIndex..] == sp.data
  {
    StringPackerIterator(sp.data, 0)
  }

  /** The first terminator at or after `i`, or `|data|` if there is none. */
  function FirstZeroFrom(data: Bytes, i: nat): (j: nat)
    requires i <= |data|
    ensures i <= j <= |data|
    ensures 0 !in data[i..j]
    ensures j < |data| ==> data[j] == 0
    decreases |data| - i
  {
    if i == |data| || data[i] == 0 then i
    else
      var j := FirstZeroFrom(data, i + 1);
      assert data[i..j] == [data[i]] + data[i + 1..j];
      j
  }

  /** One step of the iterator: `None` exactly at the end of the buffer,
      otherwise the zero-free segment up to the next terminator, with the
      cursor moved just past that terminator. */
  function NextOf(it: StringPackerIterator): (r: (Option<Bytes>, StringPackerIterator))
    requires it.Valid()
    ensures r.1.data == it.data && r.1.Valid()
    ensures r.0.None? <==> it.currIndex >= |it.data|
    ensures r.0.None? ==> r.1 == it
    ensures r.0.Some? ==>
              && it.currIndex < r.1.currIndex <= |it.data|
              && r.1.currIndex == it.currIndex + |r.0.value| + 1
              && r.0.value == it.data[it.currIndex..r.1.currIndex - 1]
              && 0 !in r.0.value
              && it.data[r.1.currIndex - 1] == 0
  {
    if it.currIndex >= |it.data| then (None, it)
    else
      var index := FirstZeroFrom(it.data, it.currIndex);
      (Some(it.data[it.currIndex..index]), StringPackerIterator(it.data, index + 1))
  }

  /** A zero-free segment followed by a terminator is what the iterator
      yields from the segment's start. */
  lemma SegmentAt(data: Bytes, start: nat, s: Bytes)
    requires Terminated(data)
    requires start + |s| < |data|
    requires data[start..start + |s|] == s && 0 !in s
    requires data[start + |s|] == 0
    ensures NextOf(StringPackerIterator(data, start))
            == (Some(s), StringPackerIterator(data, start + |s| + 1))
  {
  }

  /** `StringPackerIterator::next`: the terminator scan. The buffer's
      invariant guarantees the scan meets a 0 before running off the end. */
  method Next(it: StringPackerIterator) returns (item: Option<Bytes>, it': StringPackerIterator)
    requires it.Valid()
    ensures (item, it') == NextOf(it)
  {
    if it.currIndex >= |it.data| {
      return None, it;
    }
    var index := it.currIndex;
    while it.data[index] != 0
      invariant it.currIndex <= index < |it.data|
      invariant 0 !in it.data[it.currIndex..index]
      decreases |it.data| - index
    {
      assert it.data[it.currIndex..index + 1] == it.data[it.currIndex..index] + [it.data[index]];
      index := index + 1;
    }
    SegmentAt(it.data, it.currIndex, it.data[it.currIndex..index]);
    item := Some(it.data[it.currIndex..index]);
    it' := StringPackerIterator(it.data, index + 1);
  }

  /** Drains the iterator: `iter().collect()`. */
  function Collect(it: StringPackerIterator): (r: seq<Bytes>)
    requires it.Valid()
    ensures forall k :: 0 <= k < |r| ==> 0 !in r[k]
    decreases |it.data| - it.currIndex
  {
    match NextOf(it)
    case (None, _) => []
    case (Some(s), next) => [s] + Collect(next)
  }

  /** Draining an iterator that yields `s` is `s` followed by draining the
      advanced iterator. */
  lemma CollectStep(it: StringPackerIterator, s: Bytes, next: StringPackerIterator)
    requires it.Valid()
    requires NextOf(it) == (Some(s), next)
    ensures Collect(it) == [s] + Collect(next)
  {
  }

  /** The number of terminators in a byte string. */
  function CountZeros(s: Bytes): nat
    decreases |s|
  {
    if |s| == 0 then 0
    else (if s[0] == 0 then 1 else 0) + CountZeros(s[1..])
  }

  lemma {:induction false} CountZerosSegment(s: Bytes, rest: Bytes)
    requires 0 !in s
    ensures CountZeros(s + [0] + rest) == 1 + CountZeros(rest)
    decreases |s|
  {
    if |s| == 0 {
      assert (s + [0] + rest)[1..] == rest;
    } else {
      assert (s + [0] + rest)[1..] == s[1..] + [0] + rest;
      CountZerosSegment(s[1..], rest);
    }
  }

  /** The bytes from a cursor split into the yielded segment, its
      terminator, and the bytes from the advanced cursor. */
  lemma NextSplits(it: StringPackerIterator)
    requires it.Valid() && NextOf(it).0.Some?
    ensures it.data[it.currIndex..]
            == NextOf(it).0.value + [0] + it.data[NextOf(it).1.currIndex..]
  {
  }

  /** Iteration ends after exactly one segment per terminator left in the
      buffer. */
  lemma {:induction false} CollectCountsTerminators(it: StringPackerIterator)
    requires it.Valid() && it.currIndex <= |it.data|
    ensures |Collect(it)| == CountZeros(it.data[it.currIndex..])
    decreases |it.data| - it.currIndex
  {
    var (item, next) := NextOf(it);
    if item.Some? {
      CollectStep(it, item.value, next);
      CollectCountsTerminators(next);
      NextSplits(it);
      CountZerosSegment(item.value, it.data[next.currIndex..]);
    } else {
      assert it.data[it.currIndex..] == [];
    }
  }

  /** The first row of a packed run sits at the run's start, followed by
      its terminator and then the packed rest. */
  lemma ConcatHead(data: Bytes, start: nat, rows: seq<Row>)
    requires |rows| > 0
    requires start <= |data| && data[start..] == Concat(rows)
    ensures start + |RowBytes(rows[0])| < |data|
    ensures data[start..start + |RowBytes(rows[0])|] == RowBytes(rows[0])
    ensures data[start + |RowBytes(rows[0])|] == 0
    ensures data[start + |RowBytes(rows[0])| + 1..] == Concat(rows[1..])
  {
  }

  /** The rows after the first keep the zero-free property, and their
      bytes are the column's bytes after the first. */
  lemma RowsTail(rows: seq<Row>)
    requires |rows| > 0
    ensures ZeroFree(rows) ==> ZeroFree(rows[1..])
    ensures AllRowBytes(rows) == [RowBytes(rows[0])] + AllRowBytes(rows[1..])
  {
  }

  /** Reading from a cursor at the start of a packed run of zero-free rows
      yields those rows' bytes. */
  lemma {:induction false} CollectConcat(data: Bytes, start: nat, rows: seq<Row>)
    requires Terminated(data)
    requires start <= |data| && data[start..] == Concat(rows)
    requires ZeroFree(rows)
    ensures Collect(StringPackerIterator(data, start)) == AllRowBytes(rows)
    decreases |rows|
  {
    if |rows| == 0 {
      assert NextOf(StringPackerIterator(data, start)).0.None?;
    } else {
      var s := RowBytes(rows[0]);
      var next := StringPackerIterator(data, start + |s| + 1);
      ConcatHead(data, start, rows);
      assert 0 !in s;
      SegmentAt(data, start, s);
      CollectStep(StringPackerIterator(data, start), s, next);
      RowsTail(rows);
      CollectConcat(data, start + |s| + 1, rows[1..]);
    }
  }

  /** `collect_decoded`: the full decode, one zero-free segment per
      terminator in the buffer. */
  function CollectDecoded(sp: StringPacker): (r: seq<Bytes>)
    requires sp.Valid()
    ensures |r| == CountZeros(sp.data)
    ensures forall k :: 0 <= k < |r| ==> 0 !in r[k]
  {
    CollectCountsTerminators(Iter(sp));
    Collect(Iter(sp))
  }

  /** `filter_decode`: the decoded rows zipped with the mask, keeping the
      selected ones, in row order. */
  function FilterDecode(sp: StringPacker, mask: seq<bool>): (r: seq<Bytes>)
    requires sp.Valid()
    ensures |r| == |Positions(mask, Min(CountZeros(sp.data), |mask|))|
    ensures forall k :: 0 <= k < |r| ==>
              r[k] == CollectDecoded(sp)[Positions(mask, Min(CountZeros(sp.data), |mask|))[k]]
  {
    FilterSelects(CollectDecoded(sp), mask);
    Filter(CollectDecoded(sp), mask)
  }

  /** Round trip: for rows without a 0 byte, decoding the packed column gives
      one segment per row, the row's bytes, empty for a null row; a filtered
      decode gives the selected rows' bytes in row order. */
  lemma RoundTrip(rows: seq<Row>, mask: seq<bool>)
    requires ZeroFree(rows)
    ensures CollectDecoded(FromStrings(rows)) == AllRowBytes(rows)
    ensures FilterDecode(FromStrings(rows), mask) == Filter(AllRowBytes(rows), mask)
  {
    var sp := FromStrings(rows);
    assert sp.data[0..] == Concat(rows);
    CollectConcat(sp.data, 0, rows);
  }

  /** The buffer a row holding a 0 byte packs to. */
  lemma PackZeroByteRow()
    ensures FromStrings([Some([1, 0, 2])]).data == [1, 0, 2, 0]
  {
  }

  /** Scanning that buffer finds two terminators and so two segments. */
  lemma ScanZeroByteRow()
    ensures Collect(StringPackerIterator([1, 0, 2, 0], 0)) == [[1], [2]]
  {
    var data: Bytes := [1, 0, 2, 0];
    var it0 := StringPackerIterator(data, 0);
    var it2 := StringPackerIterator(data, 2);
    var it4 := StringPackerIterator(data, 4);
    assert data[0..1] == [1];
    SegmentAt(data, 0, [1]);
    CollectStep(it0, [1], it2);
    assert data[2..3] == [2];
    SegmentAt(data, 2, [2]);
    CollectStep(it2, [2], it4);
    assert NextOf(it4).0.None?;
  }

  /** The packer does not escape bytes: the one row `[1, 0, 2]`, holding a
      0 byte, comes back as two segments. */
  lemma ZeroByteSplitsRow()
    ensures CollectDecoded(FromStrings([Some([1, 0, 2])])) == [[1], [2]]
  {
    PackZeroByteRow();
    ScanZeroByteRow();
  }

  /** Null collapse: a null row and an empty string produce the same buffer,
      and when no row holds a 0 byte the null row decodes as "". */
  lemma NullCollapse(rows: seq<Row>, i: nat)
    requires i < |rows|
    ensures FromStrings(rows[i := None]) == FromStrings(rows[i := Some([])])
    ensures ZeroFree(rows) ==> |CollectDecoded(FromStrings(rows[i := None]))| == |rows|
    ensures ZeroFree(rows) ==> CollectDecoded(FromStrings(rows[i := None]))[i] == []
  {
    assert AllRowBytes(rows[i := None]) == AllRowBytes(rows[i := Some([])]);
    ConcatDependsOnBytes(rows[i := None], rows[i := Some([])]);
    if ZeroFree(rows) {
      assert ZeroFree(rows[i := None]);
      RoundTrip(rows[i := None], []);
    }
  }

  /** Push and next are inverse: a pushed zero-free string is the segment
      the iterator yields from where the push started. */
  lemma PushThenNext(sp: StringPacker, s: Bytes)
    requires 0 !in s
    ensures NextOf(StringPackerIterator(Push(sp, s).data, |sp.data|))
            == (Some(s), StringPackerIterator(Push(sp, s).data, |Push(sp, s).data|))
  {
  }
}
