/** Row masks. A filtered read walks the column zipped with the mask, so it
    stops at the shorter of the two, and keeps the rows whose bit is set. */
module Masks {
  import opened Values

  /** The rows among the first `n` whose mask bit is set, in row order. */
  function FilterPrefix<T>(xs: seq<T>, mask: seq<bool>, n: nat): (r: seq<T>)
    requires n <= |xs| && n <= |mask|
    ensures |r| <= n
    decreases n
  {
    if n == 0 then []
    else FilterPrefix(xs, mask, n - 1) + (if mask[n - 1] then [xs[n - 1]] else [])
  }

  /** `xs.zip(mask)` keeping the selected elements. */
  function Filter<T>(xs: seq<T>, mask: seq<bool>): seq<T> {
    FilterPrefix(xs, mask, Min(|xs|, |mask|))
  }

  /** The positions below `n` whose mask bit is set, in increasing order. */
  function Positions(mask: seq<bool>, n: nat): (p: seq<nat>)
    requires n <= |mask|
    ensures forall k :: 0 <= k < |p| ==> p[k] < n && mask[p[k]]
    ensures forall k, l :: 0 <= k < l < |p| ==> p[k] < p[l]
    ensures forall i :: 0 <= i < n && mask[i] ==> i in p
    decreases n
  {
    if n == 0 then []
    else Positions(mask, n - 1) + (if mask[n - 1] then [n - 1] else [])
  }

  /** The filtered prefix is exactly the elements at the selected positions. */
  lemma {:induction false} FilterPrefixSelects<T>(xs: seq<T>, mask: seq<bool>, n: nat)
    requires n <= |xs| && n <= |mask|
    ensures |FilterPrefix(xs, mask, n)| == |Positions(mask, n)|
    ensures forall k :: 0 <= k < |Positions(mask, n)| ==>
              FilterPrefix(xs, mask, n)[k] == xs[Positions(mask, n)[k]]
    decreases n
  {
    if n > 0 {
      FilterPrefixSelects(xs, mask, n - 1);
    }
  }

  /** A filtered read is the sub-sequence at the set bits of the zipped
      prefix, in row order; its length is the number of those set bits. */
  lemma FilterSelects<T>(xs: seq<T>, mask: seq<bool>)
    ensures |Filter(xs, mask)| == |Positions(mask, Min(|xs|, |mask|))|
    ensures forall k :: 0 <= k < |Filter(xs, mask)| ==>
              Filter(xs, mask)[k] == xs[Positions(mask, Min(|xs|, |mask|))[k]]
  {
    FilterPrefixSelects(xs, mask, Min(|xs|, |mask|));
  }
}
