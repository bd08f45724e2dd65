/** `ApiList<T>(source, pageIndex, pageSize)`, the page of a query the plugin returns.
    Its body is not part of this model; it is taken to be
    `source.Skip(pageIndex * pageSize).Take(pageSize)`. */
module DataStructures {
  import opened Linq

  function Max0(n: int): nat {
    if n < 0 then 0 else n
  }

  function Min(a: int, b: int): int {
    if a <= b then a else b
  }

  /** Where a page starts in a source of `length` elements, for a given skip count. */
  function PageStart(skip: int, length: nat): nat {
    Clamp(skip, length)
  }

  /** The page, with the product `pageIndex * pageSize` taken in unbounded arithmetic. */
  function ApiList<T>(source: seq<T>, pageIndex: int, pageSize: int): (r: seq<T>)
    ensures |r| <= Max0(pageSize)
    ensures |r| == Min(Max0(pageSize), |source| - PageStart(pageIndex * pageSize, |source|))
    ensures forall i :: 0 <= i < |r| ==>
              PageStart(pageIndex * pageSize, |source|) + i < |source|
              && r[i] == source[PageStart(pageIndex * pageSize, |source|) + i]
  {
    Take(Skip(source, pageIndex * pageSize), pageSize)
  }

  /** A page whose offset lies at or past the end of the source is empty, never an error. */
  lemma PageBeyondEndIsEmpty<T>(source: seq<T>, pageIndex: int, pageSize: int)
    requires pageIndex * pageSize >= |source|
    ensures ApiList(source, pageIndex, pageSize) == []
  {
  }

  /** Pages `0 .. k-1`, concatenated in order. */
  function Pages<T>(source: seq<T>, k: nat, pageSize: int): seq<T> {
    if k == 0 then [] else Pages(source, k - 1, pageSize) + ApiList(source, k - 1, pageSize)
  }

  /** Reading the first `k` pages reproduces a prefix of the source: no element is
      repeated and none is skipped. */
  lemma {:induction false} PagesArePrefix<T>(source: seq<T>, k: nat, pageSize: int)
    requires pageSize >= 1
    ensures Pages(source, k, pageSize) == source[..Min(k * pageSize, |source|)]
  {
    if k > 0 {
      PagesArePrefix(source, k - 1, pageSize);
      var skip, next := NextPageOffset(k, pageSize);
      PageAt(source, k - 1, pageSize, skip);
      SlicesJoin(source, Min(skip, |source|), Min(next, |source|));
    }
  }

  lemma SlicesJoin<T>(s: seq<T>, a: int, b: int)
    requires 0 <= a <= b <= |s|
    ensures s[..a] + s[a..b] == s[..b]
  {
  }

  /** The offsets of page `k - 1` and page `k`, without multiplication left to the solver. */
  lemma NextPageOffset(k: nat, pageSize: int) returns (skip: int, next: int)
    requires k > 0 && pageSize >= 1
    ensures skip == (k - 1) * pageSize && next == k * pageSize
    ensures 0 <= skip && next == skip + pageSize
  {
    skip, next := (k - 1) * pageSize, k * pageSize;
  }

  /** A page at a non-negative offset is the slice from that offset, `pageSize` long. */
  lemma PageAt<T>(source: seq<T>, pageIndex: int, pageSize: int, skip: int)
    requires skip == pageIndex * pageSize && 0 <= skip && pageSize >= 0
    ensures ApiList(source, pageIndex, pageSize) == source[Min(skip, |source|)..Min(skip + pageSize, |source|)]
  {
  }

  /** Enough pages cover the whole source. */
  lemma PagesCoverSource<T>(source: seq<T>, k: nat, pageSize: int)
    requires pageSize >= 1 && k * pageSize >= |source|
    ensures Pages(source, k, pageSize) == source
  {
    PagesArePrefix(source, k, pageSize);
  }

  const Int32Modulus: int := 0x1_0000_0000

  /** The value a C# `int` holds after an unchecked operation whose exact result is `n`. */
  function WrapInt32(n: int): (r: int)
    ensures -0x8000_0000 <= r < 0x8000_0000
    ensures (r - n) % Int32Modulus == 0
  {
    var m := n % Int32Modulus;
    if m >= 0x8000_0000 then m - Int32Modulus else m
  }

  /** The page as the C# code computes it: `pageIndex * pageSize` is a 32-bit product. */
  function ApiListInt32<T>(source: seq<T>, pageIndex: int, pageSize: int): (r: seq<T>)
    ensures |r| <= Max0(pageSize)
    ensures |r| == Min(Max0(pageSize), |source| - PageStart(WrapInt32(pageIndex * pageSize), |source|))
    ensures forall i :: 0 <= i < |r| ==>
              PageStart(WrapInt32(pageIndex * pageSize), |source|) + i < |source|
              && r[i] == source[PageStart(WrapInt32(pageIndex * pageSize), |source|) + i]
  {
    Take(Skip(source, WrapInt32(pageIndex * pageSize)), pageSize)
  }

  /** Page index 2^30 with page size 2 (page 1073741825 of the endpoint) has the true
      offset 2^31, past the end of a one-element source; the 32-bit product wraps to
      -2^31, `Skip` skips nothing, and the first page comes back. */
  lemma HugePageWrapsToFirstPage<T>(x: T)
    ensures ApiListInt32([x], 0x4000_0000, 2) == [x]
    ensures ApiList([x], 0x4000_0000, 2) == []
  {
    assert WrapInt32(0x4000_0000 * 2) == -0x8000_0000;
  }
}
