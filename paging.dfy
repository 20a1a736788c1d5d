/**
 * Pagination of query results: `normalize` turns a requested
 * (offset, length) pair into a valid slice range of a bucket.
 */
module Paging {

  function Min(a: int, b: int): int {
    if a <= b then a else b
  }

  /** Where a requested range starts once a negative offset is read as 0. */
  function Start(offset: int): nat {
    if offset < 0 then 0 else offset
  }

  /**
   * `normalize(offset, length, slicelen)`: a negative offset counts as 0, a
   * negative length as "to the end", and both ends are clipped to the slice.
   */
  function Normalize(offset: int, length: int, slicelen: int): (r: (int, int))
    requires slicelen >= 0
    ensures 0 <= r.0 <= r.1 <= slicelen
    ensures Start(offset) >= slicelen ==> r == (slicelen, slicelen)
    ensures Start(offset) < slicelen ==> r.0 == Start(offset)
    ensures length < 0 ==> r.1 == slicelen
    ensures length >= 0 ==> r.1 == Min(Start(offset) + length, slicelen)
  {
    var from := if offset < 0 then 0 else offset;
    var count := if length < 0 then slicelen else length;
    var till := from + count;
    var s := if from > slicelen then slicelen else from;
    var e := if till > slicelen then slicelen else till;
    (s, e)
  }

  /**
   * The page `xs[s:e]` that the queries return for (offset, length): the
   * elements of `xs` from position `Start(offset)` on, at most `length` of
   * them unless `length` is negative.
   */
  function Window<T>(xs: seq<T>, offset: int, length: int): (r: seq<T>)
    ensures Start(offset) >= |xs| ==> r == []
    ensures Start(offset) < |xs| ==>
      |r| == if length < 0 then |xs| - Start(offset) else Min(length, |xs| - Start(offset))
    ensures forall i :: 0 <= i < |r| ==> Start(offset) + i < |xs| && r[i] == xs[Start(offset) + i]
  {
    var (s, e) := Normalize(offset, length, |xs|);
    xs[s..e]
  }

  /** A negative offset gives the same page as offset 0. */
  lemma WindowNegativeOffset<T>(xs: seq<T>, offset: int, length: int)
    requires offset < 0
    ensures Window(xs, offset, length) == Window(xs, 0, length)
  {
  }

  /** Offset 0 with a negative length gives the whole bucket. */
  lemma WindowWhole<T>(xs: seq<T>, length: int)
    requires length < 0
    ensures Window(xs, 0, length) == xs
  {
  }

  /** An offset at or past the end gives an empty page. */
  lemma WindowPastEnd<T>(xs: seq<T>, offset: int, length: int)
    requires offset >= |xs|
    ensures Window(xs, offset, length) == []
  {
  }

  /**
   * Consecutive pages tile the bucket: the page of `length` at `offset`
   * followed by the page of `more` right after it is the page of
   * `length + more` at `offset`.
   */
  lemma WindowsTile<T>(xs: seq<T>, offset: nat, length: nat, more: nat)
    ensures Window(xs, offset, length) + Window(xs, offset + length, more) == Window(xs, offset, length + more)
  {
    var w1, w2, w := Window(xs, offset, length), Window(xs, offset + length, more), Window(xs, offset, length + more);
    if offset + length < |xs| {
      assert |w1| == length;
      forall i | 0 <= i < |w| ensures (w1 + w2)[i] == w[i] {
        if i >= length {
          assert w2[i - length] == xs[offset + i];
        }
      }
    }
  }

  /** The range of Go's `int` on a 64-bit platform. */
  const MinInt: int := -0x8000_0000_0000_0000
  const MaxInt: int := 0x7fff_ffff_ffff_ffff

  predicate IsInt(x: int) {
    MinInt <= x <= MaxInt
  }

  /** Two's complement wrap-around of a 64-bit `int` sum. */
  function Wrap(x: int): (r: int)
    ensures IsInt(r) && (r - x) % 0x1_0000_0000_0000_0000 == 0
    ensures IsInt(x) ==> r == x
  {
    (x - MinInt) % 0x1_0000_0000_0000_0000 + MinInt
  }

  /**
   * `normalize` as the machine runs it: `offset + length` on line 141 wraps
   * around when it exceeds the largest `int`. Wherever that sum fits, the
   * result is the intended `Normalize`.
   */
  function NormalizeAsWritten(offset: int, length: int, slicelen: int): (r: (int, int))
    requires IsInt(offset) && IsInt(length) && 0 <= slicelen <= MaxInt
    ensures IsInt(Start(offset) + (if length < 0 then slicelen else length)) ==> r == Normalize(offset, length, slicelen)
  {
    var from := if offset < 0 then 0 else offset;
    var count := if length < 0 then slicelen else length;
    var till := Wrap(from + count);
    var s := if from > slicelen then slicelen else from;
    var e := if till > slicelen then slicelen else till;
    (s, e)
  }

  /**
   * Offset 1 with the largest length: the end wraps to the smallest `int`,
   * below the start, so slicing the bucket with this range panics, while the
   * intended range is the (empty or whole-remaining) tail of the bucket.
   */
  lemma NormalizeOverflow(slicelen: nat)
    requires slicelen <= MaxInt
    ensures var r := NormalizeAsWritten(1, MaxInt, slicelen);
      r.1 == MinInt && r.1 < r.0
    ensures Normalize(1, MaxInt, slicelen) == (Min(1, slicelen), slicelen)
  {
    assert Wrap(1 + MaxInt) == MinInt;
  }
}
