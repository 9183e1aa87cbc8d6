/**
 * Pagination arithmetic shared by the three list pages: the number of
 * pages (`Math.ceil(count / size)`), the 1-based current page
 * (`Math.floor(offset / size) + 1`) and the "shown a - b" range.
 *
 * Dafny's `/` on `int` is Euclidean; for a positive divisor it agrees
 * with `Math.floor` of the real quotient, also for negative dividends.
 */
module Paging {
  import opened Js

  /** `Math.ceil(count / size)`: the least number of pages of `size` items that hold `count` items. */
  function TotalPages(count: nat, size: nat): (pages: nat)
    requires size > 0
    ensures pages * size >= count
    ensures pages > 0 ==> (pages - 1) * size < count
    ensures count == 0 <==> pages == 0
  {
    (count + size - 1) / size
  }

  /** No smaller page count holds `count` items. */
  lemma TotalPagesIsLeast(count: nat, size: nat, q: nat)
    requires size > 0
    requires q * size >= count
    ensures TotalPages(count, size) <= q
  {
    var p := TotalPages(count, size);
    if p > 0 {
      MulStrictReverse(p - 1, q, size);
    }
  }

  /** `Math.floor(offset / size) + 1`: the page whose item range contains `offset`. */
  function CurrentPage(offset: int, size: nat): (page: int)
    requires size > 0
    ensures (page - 1) * size <= offset < page * size
    ensures offset >= 0 ==> page >= 1
  {
    offset / size + 1
  }

  /** An offset of `k` whole pages is shown as page `k + 1`. */
  lemma CurrentPageOfMultiple(k: int, size: nat)
    requires size > 0
    ensures CurrentPage(k * size, size) == k + 1
  {
    MulDivCancel(k, size);
  }

  /**
   * When the offset is a whole number of pages and is either 0 or before
   * the end of the collection, "page X of Y" never shows X > Y (unless
   * the collection is empty, where Y is 0 and X is 1).
   */
  lemma CurrentPageWithinTotal(offset: int, size: nat, count: nat)
    requires size > 0
    requires offset >= 0 && offset % size == 0
    requires offset == 0 || offset < count
    ensures count > 0 ==> 1 <= CurrentPage(offset, size) <= TotalPages(count, size)
    ensures count == 0 ==> CurrentPage(offset, size) == 1 && TotalPages(count, size) == 0
  {
    var k := offset / size;
    assert offset == k * size;
    CurrentPageOfMultiple(k, size);
    if count > 0 && offset > 0 {
      MulStrictReverse(k, TotalPages(count, size), size);
    }
  }

  /** Page `n` (1-based) starts at offset `(n - 1) * size`, which lies before the end exactly when `n <= TotalPages`. */
  lemma PageStartInRange(n: int, size: nat, count: nat)
    requires size > 0
    ensures (n - 1) * size < count <==> n <= TotalPages(count, size)
  {
    var t := TotalPages(count, size);
    if (n - 1) * size < count {
      MulStrictReverse(n - 1, t, size);
    }
    if 1 <= n <= t {
      MulMonotone(n - 1, t - 1, size);
    } else if n < 1 {
      MulMonotone(n - 1, -1, size);
    }
  }

  /** `items.slice(start, end)` for non-negative bounds: both bounds are clamped to the length. */
  function Slice<T>(items: seq<T>, start: nat, end: nat): (part: seq<T>)
    ensures |part| == Max(0, Min(end, |items|) - start)
    ensures forall i :: 0 <= i < |part| ==> part[i] == items[start + i]
  {
    var hi := Min(end, |items|);
    if start >= hi then [] else items[start..hi]
  }

  /** The "shown first - last" figures: `offset + 1` and `Math.min(offset + size, count)`. */
  function ShownRange(offset: int, size: nat, count: nat): (range: (int, int))
    requires size > 0
    ensures range.0 == offset + 1
    ensures range.1 == count || range.1 == offset + size
    ensures range.1 <= count
    ensures range.1 <= offset + size
    ensures range.1 - range.0 < size
    ensures 0 <= offset < count ==> range.0 <= range.1
  {
    (offset + 1, Min(offset + size, count))
  }

  // ---------------------------------------------------------------------
  // Multiplication facts the solver needs spelled out
  // ---------------------------------------------------------------------

  lemma MulMonotone(a: int, b: int, c: nat)
    requires a <= b
    ensures a * c <= b * c
  {
    assert b * c - a * c == (b - a) * c;
  }

  lemma MulStrictReverse(a: int, b: int, c: nat)
    requires c > 0 && a * c < b * c
    ensures a < b
  {
    assert b * c - a * c == (b - a) * c;
  }

  lemma MulDivCancel(k: int, c: nat)
    requires c > 0
    ensures (k * c) / c == k
  {
    var q := (k * c) / c;
    var r := (k * c) % c;
    assert k * c == q * c + r;
    assert (k - q) * c == r;
    MulStrictReverse(k - q, 1, c);
    MulStrictReverse(-1, k - q, c);
  }

  /** Whole pages stay whole pages one page forward or back. */
  lemma MultipleStep(offset: int, size: nat)
    requires size > 0 && offset % size == 0
    ensures (offset + size) % size == 0
    ensures (offset - size) % size == 0
  {
    var k := offset / size;
    assert offset == k * size;
    assert offset + size == (k + 1) * size;
    assert offset - size == (k - 1) * size;
    MulModZero(k + 1, size);
    MulModZero(k - 1, size);
  }

  lemma MulModZero(k: int, c: nat)
    requires c > 0
    ensures (k * c) % c == 0
  {
    MulDivCancel(k, c);
  }

  /** 34 items in pages of 20, at offset 0: page 1 of 2. */
  lemma ThirtyFourItemsExample()
    ensures TotalPages(34, 20) == 2 && CurrentPage(0, 20) == 1
  {
  }
}
