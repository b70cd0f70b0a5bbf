/**
 * The paginator: cuts a sequence of `n` elements into pages of at most
 * `pageSize` elements, each page a range of indices. The constructor's loop
 * is modelled as written, which loses elements before its last page; the
 * corrected loop, which cuts the whole sequence into consecutive pages, is
 * modelled beside it.
 */
module Pagination {

  /** The elements with indices from `begin` up to, but not including, `end`. */
  datatype Page = Page(begin: nat, end: nat)

  /** `count` full pages of `pageSize` elements each, from index 0 on. */
  function FullPages(count: nat, pageSize: nat): (pages: seq<Page>)
    ensures |pages| == count
    ensures forall i | 0 <= i < count :: pages[i] == Page(i * pageSize, (i + 1) * pageSize)
  {
    if count == 0 then []
    else FullPages(count - 1, pageSize) + [Page((count - 1) * pageSize, count * pageSize)]
  }

  /** Where the loop as written begins its last page: `pageSize` before the end, or 0. */
  function LastStart(n: nat, pageSize: nat): nat {
    if n <= pageSize then 0 else n - pageSize
  }

  /**
   * The pages the constructor as written produces: the full pages that end
   * at or before LastStart, then the page from LastStart to the end. A page
   * size of 0 gives one empty page.
   */
  function Pages(n: nat, pageSize: nat): seq<Page> {
    if n == 0 then []
    else if pageSize == 0 then [Page(0, 0)]
    else
      var last := LastStart(n, pageSize);
      FullPages(last / pageSize, pageSize) + [Page(last, n)]
  }

  /** The pages of the corrected loop: full pages, then the rest, which is never empty. */
  function CorrectPages(n: nat, pageSize: nat): seq<Page> {
    if n == 0 then []
    else if pageSize == 0 then [Page(0, 0)]
    else
      var full := (n - 1) / pageSize;
      FullPages(full, pageSize) + [Page(full * pageSize, n)]
  }

  /** Index `k` lies in some page. */
  predicate Covered(pages: seq<Page>, k: nat) {
    exists i | 0 <= i < |pages| :: pages[i].begin <= k < pages[i].end
  }

  /**
   * The pages are in input order without overlap, each holds between 1 and
   * `pageSize` indices, all but the last exactly `pageSize`, and the last
   * ends at `n`; there are none exactly when `n` is 0.
   */
  predicate OrderedPages(pages: seq<Page>, n: nat, pageSize: nat) {
    && (n == 0 <==> pages == [])
    && (pages != [] ==> pages[|pages| - 1].end == n)
    && (forall i | 0 <= i < |pages| :: pages[i].begin < pages[i].end <= pages[i].begin + pageSize)
    && (forall i | 0 <= i < |pages| - 1 :: pages[i].end - pages[i].begin == pageSize)
    && (forall i | 0 <= i < |pages| - 1 :: pages[i].end <= pages[i + 1].begin)
  }

  /** Ordered pages that start at 0 and leave no gap: every index lies in exactly one page. */
  predicate Partitions(pages: seq<Page>, n: nat, pageSize: nat) {
    && OrderedPages(pages, n, pageSize)
    && (pages != [] ==> pages[0].begin == 0)
    && (forall i | 0 <= i < |pages| - 1 :: pages[i].end == pages[i + 1].begin)
  }

  /** Euclidean division by a positive page size brackets the index. */
  lemma DivBounds(k: nat, pageSize: nat)
    requires pageSize > 0
    ensures (k / pageSize) * pageSize <= k < (k / pageSize) * pageSize + pageSize
  {
    assert k == (k / pageSize) * pageSize + k % pageSize;
  }

  /** Consecutive full pages meet: each ends where the next begins. */
  lemma FullPagesMeet(count: nat, pageSize: nat)
    ensures forall i | 0 <= i < count ::
      FullPages(count, pageSize)[i].end == FullPages(count, pageSize)[i].begin + pageSize
  {
    forall i | 0 <= i < count
      ensures FullPages(count, pageSize)[i].end == FullPages(count, pageSize)[i].begin + pageSize
    {
      assert (i + 1) * pageSize == i * pageSize + pageSize;
    }
  }

  /**
   * The pages as written are ordered: every page holds 1 to `pageSize`
   * elements, every page closed at a full offset holds exactly `pageSize`,
   * and the last page ends at the end of the input.
   */
  lemma PagesOrdered(n: nat, pageSize: nat)
    requires pageSize > 0
    ensures OrderedPages(Pages(n, pageSize), n, pageSize)
  {
    if n > 0 {
      var last := LastStart(n, pageSize);
      var blocks := last / pageSize;
      var pages := Pages(n, pageSize);
      DivBounds(last, pageSize);
      FullPagesMeet(blocks, pageSize);
      forall i | 0 <= i < |pages| - 1
        ensures pages[i].end <= pages[i + 1].begin
      {
        if i + 1 < blocks {
          assert pages[i].end == (i + 1) * pageSize == pages[i + 1].begin;
        }
      }
    }
  }

  /** An input no longer than a page is one page covering all of it. */
  lemma ShortInputOnePage(n: nat, pageSize: nat)
    requires 0 < n <= pageSize
    ensures Pages(n, pageSize) == [Page(0, n)]
  {
  }

  /**
   * Exactly the indices between the last full page and LastStart are lost:
   * an index is in a page of the loop as written iff it lies before the end
   * of the full pages or from LastStart on.
   */
  lemma PagesCoverage(n: nat, pageSize: nat, k: nat)
    requires pageSize > 0 && k < n
    ensures Covered(Pages(n, pageSize), k) <==>
      k < (LastStart(n, pageSize) / pageSize) * pageSize || LastStart(n, pageSize) <= k
  {
    var last := LastStart(n, pageSize);
    var blocks := last / pageSize;
    var pages := Pages(n, pageSize);
    DivBounds(last, pageSize);
    if k < blocks * pageSize {
      var i := k / pageSize;
      DivBounds(k, pageSize);
      MulMono(blocks, i, pageSize);
      assert (i + 1) * pageSize == i * pageSize + pageSize;
      assert pages[i].begin <= k < pages[i].end;
    } else if last <= k {
      assert pages[|pages| - 1] == Page(last, n);
    } else {
      forall i | 0 <= i < |pages|
        ensures !(pages[i].begin <= k < pages[i].end)
      {
        if i < blocks {
          MulMono(i + 1, blocks, pageSize);
        }
      }
    }
  }

  /** Four elements in pages of three: the first element is in no page. */
  lemma PagesLoseElements()
    ensures Pages(4, 3) == [Page(1, 4)]
    ensures !Covered(Pages(4, 3), 0)
  {
    assert LastStart(4, 3) == 1 && 1 / 3 == 0;
  }

  /** The corrected pages cut the whole input into consecutive pages. */
  lemma CorrectPagesPartition(n: nat, pageSize: nat)
    requires pageSize > 0
    ensures Partitions(CorrectPages(n, pageSize), n, pageSize)
  {
    if n > 0 {
      var full := (n - 1) / pageSize;
      var pages := CorrectPages(n, pageSize);
      DivBounds(n - 1, pageSize);
      FullPagesMeet(full, pageSize);
      forall i | 0 <= i < |pages| - 1
        ensures pages[i].end == pages[i + 1].begin
      {
        if i + 1 < full {
          assert pages[i].end == (i + 1) * pageSize == pages[i + 1].begin;
        }
      }
    }
  }

  /** Every index of the input lies in a corrected page. */
  lemma CorrectPagesCover(n: nat, pageSize: nat, k: nat)
    requires pageSize > 0 && k < n
    ensures Covered(CorrectPages(n, pageSize), k)
  {
    var full := (n - 1) / pageSize;
    var pages := CorrectPages(n, pageSize);
    DivBounds(n - 1, pageSize);
    if k < full * pageSize {
      var i := k / pageSize;
      DivBounds(k, pageSize);
      MulMono(full, i, pageSize);
      assert (i + 1) * pageSize == i * pageSize + pageSize;
      assert pages[i].begin <= k < pages[i].end;
    } else {
      assert pages[full].begin <= k < pages[full].end;
    }
  }

  /** An index from the `blocks`-th block boundary up to the next one divides to `blocks`. */
  lemma DivBetween(k: nat, blocks: nat, pageSize: nat)
    requires pageSize > 0 && blocks * pageSize <= k < blocks * pageSize + pageSize
    ensures k / pageSize == blocks
  {
    var q, r := k / pageSize, k % pageSize;
    assert k == q * pageSize + r && 0 <= r < pageSize;
    assert (blocks + 1) * pageSize == blocks * pageSize + pageSize;
    assert (q + 1) * pageSize == q * pageSize + pageSize;
    MulMono(blocks + 1, q, pageSize);
    MulMono(q + 1, blocks, pageSize);
  }

  lemma MulMono(a: nat, b: nat, c: nat)
    ensures a <= b ==> a * c <= b * c
  {
    if a <= b {
      assert b * c == a * c + (b - a) * c;
    }
  }

  /** The pages of a paginator, in input order. */
  class Paginator {
    var ranges: seq<Page>

    /**
     * The loop as written: a full page is closed whenever `pageSize`
     * elements have been passed since the last one, and the loop stops at
     * the first index at most `pageSize` before the end, with a page from
     * there to the end.
     */
    constructor (n: nat, pageSize: nat)
      ensures ranges == Pages(n, pageSize)
    {
      var pages: seq<Page> := [];
      var offset := 0;
      var rangeBegin := 0;
      ghost var blocks := 0;
      var it := 0;
      while it < n
        invariant it <= n && rangeBegin + offset == it
        invariant pageSize == 0 ==> rangeBegin == 0 && pages == (if it == 0 then [] else [Page(0, 0)])
        invariant pageSize > 0 ==>
          && it <= LastStart(n, pageSize)
          && offset <= pageSize
          && (offset == 0 ==> it == 0)
          && rangeBegin == blocks * pageSize
          && pages == FullPages(blocks, pageSize)
      {
        if offset == pageSize {
          pages := pages + [Page(rangeBegin, it)];
          rangeBegin := it;
          offset := 0;
          if pageSize > 0 {
            assert (blocks + 1) * pageSize == blocks * pageSize + pageSize;
            blocks := blocks + 1;
          }
        }
        if n - it <= pageSize {
          if pageSize > 0 {
            DivBetween(it, blocks, pageSize);
          }
          pages := pages + [Page(it, n)];
          break;
        }
        offset := offset + 1;
        it := it + 1;
      }
      ranges := pages;
    }
  }

  /** A paginator over the indices of a sequence. */
  method Paginate<T>(c: seq<T>, pageSize: nat) returns (p: Paginator)
    ensures fresh(p) && p.ranges == Pages(|c|, pageSize)
  {
    p := new Paginator(|c|, pageSize);
  }

  /**
   * The loop with its last check corrected: it stops once the open page
   * reaches the end, and that page runs from where it began.
   */
  method CorrectedPaginate(n: nat, pageSize: nat) returns (ranges: seq<Page>)
    ensures ranges == CorrectPages(n, pageSize)
  {
    ranges := [];
    var offset := 0;
    var rangeBegin := 0;
    ghost var blocks := 0;
    var it := 0;
    while it < n
      invariant it <= n && rangeBegin + offset == it
      invariant pageSize == 0 ==> rangeBegin == 0 && ranges == (if it == 0 then [] else [Page(0, 0)])
      invariant pageSize > 0 ==>
        && offset <= pageSize
        && (offset == 0 ==> it == 0)
        && (it > 0 ==> rangeBegin + pageSize < n)
        && rangeBegin == blocks * pageSize
        && ranges == FullPages(blocks, pageSize)
    {
      if offset == pageSize {
        ranges := ranges + [Page(rangeBegin, it)];
        rangeBegin := it;
        offset := 0;
        if pageSize > 0 {
          assert (blocks + 1) * pageSize == blocks * pageSize + pageSize;
          blocks := blocks + 1;
        }
      }
      if n - rangeBegin <= pageSize {
        if pageSize > 0 {
          DivBetween(n - 1, blocks, pageSize);
        }
        ranges := ranges + [Page(rangeBegin, n)];
        break;
      }
      offset := offset + 1;
      it := it + 1;
    }
  }
}
