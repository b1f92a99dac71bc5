/** The results header (`_search_app/src/components/SearchResultsHeader.js`):
    the "Showing x - y of n Results" line, the out-of-range warning, and the
    page the paginator is told is current. */
module ResultsHeader {
  import opened Strings
  import Paginator

  /** What the header shows. On the normal branch it carries the shown
      range, the page size and the current page handed to the paginator. */
  datatype HeaderView =
    | NoResults
    | StartOutOfRange(message: string)
    | Showing(startIdx: int, endIdx: int, numHits: int, size: int, currentPage: int)

  /** The 1-based position of the first result shown. */
  function StartIdx(start: int): int {
    start + 1
  }

  /** The 1-based position of the last result shown, as the constructor
      computes it: `startIdx + min(numHits - startIdx, size - 1)`. */
  function EndIdx(numHits: int, start: int, size: int): int {
    StartIdx(start) + Paginator.Min(numHits - StartIdx(start), size - 1)
  }

  /** The constructor's end position is the smaller of the total and the
      end of the page. */
  lemma EndIdxIsMin(numHits: int, start: int, size: int)
    ensures EndIdx(numHits, start, size) == Paginator.Min(numHits, start + size)
  {
  }

  /** The current page as the template computes it:
      `Math.floor(startIdx / size) + 1`, with the 1-based `startIdx`. */
  function CurrentPageAsWritten(start: int, size: int): int
    requires size >= 1
  {
    StartIdx(start) / size + 1
  }

  /** The current page: the page whose results begin at or before `start`,
      `Math.floor(start / size) + 1`. */
  function CurrentPage(start: int, size: int): int
    requires size >= 1
  {
    start / size + 1
  }

  /** `connectedCallback`'s three branches. The page handed to the paginator
      is the template's, which is one past the page holding `start` when
      `start` is the last offset of its page. */
  function Header(numHits: int, start: int, size: int): (r: HeaderView)
    ensures r.NoResults? <==> numHits == 0
    ensures r.StartOutOfRange? <==> numHits != 0 && EndIdx(numHits, start, size) < StartIdx(start)
    ensures r.Showing? ==>
      && size >= 1
      && r.currentPage == CurrentPage(start, size) + (if start % size == size - 1 then 1 else 0)
  {
    var startIdx := StartIdx(start);
    var endIdx := EndIdx(numHits, start, size);
    if numHits == 0 then NoResults
    else if endIdx < startIdx then
      StartOutOfRange("Query \"start\" value (" + IntToString(start)
        + ") exceeds the number of total results (" + IntToString(numHits) + ")")
    else
      CurrentPageAsWrittenOffByOne(start, size);
      Showing(startIdx, endIdx, numHits, size, CurrentPageAsWritten(start, size))
  }

  /** With results, the warning shows exactly when `start` is at or past
      the total or the page size is below 1. */
  lemma OutOfRangeIff(numHits: int, start: int, size: int)
    requires numHits != 0
    ensures Header(numHits, start, size).StartOutOfRange? <==> start >= numHits || size <= 0
  {
    EndIdxIsMin(numHits, start, size);
  }

  /** On the normal branch the page size is at least 1, the range lies within
      the results and spans at most one page; from a non-negative `start` it
      spans a full page or runs to the last result. */
  lemma ShowingBounds(numHits: int, start: int, size: int)
    requires Header(numHits, start, size).Showing?
    ensures var h := Header(numHits, start, size);
      && size >= 1
      && h.startIdx == start + 1
      && h.startIdx <= h.endIdx <= numHits
      && h.endIdx - h.startIdx + 1 == Paginator.Min(size, numHits - start)
  {
    EndIdxIsMin(numHits, start, size);
  }

  /** Euclidean division is determined by quotient and remainder. */
  lemma DivUnique(a: int, b: int, q: int, r: int)
    requires b > 0 && 0 <= r < b && a == q * b + r
    ensures a / b == q
  {
    var q2, r2 := a / b, a % b;
    assert a == q2 * b + r2;
    assert (q2 - q) * b == r - r2;
    ZeroMultiple(q2 - q, b);
  }

  /** The only multiple of `b` strictly between `-b` and `b` is zero. */
  lemma ZeroMultiple(k: int, b: int)
    requires b > 0 && -b < k * b < b
    ensures k == 0
  {
    if k >= 1 {
      MulLess(0, k - 1, b);
    } else if k <= -1 {
      assert k * b == (k + 1) * b - b;
    }
  }

  lemma MulLess(x: int, y: int, b: int)
    requires b > 0 && x < y
    ensures x * b < y * b
  {
    assert y * b - x * b == (y - x) * b;
  }

  /** For a `start` within the results, the current page is a real page,
      and it is the page containing `start`. */
  lemma CurrentPageInRange(numHits: int, start: int, size: int)
    requires size >= 1 && 0 <= start < numHits
    ensures 1 <= CurrentPage(start, size) <= Paginator.CeilDiv(numHits, size)
    ensures Paginator.PageToStart(size, CurrentPage(start, size)) <= start
      < Paginator.PageToStart(size, CurrentPage(start, size) + 1)
  {
    var q := start / size;
    var p := q + 1;
    var m := Paginator.CeilDiv(numHits, size);
    assert start == q * size + start % size;
    assert size * (p - 1) == q * size;
    assert size * p == q * size + size;
    if q < 0 {
      MulLess(q, 0, size);
    }
  }

  /** A page button's offset brings the header back to that page: the
      header and the paginator agree. */
  lemma CurrentPageOfPageStart(size: int, page: int)
    requires size >= 1
    ensures CurrentPage(Paginator.PageToStart(size, page), size) == page
  {
    DivUnique(size * (page - 1), size, page - 1, 0);
  }

  /** The template's formula exceeds the current page exactly when `start`
      is the last offset of a page, which for a page size of 1 is every
      offset. */
  lemma CurrentPageAsWrittenOffByOne(start: int, size: int)
    requires size >= 1
    ensures CurrentPageAsWritten(start, size)
      == CurrentPage(start, size) + (if start % size == size - 1 then 1 else 0)
  {
    var q, r := start / size, start % size;
    assert start == q * size + r;
    if r == size - 1 {
      assert start + 1 == (q + 1) * size + 0;
      DivUnique(start + 1, size, q + 1, 0);
    } else {
      DivUnique(start + 1, size, q, r + 1);
    }
  }

  /** Five results, one per page: on the first page the template marks page
      2 as current, and on the last it marks page 6 of 5, so "next" stays
      enabled there. */
  lemma CurrentPageAsWrittenExample()
    ensures CurrentPageAsWritten(0, 1) == 2 && CurrentPage(0, 1) == 1
    ensures CurrentPageAsWritten(4, 1) == 6 && Paginator.CeilDiv(5, 1) == 5
  {
  }

  /** When the results fill their last page, the template's page for the
      last result is one past the last page. */
  lemma CurrentPageAsWrittenPastEnd(numHits: int, size: int)
    requires size >= 1 && numHits % size == 0
    ensures CurrentPageAsWritten(numHits - 1, size) == Paginator.CeilDiv(numHits, size) + 1
  {
    var k := numHits / size;
    assert numHits == k * size;
    DivUnique(numHits, size, k, 0);
    DivUnique(-numHits, size, -k, 0);
  }

  /** The paginator's attributes are written as decimal text and parsed
      back: it receives the total, the page size and the template's current
      page, which on the last result of a full last page is one past the
      last page. */
  lemma PaginatorAttributes(numHits: int, start: int, size: int)
    requires Header(numHits, start, size).Showing?
    ensures var h := Header(numHits, start, size);
      && ParseInt(IntToString(h.numHits)) == Int(numHits)
      && ParseInt(IntToString(h.size)) == Int(size)
      && ParseInt(IntToString(h.currentPage)) == Int(CurrentPageAsWritten(start, size))
      && (start == numHits - 1 && numHits % size == 0 ==>
            ParseInt(IntToString(h.currentPage)) == Int(Paginator.CeilDiv(numHits, size) + 1))
  {
    var h := Header(numHits, start, size);
    assert h.numHits == numHits && h.size == size && size >= 1;
    var page := CurrentPageAsWritten(start, size);
    assert h.currentPage == page;
    ParseIntOfIntToString(numHits);
    ParseIntOfIntToString(size);
    ParseIntOfIntToString(page);
    if start == numHits - 1 && numHits % size == 0 {
      CurrentPageAsWrittenPastEnd(numHits, size);
    }
  }
}
