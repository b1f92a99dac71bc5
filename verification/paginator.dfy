/** The paginator component (`_search_app/src/components/Paginator.js`):
    the row of buttons shown for a result set, given the total, the page size
    and the current page. */
module Paginator {
  /** What a button says: previous, next, or a page number. */
  datatype Label = Prev | Next | PageNumber(page: int)

  /** A paginator child: a button carrying the `start` offset it navigates
      to, whether it is disabled, and whether it marks the current page; or
      an ellipsis. */
  datatype Control =
    | Button(kind: Label, start: int, disabled: bool, isCurrent: bool)
    | Ellipsis

  /** The most page buttons shown on each side of the current page. */
  const MaxReachablePages := 2

  /** `Math.ceil(a / b)` for a positive divisor. */
  function CeilDiv(a: int, b: int): (r: int)
    requires b > 0
    ensures (r - 1) * b < a <= r * b
  {
    -((-a) / b)
  }

  /** `pageToStart`: the offset of a page's first result. */
  function PageToStart(pageSize: int, page: int): int {
    pageSize * (page - 1)
  }

  /** The consecutive pages `lo`, ..., `hi` (none when `lo > hi`). */
  function PageRange(lo: int, hi: int): (r: seq<int>)
    ensures |r| == if lo <= hi then hi - lo + 1 else 0
    ensures forall i :: 0 <= i < |r| ==> r[i] == lo + i
    decreases hi - lo
  {
    if lo > hi then [] else [lo] + PageRange(lo + 1, hi)
  }

  /** The button of one page number. */
  function PageButton(pageSize: int, currentPage: int, page: int): Control {
    Button(PageNumber(page), PageToStart(pageSize, page), page == currentPage, page == currentPage)
  }

  /** The buttons of consecutive pages. */
  function PageButtons(pageSize: int, currentPage: int, pages: seq<int>): (r: seq<Control>)
    ensures |r| == |pages|
    ensures forall i :: 0 <= i < |pages| ==> r[i] == PageButton(pageSize, currentPage, pages[i])
  {
    seq(|pages|, i requires 0 <= i < |pages| => PageButton(pageSize, currentPage, pages[i]))
  }

  function Max(a: int, b: int): int { if a >= b then a else b }
  function Min(a: int, b: int): int { if a <= b then a else b }

  /** The pages around the current one that get a button: those within two
      of it and between 1 and the last page. */
  function Window(currentPage: int, maxPage: int): seq<int> {
    PageRange(Max(1, currentPage - MaxReachablePages), Min(maxPage, currentPage + MaxReachablePages))
  }

  /** The paginator's children, left to right: prev; page 1 and an ellipsis
      when the current page is beyond 3; the window; an ellipsis and the last
      page when it lies more than two pages ahead; next. */
  function Controls(numTotal: int, pageSize: int, currentPage: int): seq<Control>
    requires pageSize >= 1
  {
    var maxPage := CeilDiv(numTotal, pageSize);
    var showFirst := currentPage > MaxReachablePages + 1;
    var showLast := maxPage - currentPage > MaxReachablePages;
    [Button(Prev, PageToStart(pageSize, currentPage - 1), currentPage == 1, false)]
    + FirstButtons(pageSize, showFirst)
    + PageButtons(pageSize, currentPage, Window(currentPage, maxPage))
    + LastButtons(pageSize, maxPage, showLast)
    + [Button(Next, PageToStart(pageSize, currentPage + 1), currentPage == maxPage, false)]
  }

  /** Page 1's button and an ellipsis, when shown. */
  function FirstButtons(pageSize: int, show: bool): seq<Control> {
    if show then [Button(PageNumber(1), PageToStart(pageSize, 1), false, false), Ellipsis] else []
  }

  /** An ellipsis and the last page's button, when shown. */
  function LastButtons(pageSize: int, maxPage: int, show: bool): seq<Control> {
    if show then [Ellipsis, Button(PageNumber(maxPage), PageToStart(pageSize, maxPage), false, false)] else []
  }

  lemma PageRangeSnoc(lo: int, hi: int)
    requires lo <= hi + 1
    ensures PageRange(lo, hi + 1) == PageRange(lo, hi) + [hi + 1]
  {
  }

  lemma PageButtonsSnoc(pageSize: int, currentPage: int, pages: seq<int>, page: int)
    ensures PageButtons(pageSize, currentPage, pages + [page])
      == PageButtons(pageSize, currentPage, pages) + [PageButton(pageSize, currentPage, page)]
  {
  }

  /** The loop over `pageDelta` from -2 to 2 with its four guards. The
      guards on page 1 and the last page never drop a page of the window:
      when those pages have their own buttons they lie outside it. */
  method AdjacentButtons(pageSize: int, currentPage: int, maxPage: int) returns (bs: seq<Control>)
    ensures bs == PageButtons(pageSize, currentPage, Window(currentPage, maxPage))
  {
    var showFirst := currentPage > MaxReachablePages + 1;
    var showLast := maxPage - currentPage > MaxReachablePages;
    var lo := Max(1, currentPage - MaxReachablePages);
    bs := [];
    var pages: seq<int> := [];
    var pageDelta := -MaxReachablePages;
    while pageDelta <= MaxReachablePages
      invariant -MaxReachablePages <= pageDelta <= MaxReachablePages + 1
      invariant pages == PageRange(lo, Min(maxPage, currentPage + pageDelta - 1))
      invariant bs == PageButtons(pageSize, currentPage, pages)
    {
      var page := currentPage + pageDelta;
      if page > 0 && (page != 1 || !showFirst) && (page != maxPage || !showLast) && page <= maxPage {
        PageRangeSnoc(lo, page - 1);
        PageButtonsSnoc(pageSize, currentPage, pages, page);
        bs := bs + [PageButton(pageSize, currentPage, page)];
        pages := pages + [page];
      }
      pageDelta := pageDelta + 1;
    }
  }

  /** `connectedCallback`, building the children one by one. */
  method BuildControls(numTotal: int, pageSize: int, currentPage: int) returns (cs: seq<Control>)
    requires pageSize >= 1
    ensures cs == Controls(numTotal, pageSize, currentPage)
  {
    var maxPage := CeilDiv(numTotal, pageSize);
    var showFirst := currentPage > MaxReachablePages + 1;
    var showLast := maxPage - currentPage > MaxReachablePages;
    cs := [Button(Prev, PageToStart(pageSize, currentPage - 1), currentPage == 1, false)];
    if showFirst {
      cs := cs + [Button(PageNumber(1), PageToStart(pageSize, 1), false, false), Ellipsis];
    }
    assert cs == [cs[0]] + FirstButtons(pageSize, showFirst);
    var adjacent := AdjacentButtons(pageSize, currentPage, maxPage);
    cs := cs + adjacent;
    if showLast {
      cs := cs + [Ellipsis, Button(PageNumber(maxPage), PageToStart(pageSize, maxPage), false, false)];
    }
    cs := cs + [Button(Next, PageToStart(pageSize, currentPage + 1), currentPage == maxPage, false)];
  }

  /** The page numbers on the buttons, left to right. */
  function PageNumbers(cs: seq<Control>): seq<int> {
    if |cs| == 0 then []
    else (if cs[0].Button? && cs[0].kind.PageNumber? then [cs[0].kind.page] else []) + PageNumbers(cs[1..])
  }

  lemma {:induction false} PageNumbersAppend(a: seq<Control>, b: seq<Control>)
    ensures PageNumbers(a + b) == PageNumbers(a) + PageNumbers(b)
  {
    if |a| == 0 {
      assert a + b == b;
    } else {
      assert (a + b)[1..] == a[1..] + b;
      PageNumbersAppend(a[1..], b);
    }
  }

  lemma {:induction false} PageNumbersOfButtons(pageSize: int, currentPage: int, pages: seq<int>)
    ensures PageNumbers(PageButtons(pageSize, currentPage, pages)) == pages
  {
    if |pages| > 0 {
      var bs := PageButtons(pageSize, currentPage, pages);
      assert bs[1..] == PageButtons(pageSize, currentPage, pages[1..]);
      PageNumbersOfButtons(pageSize, currentPage, pages[1..]);
    }
  }

  lemma PageNumbersFirst(pageSize: int, show: bool)
    ensures PageNumbers(FirstButtons(pageSize, show)) == if show then [1] else []
  {
    if show {
      var first := FirstButtons(pageSize, show);
      assert first[1..] == [Ellipsis];
      assert PageNumbers([Ellipsis]) == [];
    }
  }

  lemma PageNumbersLast(pageSize: int, maxPage: int, show: bool)
    ensures PageNumbers(LastButtons(pageSize, maxPage, show)) == if show then [maxPage] else []
  {
    if show {
      var last := LastButtons(pageSize, maxPage, show);
      assert last[1..] == [last[1]];
      assert PageNumbers([last[1]]) == [maxPage] + PageNumbers([]);
    }
  }

  /** The page numbers shown: page 1 when the first-page button is shown,
      the window, and the last page when the last-page button is shown. */
  lemma ControlsPageNumbers(numTotal: int, pageSize: int, currentPage: int)
    requires pageSize >= 1
    ensures var maxPage := CeilDiv(numTotal, pageSize);
      PageNumbers(Controls(numTotal, pageSize, currentPage))
        == (if currentPage > MaxReachablePages + 1 then [1] else [])
           + Window(currentPage, maxPage)
           + (if maxPage - currentPage > MaxReachablePages then [maxPage] else [])
  {
    var maxPage := CeilDiv(numTotal, pageSize);
    var showFirst := currentPage > MaxReachablePages + 1;
    var showLast := maxPage - currentPage > MaxReachablePages;
    var prev := [Button(Prev, PageToStart(pageSize, currentPage - 1), currentPage == 1, false)];
    var first := FirstButtons(pageSize, showFirst);
    var window := PageButtons(pageSize, currentPage, Window(currentPage, maxPage));
    var last := LastButtons(pageSize, maxPage, showLast);
    var next := [Button(Next, PageToStart(pageSize, currentPage + 1), currentPage == maxPage, false)];
    assert Controls(numTotal, pageSize, currentPage) == prev + first + window + last + next;
    PageNumbersOfFive(prev, first, window, last, next);
    PageNumbersOfButtons(pageSize, currentPage, Window(currentPage, maxPage));
    PageNumbersFirst(pageSize, showFirst);
    PageNumbersLast(pageSize, maxPage, showLast);
  }

  lemma PageNumbersOfFive(prev: seq<Control>, first: seq<Control>, window: seq<Control>,
                          last: seq<Control>, next: seq<Control>)
    requires |prev| == 1 && prev[0].Button? && prev[0].kind.Prev?
    requires |next| == 1 && next[0].Button? && next[0].kind.Next?
    ensures PageNumbers(prev + first + window + last + next)
      == PageNumbers(first) + PageNumbers(window) + PageNumbers(last)
  {
    var p1 := prev + first;
    var p2 := p1 + window;
    var p3 := p2 + last;
    PageNumbersNotPage(prev);
    PageNumbersNotPage(next);
    PageNumbersAppend(prev, first);
    assert PageNumbers(p1) == PageNumbers(first);
    PageNumbersAppend(p1, window);
    assert PageNumbers(p2) == PageNumbers(first) + PageNumbers(window);
    PageNumbersAppend(p2, last);
    assert PageNumbers(p3) == PageNumbers(first) + PageNumbers(window) + PageNumbers(last);
    PageNumbersAppend(p3, next);
  }

  lemma PageNumbersNotPage(cs: seq<Control>)
    requires |cs| == 1 && !(cs[0].Button? && cs[0].kind.PageNumber?)
    ensures PageNumbers(cs) == []
  {
    assert cs[1..] == [];
  }

  /** Strictly increasing page numbers. */
  predicate Increasing(s: seq<int>) {
    forall i, j :: 0 <= i < j < |s| ==> s[i] < s[j]
  }

  /** Two increasing lists joined where the first ends below the second's start. */
  lemma IncreasingAppend(a: seq<int>, b: seq<int>)
    requires Increasing(a) && Increasing(b)
    requires |a| > 0 && |b| > 0 ==> a[|a| - 1] < b[0]
    ensures Increasing(a + b)
  {
    forall i, j | 0 <= i < j < |a + b|
      ensures (a + b)[i] < (a + b)[j]
    {
      if i < |a| <= j {
        assert a[i] <= a[|a| - 1];
        assert b[0] <= b[j - |a|];
      }
    }
  }

  /** The pages shown: page 1 when the current page is beyond 3, the window,
      and the last page when it lies more than two pages ahead. */
  function ShownPages(currentPage: int, maxPage: int): seq<int> {
    (if currentPage > MaxReachablePages + 1 then [1] else [])
    + Window(currentPage, maxPage)
    + (if maxPage - currentPage > MaxReachablePages then [maxPage] else [])
  }

  /** The window is increasing and lies between its bounds. */
  lemma WindowBounds(currentPage: int, maxPage: int)
    ensures var w := Window(currentPage, maxPage);
      && Increasing(w)
      && (|w| > 0 ==> w[0] == Max(1, currentPage - MaxReachablePages)
                      && w[|w| - 1] == Min(maxPage, currentPage + MaxReachablePages))
      && forall i :: 0 <= i < |w| ==> 1 <= w[i] <= maxPage
  {
  }

  lemma ShownPagesIncreasingOnly(currentPage: int, maxPage: int)
    ensures Increasing(ShownPages(currentPage, maxPage))
  {
    var f: seq<int> := if currentPage > MaxReachablePages + 1 then [1] else [];
    var w := Window(currentPage, maxPage);
    var l: seq<int> := if maxPage - currentPage > MaxReachablePages then [maxPage] else [];
    WindowBounds(currentPage, maxPage);
    IncreasingAppend(f, w);
    var fw := f + w;
    if |w| > 0 {
      assert fw[|fw| - 1] == w[|w| - 1];
    }
    IncreasingAppend(fw, l);
  }

  lemma ShownPagesRange(currentPage: int, maxPage: int)
    requires 1 <= currentPage <= maxPage
    ensures var ps := ShownPages(currentPage, maxPage);
      currentPage in ps && forall i :: 0 <= i < |ps| ==> 1 <= ps[i] <= maxPage
  {
    var f: seq<int> := if currentPage > MaxReachablePages + 1 then [1] else [];
    var w := Window(currentPage, maxPage);
    var l: seq<int> := if maxPage - currentPage > MaxReachablePages then [maxPage] else [];
    WindowBounds(currentPage, maxPage);
    assert w[currentPage - Max(1, currentPage - MaxReachablePages)] == currentPage;
    var ps := f + w + l;
    forall i | 0 <= i < |ps|
      ensures 1 <= ps[i] <= maxPage
    {
      if |f| <= i < |f| + |w| {
        assert ps[i] == w[i - |f|];
      }
    }
  }

  /** Page 1, the window and the last page, each when shown, are increasing
      and, for a current page between 1 and the last, real pages that
      include the current one. */
  lemma ShownPagesIncreasing(currentPage: int, maxPage: int)
    ensures var ps := ShownPages(currentPage, maxPage);
      && Increasing(ps)
      && (1 <= currentPage <= maxPage ==>
            currentPage in ps && forall i :: 0 <= i < |ps| ==> 1 <= ps[i] <= maxPage)
  {
    ShownPagesIncreasingOnly(currentPage, maxPage);
    if 1 <= currentPage <= maxPage {
      ShownPagesRange(currentPage, maxPage);
    }
  }

  /** The page numbers are strictly increasing, so no page appears twice;
      with the current page between 1 and the last page, all of them are
      real pages and the current page is among them. */
  lemma ControlsPagesIncreasing(numTotal: int, pageSize: int, currentPage: int)
    requires pageSize >= 1
    ensures var ps := PageNumbers(Controls(numTotal, pageSize, currentPage));
      && (forall i, j :: 0 <= i < j < |ps| ==> ps[i] < ps[j])
      && (1 <= currentPage <= CeilDiv(numTotal, pageSize) ==>
            currentPage in ps && forall i :: 0 <= i < |ps| ==> 1 <= ps[i] <= CeilDiv(numTotal, pageSize))
  {
    ControlsPageNumbers(numTotal, pageSize, currentPage);
    ShownPagesIncreasing(currentPage, CeilDiv(numTotal, pageSize));
  }

  /** Every page button navigates to the first result of its page; prev and
      next navigate one page back and forward; only the current page's
      button is marked current, and it is disabled. */
  lemma ControlsButtons(numTotal: int, pageSize: int, currentPage: int)
    requires pageSize >= 1
    ensures var cs := Controls(numTotal, pageSize, currentPage);
      && cs[0] == Button(Prev, PageToStart(pageSize, currentPage - 1), currentPage == 1, false)
      && cs[|cs| - 1] == Button(Next, PageToStart(pageSize, currentPage + 1),
                                currentPage == CeilDiv(numTotal, pageSize), false)
      && forall i :: 0 <= i < |cs| && cs[i].Button? && cs[i].kind.PageNumber? ==>
           && cs[i].start == PageToStart(pageSize, cs[i].kind.page)
           && (cs[i].isCurrent <==> cs[i].kind.page == currentPage)
           && (cs[i].isCurrent ==> cs[i].disabled)
  {
  }

  /** Page 1 gets its own button, followed by an ellipsis, when the current
      page is beyond 3; the last page gets its own button, preceded by an
      ellipsis, when it lies more than two pages ahead; and an ellipsis
      appears only in those cases. */
  lemma ControlsEnds(numTotal: int, pageSize: int, currentPage: int)
    requires pageSize >= 1
    ensures var cs := Controls(numTotal, pageSize, currentPage);
      var maxPage := CeilDiv(numTotal, pageSize);
      && (currentPage > 3 ==> cs[1] == Button(PageNumber(1), 0, false, false) && cs[2] == Ellipsis)
      && (maxPage - currentPage > 2 ==>
            cs[|cs| - 3] == Ellipsis
            && cs[|cs| - 2] == Button(PageNumber(maxPage), PageToStart(pageSize, maxPage), false, false))
      && (Ellipsis in cs <==> currentPage > 3 || maxPage - currentPage > 2)
  {
    var cs := Controls(numTotal, pageSize, currentPage);
    var maxPage := CeilDiv(numTotal, pageSize);
    var window := PageButtons(pageSize, currentPage, Window(currentPage, maxPage));
    assert Ellipsis !in window;
  }

  /** 1000 hits, 10 per page, on page 50: prev, 1, ..., 48 to 52, ..., 100, next. */
  /** The pages shown on page 50 of 100. */
  lemma ShownPagesExample()
    ensures ShownPages(50, 100) == [1, 48, 49, 50, 51, 52, 100]
  {
    assert PageRange(53, 52) == [];
    assert PageRange(52, 52) == [52];
    assert PageRange(51, 52) == [51, 52];
    assert PageRange(50, 52) == [50, 51, 52];
    assert PageRange(49, 52) == [49, 50, 51, 52];
    assert Window(50, 100) == PageRange(48, 52) == [48, 49, 50, 51, 52];
  }

  lemma ControlsExample()
    ensures PageNumbers(Controls(1000, 10, 50)) == [1, 48, 49, 50, 51, 52, 100]
  {
    ControlsPageNumbers(1000, 10, 50);
    assert CeilDiv(1000, 10) == 100;
    ShownPagesExample();
  }
}
