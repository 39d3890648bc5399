/** The page bar of src/components/ui/Pagination.tsx: which page numbers
    it shows, where its links point, and when it is drawn at all; plus the
    `?page=` parameter the blog index reads back (src/app/blog/page.tsx). */
module Pagination {
  import opened Wrappers
  import opened Text
  import opened BlogTypes

  /** An entry of `getPageNumbers`: a page number or the `'...'` marker. */
  datatype PageItem = Num(n: int) | Ellipsis

  const MaxVisiblePages: int := 5

  /** The pages `lo` to `hi`, both included. */
  function Range(lo: int, hi: int): (r: seq<PageItem>)
    ensures |r| == if lo <= hi then hi - lo + 1 else 0
    ensures forall i :: 0 <= i < |r| ==> r[i] == Num(lo + i)
    decreases hi - lo
  {
    if lo > hi then [] else [Num(lo)] + Range(lo + 1, hi)
  }

  /** The entries `getPageNumbers` produces for `currentPage` out of
      `totalPages`: all pages when there are at most five; otherwise the
      first and last page and a window of three or four around the
      current one, with `'...'` in each gap. */
  function PageWindow(c: int, t: int): (w: seq<PageItem>)
    ensures |w| <= 7
    ensures t >= 1 ==> w != [] && w[0] == Num(1) && w[|w| - 1] == Num(t)
  {
    if t <= MaxVisiblePages then Range(1, t)
    else if c <= 3 then Range(1, 4) + [Ellipsis, Num(t)]
    else if c >= t - 2 then [Num(1), Ellipsis] + Range(t - 3, t)
    else [Num(1), Ellipsis] + Range(c - 1, c + 1) + [Ellipsis, Num(t)]
  }

  /** `pages.push(i)` for `i` from `lo` to `hi`. */
  method PushRange(pages: seq<PageItem>, lo: int, hi: int) returns (pages': seq<PageItem>)
    ensures pages' == pages + Range(lo, hi)
  {
    pages' := pages;
    var i := lo;
    while i <= hi
      invariant lo <= i <= hi + 1 || (i == lo && lo > hi)
      invariant pages' == pages + Range(lo, i - 1)
      decreases hi - i
    {
      pages' := pages' + [Num(i)];
      RangeSnoc(lo, i);
      i := i + 1;
    }
  }

  lemma RangeSnoc(lo: int, hi: int)
    requires lo <= hi
    ensures Range(lo, hi) == Range(lo, hi - 1) + [Num(hi)]
  {
    assert forall i :: 0 <= i < |Range(lo, hi)| ==> Range(lo, hi)[i] == (Range(lo, hi - 1) + [Num(hi)])[i];
  }

  /** `getPageNumbers`. */
  method GetPageNumbers(currentPage: int, totalPages: int) returns (pages: seq<PageItem>)
    ensures pages == PageWindow(currentPage, totalPages)
  {
    pages := [];
    if totalPages <= MaxVisiblePages {
      pages := PushRange(pages, 1, totalPages);
    } else {
      if currentPage <= 3 {
        pages := PushRange(pages, 1, 4);
        pages := pages + [Ellipsis];
        pages := pages + [Num(totalPages)];
      } else if currentPage >= totalPages - 2 {
        pages := pages + [Num(1)];
        pages := pages + [Ellipsis];
        pages := PushRange(pages, totalPages - 3, totalPages);
      } else {
        pages := pages + [Num(1)];
        pages := pages + [Ellipsis];
        pages := PushRange(pages, currentPage - 1, currentPage + 1);
        pages := pages + [Ellipsis];
        pages := pages + [Num(totalPages)];
      }
    }
  }

  // ----- what the window shows ----------------------------------------------

  /** Page numbers strictly increase from left to right. */
  predicate Increasing(w: seq<PageItem>) {
    forall i, j :: 0 <= i < j < |w| && w[i].Num? && w[j].Num? ==> w[i].n < w[j].n
  }

  /** Every number shown is a page that exists. */
  predicate WithinPages(w: seq<PageItem>, t: int) {
    forall i :: 0 <= i < |w| && w[i].Num? ==> 1 <= w[i].n <= t
  }

  /** Two numbers side by side are consecutive pages, and a `'...'` stands
      between two numbers and hides at least one page. */
  predicate GapsAreMarked(w: seq<PageItem>) {
    (forall i :: 0 <= i < |w| - 1 && w[i].Num? && w[i + 1].Num? ==> w[i + 1].n == w[i].n + 1)
    && (forall i :: 0 <= i < |w| && w[i].Ellipsis? ==>
          0 < i < |w| - 1 && w[i - 1].Num? && w[i + 1].Num? && w[i - 1].n + 1 < w[i + 1].n)
  }

  /** With at most five pages the bar lists each page once, in order. */
  lemma SmallWindowListsAllPages(c: int, t: int)
    requires t <= MaxVisiblePages
    ensures var w := PageWindow(c, t);
      |w| == (if t > 0 then t else 0) && forall i :: 0 <= i < |w| ==> w[i] == Num(i + 1)
  {
  }

  /** With more than five pages the bar has six or seven entries, starts
      at page 1 and ends at the last page. */
  lemma {:induction false} LargeWindowShape(c: int, t: int)
    requires t > MaxVisiblePages
    ensures var w := PageWindow(c, t);
      (|w| == 6 || |w| == 7) && w[0] == Num(1) && w[|w| - 1] == Num(t)
  {
    var w := PageWindow(c, t);
    if c <= 3 {
      assert w == [Num(1), Num(2), Num(3), Num(4), Ellipsis, Num(t)];
    } else if c >= t - 2 {
      assert w == [Num(1), Ellipsis, Num(t - 3), Num(t - 2), Num(t - 1), Num(t)];
    } else {
      assert w == [Num(1), Ellipsis, Num(c - 1), Num(c), Num(c + 1), Ellipsis, Num(t)];
    }
  }

  /** Numbers in increasing order, all of them pages, every gap marked. */
  predicate WellFormedWindow(w: seq<PageItem>, t: int) {
    Increasing(w) && WithinPages(w, t) && GapsAreMarked(w)
  }

  lemma RangeIsWellFormed(lo: int, hi: int, t: int)
    requires 1 <= lo && hi <= t
    ensures WellFormedWindow(Range(lo, hi), t)
  {
  }

  lemma HeadWindowIsWellFormed(t: int)
    requires t > MaxVisiblePages
    ensures WellFormedWindow([Num(1), Num(2), Num(3), Num(4), Ellipsis, Num(t)], t)
  {
  }

  lemma TailWindowIsWellFormed(t: int)
    requires t > MaxVisiblePages
    ensures WellFormedWindow([Num(1), Ellipsis, Num(t - 3), Num(t - 2), Num(t - 1), Num(t)], t)
  {
  }

  lemma MiddleWindowIsWellFormed(c: int, t: int)
    requires 3 < c < t - 2
    ensures WellFormedWindow([Num(1), Ellipsis, Num(c - 1), Num(c), Num(c + 1), Ellipsis, Num(t)], t)
  {
  }

  /** The bar shows real pages in increasing order, and marks every gap. */
  lemma WindowIsOrderedAndMarked(c: int, t: int)
    ensures WellFormedWindow(PageWindow(c, t), t)
  {
    var w := PageWindow(c, t);
    if t <= MaxVisiblePages {
      RangeIsWellFormed(1, t, t);
    } else if c <= 3 {
      assert w == [Num(1), Num(2), Num(3), Num(4), Ellipsis, Num(t)];
      HeadWindowIsWellFormed(t);
    } else if c >= t - 2 {
      assert w == [Num(1), Ellipsis, Num(t - 3), Num(t - 2), Num(t - 1), Num(t)];
      TailWindowIsWellFormed(t);
    } else {
      assert w == [Num(1), Ellipsis, Num(c - 1), Num(c), Num(c + 1), Ellipsis, Num(t)];
      MiddleWindowIsWellFormed(c, t);
    }
  }

  /** Any existing current page is shown. */
  lemma {:induction false} WindowShowsCurrentPage(c: int, t: int)
    requires 1 <= c <= t
    ensures Num(c) in PageWindow(c, t)
  {
    var w := PageWindow(c, t);
    if t <= MaxVisiblePages {
      assert w[c - 1] == Num(c);
    } else if c <= 3 {
      assert w == [Num(1), Num(2), Num(3), Num(4), Ellipsis, Num(t)];
    } else if c >= t - 2 {
      assert w == [Num(1), Ellipsis, Num(t - 3), Num(t - 2), Num(t - 1), Num(t)];
    } else {
      assert w == [Num(1), Ellipsis, Num(c - 1), Num(c), Num(c + 1), Ellipsis, Num(t)];
    }
  }

  // ----- links ----------------------------------------------------------------

  /** `${basePath}${page > 1 ? `?page=${page}` : ''}`: page 1 is the bare
      path. */
  function PageHref(basePath: string, page: int): (href: string)
    ensures |basePath| <= |href| && href[..|basePath|] == basePath
    ensures PageParam(basePath, href) == if page > 1 then Some(IntToDecimal(page)) else None
  {
    ParamOfLink(basePath, IntToDecimal(page));
    if page > 1 then basePath + "?page=" + IntToDecimal(page) else basePath
  }

  /** The "previous" link: `currentPage > 2 ? `?page=${currentPage - 1}` : ''`. */
  function PrevHref(basePath: string, currentPage: int): (href: string)
    ensures |basePath| <= |href| && href[..|basePath|] == basePath
    ensures PageParam(basePath, href) == if currentPage > 2 then Some(IntToDecimal(currentPage - 1)) else None
  {
    ParamOfLink(basePath, IntToDecimal(currentPage - 1));
    if currentPage > 2 then basePath + "?page=" + IntToDecimal(currentPage - 1) else basePath
  }

  /** The "next" link: always `?page=${currentPage + 1}`. */
  function NextHref(basePath: string, currentPage: int): (href: string)
    ensures |basePath| <= |href| && href[..|basePath|] == basePath
    ensures PageParam(basePath, href) == Some(IntToDecimal(currentPage + 1))
  {
    basePath + "?page=" + IntToDecimal(currentPage + 1)
  }

  /** The "previous" link is the number link of the page before. */
  lemma PrevLinksToPageBefore(basePath: string, c: int)
    ensures PrevHref(basePath, c) == PageHref(basePath, c - 1)
  {
  }

  /** The "next" link is the number link of the page after exactly when
      the current page is at least 1; from page 0 or below it spells out a
      `?page=` that the number links never use. */
  lemma NextLinksToPageAfter(basePath: string, c: int)
    ensures NextHref(basePath, c) == PageHref(basePath, c + 1) <==> c >= 1
  {
    if c < 1 {
      assert |NextHref(basePath, c)| > |PageHref(basePath, c + 1)|;
    }
  }

  /** The `?page=` parameter a link carries, as the router hands it to the
      page: absent for the bare path. */
  function PageParam(basePath: string, href: string): (param: Option<string>)
    ensures param.Some? <==> |basePath + "?page="| <= |href| && href[..|basePath + "?page="|] == basePath + "?page="
    ensures param.Some? ==> basePath + "?page=" + param.value == href
  {
    var prefix := basePath + "?page=";
    if |prefix| <= |href| && href[..|prefix|] == prefix then Some(href[|prefix|..]) else None
  }

  /** A link with a `?page=` carries exactly what follows it; the bare path
      carries none. */
  lemma ParamOfLink(basePath: string, value: string)
    ensures PageParam(basePath, basePath + "?page=" + value) == Some(value)
    ensures PageParam(basePath, basePath) == None
  {
    var prefix := basePath + "?page=";
    assert (prefix + value)[..|prefix|] == prefix;
    assert basePath + "?page=" + value == prefix + value;
  }

  /** `Number(searchParams.page) || 1`: the number the parameter spells,
      and page 1 when it is absent, not a number, or zero. */
  function RequestedPage(param: Option<string>): (page: int)
    ensures page != 0
    ensures param.None? ==> page == 1
    ensures param.Some? && ParseInt(param.value).Some? && ParseInt(param.value).value != 0 ==>
      page == ParseInt(param.value).value
  {
    match param
    case None => 1
    case Some(s) =>
      match ParseInt(s)
      case None => 1
      case Some(n) => if n == 0 then 1 else n
  }

  /** A non-zero page number in the URL, negative ones included, is
      requested as it is. */
  lemma NonZeroPageParamPassesThrough(n: int)
    requires n != 0
    ensures RequestedPage(Some(IntToDecimal(n))) == n
  {
    IntToDecimalRoundTrip(n);
  }

  /** Following the link of page `p` requests page `p` (page 1 for the
      bare path). */
  lemma {:induction false} PageLinkRoundTrip(basePath: string, p: int)
    requires p >= 1
    ensures RequestedPage(PageParam(basePath, PageHref(basePath, p))) == p
  {
    var prefix := basePath + "?page=";
    if p > 1 {
      var href := PageHref(basePath, p);
      assert href == prefix + IntToDecimal(p);
      assert href[..|prefix|] == prefix && href[|prefix|..] == IntToDecimal(p);
      IntToDecimalRoundTrip(p);
    } else {
      assert |PageHref(basePath, p)| < |prefix|;
    }
  }

  /** The "next" link of page `c` (for `c >= 1`) requests page `c + 1`,
      and the "previous" link of page `c >= 2` requests page `c - 1`. */
  lemma NeighbourLinksRoundTrip(basePath: string, c: int)
    ensures c >= 1 ==> RequestedPage(PageParam(basePath, NextHref(basePath, c))) == c + 1
    ensures c >= 2 ==> RequestedPage(PageParam(basePath, PrevHref(basePath, c))) == c - 1
  {
    if c >= 1 {
      NextLinksToPageAfter(basePath, c);
      PageLinkRoundTrip(basePath, c + 1);
    }
    if c >= 2 {
      PageLinkRoundTrip(basePath, c - 1);
    }
  }

  // ----- the rendered bar -------------------------------------------------------

  /** One entry of the bar as drawn: a number link, highlighted when it is
      the current page, or a `...` span. */
  datatype PageEntry = PageLink(page: int, href: string, highlighted: bool) | Gap

  /** The bar: the "previous" and "next" buttons are links when enabled
      and disabled buttons (`None`) otherwise. */
  datatype Bar = Bar(prev: Option<string>, entries: seq<PageEntry>, next: Option<string>)

  function EntryOf(item: PageItem, basePath: string, currentPage: int): PageEntry {
    match item
    case Num(n) => PageLink(n, PageHref(basePath, n), n == currentPage)
    case Ellipsis => Gap
  }

  /** The `Pagination` component: nothing when there is at most one page
      (`return null`), otherwise the bar for the window of
      `getPageNumbers`. */
  function Render(info: PaginationInfo, basePath: string): (bar: Option<Bar>)
    ensures bar.None? <==> info.totalPages <= 1
    ensures bar.Some? ==>
      var w := PageWindow(info.currentPage, info.totalPages);
      (bar.value.prev.Some? <==> info.hasPrevPage)
      && (info.hasPrevPage ==> bar.value.prev == Some(PrevHref(basePath, info.currentPage)))
      && (bar.value.next.Some? <==> info.hasNextPage)
      && (info.hasNextPage ==> bar.value.next == Some(NextHref(basePath, info.currentPage)))
      && |bar.value.entries| == |w|
      && forall i :: 0 <= i < |w| ==>
        (w[i].Num? ==> bar.value.entries[i] == PageLink(w[i].n, PageHref(basePath, w[i].n), w[i].n == info.currentPage))
        && (w[i].Ellipsis? ==> bar.value.entries[i] == Gap)
  {
    if info.totalPages <= 1 then None
    else
      var w := PageWindow(info.currentPage, info.totalPages);
      Some(Bar(
        if info.hasPrevPage then Some(PrevHref(basePath, info.currentPage)) else None,
        seq(|w|, i requires 0 <= i < |w| => EntryOf(w[i], basePath, info.currentPage)),
        if info.hasNextPage then Some(NextHref(basePath, info.currentPage)) else None))
  }

  /** On an existing page the bar highlights exactly one entry, the
      current page's. */
  lemma {:induction false} ExactlyOneHighlighted(info: PaginationInfo, basePath: string)
    requires info.totalPages > 1 && 1 <= info.currentPage <= info.totalPages
    ensures var es := Render(info, basePath).value.entries;
      (exists i :: 0 <= i < |es| && es[i].PageLink? && es[i].highlighted && es[i].page == info.currentPage)
      && forall i, j ::
        0 <= i < |es| && 0 <= j < |es| && es[i].PageLink? && es[i].highlighted
        && es[j].PageLink? && es[j].highlighted
        ==> i == j
  {
    var c, t := info.currentPage, info.totalPages;
    var w := PageWindow(c, t);
    var es := Render(info, basePath).value.entries;
    WindowShowsCurrentPage(c, t);
    WindowIsOrderedAndMarked(c, t);
    var k :| 0 <= k < |w| && w[k] == Num(c);
    HighlightedEntry(info, basePath, k);
    forall i, j | 0 <= i < |es| && 0 <= j < |es| && es[i].PageLink? && es[i].highlighted
      && es[j].PageLink? && es[j].highlighted
      ensures i == j
    {
      HighlightedEntry(info, basePath, i);
      HighlightedEntry(info, basePath, j);
    }
  }

  /** Entry `i` of the bar is highlighted exactly when item `i` of the
      window is the current page. */
  lemma HighlightedEntry(info: PaginationInfo, basePath: string, i: nat)
    requires info.totalPages > 1
    requires i < |PageWindow(info.currentPage, info.totalPages)|
    ensures var es := Render(info, basePath).value.entries;
      i < |es|
      && (es[i].PageLink? && es[i].highlighted <==> PageWindow(info.currentPage, info.totalPages)[i] == Num(info.currentPage))
      && (es[i].PageLink? ==> es[i].page == PageWindow(info.currentPage, info.totalPages)[i].n)
  {
  }
}
