/**
 Windows onto a list: the pager's fixed pages and the virtual list's scrolled slice.
 */
module Windows {
  import opened Sequences

  // ----- pager --------------------------------------------------------------------------

  /** `Math.max(1, Math.ceil(Math.max(0, total) / pageSize))` */
  function PageCount(total: int, pageSize: int): (pages: int)
    requires pageSize >= 1
    ensures pages >= 1
    ensures total > 0 ==> (pages - 1) * pageSize < total <= pages * pageSize
    ensures total <= 0 ==> pages == 1
  {
    var t := Max(0, total);
    Max(1, (t + pageSize - 1) / pageSize)
  }

  /** The page actually shown for a requested page number. */
  function SafePage(total: int, page: int, pageSize: int): int
    requires pageSize >= 1
  {
    Min(Max(0, page), PageCount(total, pageSize) - 1)
  }

  function PageSlice<T>(items: seq<T>, page: int, pageSize: int): seq<T>
    requires pageSize >= 1
  {
    Slice(items, SafePage(|items|, page, pageSize) * pageSize, pageSize)
  }

  /** The slices of pages 0 .. pages, glued together. */
  function Pages<T>(items: seq<T>, pages: nat, pageSize: int): seq<T>
    requires pageSize >= 1
  {
    if pages == 0 then [] else Pages(items, pages - 1, pageSize) + PageSlice(items, pages - 1, pageSize)
  }

  lemma {:induction false} PagesArePrefix<T>(items: seq<T>, pages: nat, pageSize: int)
    requires pageSize >= 1 && pages <= PageCount(|items|, pageSize)
    ensures Pages(items, pages, pageSize) == Take(items, pages * pageSize)
  {
    if pages > 0 {
      var start := (pages - 1) * pageSize;
      PagesArePrefix(items, pages - 1, pageSize);
      assert SafePage(|items|, pages - 1, pageSize) == pages - 1;
      assert start + pageSize == pages * pageSize;
      if start <= |items| {
        SliceExtendsTake(items, start, pageSize);
      }
    }
  }

  lemma PageLength<T>(items: seq<T>, p: nat, pageSize: int)
    requires pageSize >= 1 && p < PageCount(|items|, pageSize) && p * pageSize <= |items|
    ensures |PageSlice(items, p, pageSize)| == Min(pageSize, |items| - p * pageSize)
  {
    assert SafePage(|items|, p, pageSize) == p;
  }

  /** All pages together are the list; every page but the last is full, the last is not empty unless the list is. */
  lemma PagesPartitionTheList<T>(items: seq<T>, pageSize: int)
    requires pageSize >= 1
    ensures var n := PageCount(|items|, pageSize);
      && Pages(items, n, pageSize) == items
      && (forall p :: 0 <= p < n - 1 ==> |PageSlice(items, p, pageSize)| == pageSize)
      && (items != [] ==> 0 < |PageSlice(items, n - 1, pageSize)| <= pageSize)
  {
    hide Pages, PageSlice, PageCount;
    var n := PageCount(|items|, pageSize);
    PagesArePrefix(items, n, pageSize);
    forall p | 0 <= p < n - 1
      ensures |PageSlice(items, p, pageSize)| == pageSize
    {
      FullPage(n, p, pageSize);
      PageLength(items, p, pageSize);
    }
    if items != [] {
      PageLength(items, n - 1, pageSize);
    }
  }

  lemma FullPage(n: int, p: int, pageSize: int)
    requires pageSize >= 1 && 0 <= p < n - 1
    ensures p * pageSize + pageSize <= (n - 1) * pageSize
  {
    TimesMonotone(p + 1, n - 1, pageSize);
    assert (p + 1) * pageSize == p * pageSize + pageSize;
  }

  lemma {:induction false} TimesMonotone(a: int, b: int, k: int)
    requires a <= b && k >= 0
    ensures a * k <= b * k
    decreases k
  {
    if k > 0 {
      TimesMonotone(a, b, k - 1);
      assert a * k == a * (k - 1) + a && b * k == b * (k - 1) + b;
    }
  }

  /** A page number below the range shows the first page, one above it the last. */
  lemma OutOfRangePages<T>(items: seq<T>, page: int, pageSize: int)
    requires pageSize >= 1
    ensures page < 0 ==> PageSlice(items, page, pageSize) == PageSlice(items, 0, pageSize)
    ensures page >= PageCount(|items|, pageSize) ==>
      PageSlice(items, page, pageSize) == PageSlice(items, PageCount(|items|, pageSize) - 1, pageSize)
  {
  }

  // ----- virtual list -------------------------------------------------------------------

  const OVERSCAN: int := 8

  function Ceil(x: real): int { -(-x).Floor }

  function WindowStart(scrollTop: real, rowHeight: real): nat
    requires rowHeight > 0.0
  {
    Max(0, (scrollTop / rowHeight).Floor - OVERSCAN)
  }

  function WindowCount(viewport: real, rowHeight: real): int
    requires rowHeight > 0.0
  {
    Ceil(viewport / rowHeight) + OVERSCAN * 2
  }

  /** Index after the last rendered row, and index of the first, for a list of `length` rows. */
  function RenderedEnd(scrollTop: real, viewport: real, rowHeight: real, length: nat): int
    requires rowHeight > 0.0 && viewport >= 0.0
  {
    Min(WindowStart(scrollTop, rowHeight) + WindowCount(viewport, rowHeight), length)
  }

  /** `filtered.slice(windowStart, windowStart + windowCount).length` */
  function Rendered(scrollTop: real, viewport: real, rowHeight: real, length: nat): int
    requires rowHeight > 0.0 && viewport >= 0.0
  {
    Max(0, RenderedEnd(scrollTop, viewport, rowHeight, length) - WindowStart(scrollTop, rowHeight))
  }

  function TopPad(scrollTop: real, rowHeight: real): real
    requires rowHeight > 0.0
  {
    WindowStart(scrollTop, rowHeight) as real * rowHeight
  }

  function BottomPad(scrollTop: real, viewport: real, rowHeight: real, length: nat): real
    requires rowHeight > 0.0 && viewport >= 0.0
  {
    var rows := length - WindowStart(scrollTop, rowHeight) - Rendered(scrollTop, viewport, rowHeight, length);
    var below := rows as real * rowHeight;
    if below < 0.0 then 0.0 else below
  }

  lemma DivideLess(a: real, b: real, h: real)
    requires h > 0.0 && a * h < b
    ensures a < b / h
  {
    var q := b / h;
    assert q * h == b;
    MulMonotone(q, a, h);
  }

  lemma DivideMore(a: real, b: real, h: real)
    requires h > 0.0 && b < a * h
    ensures b / h < a
  {
    var q := b / h;
    assert q * h == b;
    MulMonotone(a, q, h);
  }

  lemma MulMonotone(a: real, b: real, h: real)
    requires h > 0.0
    ensures a <= b ==> a * h <= b * h
  {
  }

  lemma SplitQuotient(a: real, b: real, h: real)
    requires h > 0.0
    ensures (a + b) / h == a / h + b / h
  {
  }

  /** Row k of a list with this row height overlaps the viewport. */
  predicate Meets(k: int, scrollTop: real, viewport: real, rowHeight: real) {
    k as real * rowHeight < scrollTop + viewport && scrollTop < (k + 1) as real * rowHeight
  }

  /** Every row that meets the viewport is rendered, at any scroll offset, overscroll included. */
  lemma ViewportIsCovered(k: nat, scrollTop: real, viewport: real, rowHeight: real, length: nat)
    requires rowHeight > 0.0 && viewport >= 0.0 && k < length
    requires Meets(k, scrollTop, viewport, rowHeight)
    ensures WindowStart(scrollTop, rowHeight) <= k < RenderedEnd(scrollTop, viewport, rowHeight, length)
  {
    DivideLess(k as real, scrollTop + viewport, rowHeight);
    SplitQuotient(scrollTop, viewport, rowHeight);
    DivideMore((k + 1) as real, scrollTop, rowHeight);
  }

  lemma PadsAddUp(a: int, b: int, c: int, h: real)
    ensures a as real * h + b as real * h + c as real * h == (a + b + c) as real * h
  {
  }

  lemma WindowCountPositive(viewport: real, rowHeight: real)
    requires rowHeight > 0.0 && viewport >= 0.0
    ensures WindowCount(viewport, rowHeight) > 0
  {
  }

  /**
   Top pad, rendered rows and bottom pad add up to the height of the full list exactly when the
   window starts within the list; scrolled further, the top pad alone is too tall.
   */
  lemma HeightIsConserved(scrollTop: real, viewport: real, rowHeight: real, length: nat)
    requires rowHeight > 0.0 && viewport >= 0.0
    ensures TopPad(scrollTop, rowHeight) + Rendered(scrollTop, viewport, rowHeight, length) as real * rowHeight
          + BottomPad(scrollTop, viewport, rowHeight, length) == length as real * rowHeight
      <==> WindowStart(scrollTop, rowHeight) <= length
  {
    var start := WindowStart(scrollTop, rowHeight);
    var rows := Rendered(scrollTop, viewport, rowHeight, length);
    WindowCountPositive(viewport, rowHeight);
    if start <= length {
      MulMonotone(0.0, (length - start - rows) as real, rowHeight);
      PadsAddUp(start, rows, length - start - rows, rowHeight);
    } else {
      MulMonotone((length - start - rows) as real, 0.0, rowHeight);
      MulMonotone((length + 1) as real, start as real, rowHeight);
      PadsAddUp(length, 1, 0, rowHeight);
    }
  }

  /** For instance an empty list that is still scrolled to 9 rows: one row of pad is left. */
  lemma StaleScrollLeavesPad()
    ensures TopPad(9.0, 1.0) + Rendered(9.0, 0.0, 1.0, 0) as real * 1.0 + BottomPad(9.0, 0.0, 1.0, 0) == 1.0
  {
    assert (9.0 / 1.0).Floor == 9;
  }

  /** A row above the viewport is skipped exactly if eight more rows fit between it and the viewport. */
  lemma SkippedAbove(k: nat, scrollTop: real, rowHeight: real)
    requires rowHeight > 0.0
    ensures k < WindowStart(scrollTop, rowHeight) <==> (k + 9) as real * rowHeight <= scrollTop
  {
    if (k + 9) as real * rowHeight <= scrollTop {
      AtMostQuotient((k + 9) as real, scrollTop, rowHeight);
    } else {
      DivideMore((k + 9) as real, scrollTop, rowHeight);
    }
  }

  lemma AtMostQuotient(a: real, b: real, h: real)
    requires h > 0.0 && a * h <= b
    ensures a <= b / h
  {
    var q := b / h;
    assert q * h == b;
    if q < a {
      MulLess(q, a, h);
    }
  }

  lemma MulLess(a: real, b: real, h: real)
    requires h > 0.0 && a < b
    ensures a * h < b * h
  {
  }

  /** Below the viewport of a scrolled list seven more rows are rendered, and none that eight rows keep from it. */
  lemma SkippedBelow(k: nat, scrollTop: real, viewport: real, rowHeight: real)
    requires rowHeight > 0.0 && viewport >= 0.0 && WindowStart(scrollTop, rowHeight) > 0
    ensures (k - 7) as real * rowHeight < scrollTop + viewport ==>
      k < WindowStart(scrollTop, rowHeight) + WindowCount(viewport, rowHeight)
    ensures (k - 8) as real * rowHeight >= scrollTop + viewport ==>
      k >= WindowStart(scrollTop, rowHeight) + WindowCount(viewport, rowHeight)
  {
    SplitQuotient(scrollTop, viewport, rowHeight);
    if (k - 7) as real * rowHeight < scrollTop + viewport {
      DivideLess((k - 7) as real, scrollTop + viewport, rowHeight);
    }
    if (k - 8) as real * rowHeight >= scrollTop + viewport {
      QuotientAtMost((k - 8) as real, scrollTop + viewport, rowHeight);
    }
  }

  lemma QuotientAtMost(a: real, b: real, h: real)
    requires h > 0.0 && a * h >= b
    ensures b / h <= a
  {
    var q := b / h;
    assert q * h == b;
    if a < q {
      MulLess(a, q, h);
    }
  }
}
