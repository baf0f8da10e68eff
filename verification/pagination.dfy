/**
 The pager-window computation of the blog's index page
 (`IndexView.pagination_data` in blog/views.py).

 Given the current page number `n`, the total page count `total` and the
 framework's `is_paginated` flag, it decides which page numbers appear
 immediately left and right of the current page, whether a link to the
 first / last page is shown, and whether an ellipsis is shown between that
 link and the window.

 The model is total: it follows `pagination_data` on every input, including
 the ones the framework never produces. Python raises `IndexError` when the
 method reads `right[-1]` or `left[0]` of an empty list; that outcome is a
 constructor of its own, and `NeverRaises` proves it cannot occur on the
 inputs the paginator guarantees.
 */
module Pagination {
  import opened PySeq

  /** The six template variables `pagination_data` returns when paginated. */
  datatype Window = Window(
    left: seq<int>,          // up to two page numbers just before the current one
    right: seq<int>,         // up to two page numbers just after the current one
    first: bool,             // show a link to page 1
    last: bool,              // show a link to the last page
    leftHasMore: bool,       // show an ellipsis after the page-1 link
    rightHasMore: bool       // show an ellipsis before the last-page link
  )

  /** What a call of `pagination_data` ends in. */
  datatype Outcome =
    | NoPager                // the empty dictionary: not paginated
    | Pager(window: Window)  // the six variables
    | IndexError             // Python raised on an empty `left` / `right`

  /** The paginator's `page_range`: pages 1 .. total. */
  function PageRange(total: int): (r: seq<int>)
    ensures total >= 0 ==> |r| == total
    ensures forall k :: 0 <= k < |r| ==> r[k] == k + 1
  {
    Interval(1, total + 1)
  }

  /** The start index of the left slice: `(n-3) if (n-3) > 0 else 0`. */
  function LeftStart(n: int): (i: int)
    ensures i >= 0
    ensures i >= n - 3
    ensures i == 0 || i == n - 3
  {
    if n - 3 > 0 then n - 3 else 0
  }

  /** `s[-1]` for a non-empty list: an element, and the largest one of an ascending list. */
  function Last(s: seq<int>): (x: int)
    requires |s| > 0
    ensures x in s
    ensures StrictlyAscending(s) ==> forall k :: 0 <= k < |s| ==> s[k] <= x
  {
    s[|s| - 1]
  }

  /**
   `pagination_data`, branch for branch, on any input. Its contract holds
   without any assumption on the inputs: the empty dictionary comes exactly
   from the `is_paginated` guard, page 1 never shows anything to its left,
   the last page nothing to its right, and an ellipsis only ever comes with
   its boundary link.
   */
  function PaginationData(isPaginated: bool, n: int, total: int): (r: Outcome)
    ensures r == NoPager <==> !isPaginated
    ensures r.Pager? && n == 1 ==>
      r.window.left == [] && !r.window.first && !r.window.leftHasMore
    ensures r.Pager? && n == total && n != 1 ==>
      r.window.right == [] && !r.window.last && !r.window.rightHasMore
    ensures r.Pager? ==> (r.window.leftHasMore ==> r.window.first)
    ensures r.Pager? ==> (r.window.rightHasMore ==> r.window.last)
  {
    if !isPaginated then NoPager
    else
      var pageRange := PageRange(total);
      if n == 1 then
        var right := PySlice(pageRange, n, n + 2);
        if |right| == 0 then IndexError
        else Pager(Window([], right, false, Last(right) < total,
                          false, Last(right) < total - 1))
      else if n == total then
        var left := PySlice(pageRange, LeftStart(n), n - 1);
        if |left| == 0 then IndexError
        else Pager(Window(left, [], left[0] > 1, false, left[0] > 2, false))
      else
        var left := PySlice(pageRange, LeftStart(n), n - 1);
        var right := PySlice(pageRange, n, n + 2);
        if |right| == 0 || |left| == 0 then IndexError
        else Pager(Window(left, right, left[0] > 1, Last(right) < total,
                          left[0] > 2, Last(right) < total - 1))
  }

  /**
   What the paginator guarantees whenever it reports `is_paginated`: more
   than one page, and a current page within range.
   */
  predicate PaginatedInput(isPaginated: bool, n: int, total: int) {
    isPaginated ==> 2 <= total && 1 <= n <= total
  }

  /**
   Independent closed form of the window: the pages max(1, n-2) .. n-1 on
   the left, n+1 .. min(n+2, total) on the right, and each flag as a plain
   comparison of `n` with the ends.
   */
  function ClosedForm(n: int, total: int): (w: Window) {
    Window(
      Interval(if n - 2 > 1 then n - 2 else 1, n),
      Interval(n + 1, (if n + 2 < total then n + 2 else total) + 1),
      n >= 4,
      n + 3 <= total,
      n >= 5,
      n + 4 <= total)
  }

  /** The left slice is exactly the pages max(1, n-2) .. n-1. */
  lemma LeftSlice(n: int, total: int)
    requires 1 <= n <= total
    ensures PySlice(PageRange(total), LeftStart(n), n - 1)
         == Interval(if n - 2 > 1 then n - 2 else 1, n)
  {
    SliceOfInterval(1, total, LeftStart(n), n - 1);
  }

  /** The right slice is exactly the pages n+1 .. min(n+2, total). */
  lemma RightSlice(n: int, total: int)
    requires 1 <= n <= total
    ensures PySlice(PageRange(total), n, n + 2)
         == Interval(n + 1, (if n + 2 < total then n + 2 else total) + 1)
  {
    SliceOfInterval(1, total, n, n + 2);
  }

  /**
   On every input the paginator can produce, `pagination_data` returns the
   closed form when paginated and the empty dictionary otherwise.
   */
  lemma MatchesClosedForm(isPaginated: bool, n: int, total: int)
    requires PaginatedInput(isPaginated, n, total)
    ensures PaginationData(isPaginated, n, total)
         == if isPaginated then Pager(ClosedForm(n, total)) else NoPager
  {
    if isPaginated {
      LeftSlice(n, total);
      RightSlice(n, total);
    }
  }

  /** The `right[-1]` and `left[0]` reads never hit an empty list. */
  lemma NeverRaises(isPaginated: bool, n: int, total: int)
    requires PaginatedInput(isPaginated, n, total)
    ensures PaginationData(isPaginated, n, total) != IndexError
  {
    MatchesClosedForm(isPaginated, n, total);
  }

  /** Without pagination the result is empty: no window and no flags. */
  lemma NotPaginatedIsEmpty(n: int, total: int)
    ensures PaginationData(false, n, total) == NoPager
  {
  }

  /**
   Bounds of the window: at most two pages on each side, all within
   [1, total], `left` strictly below `n` and `right` strictly above it, so
   the current page is on neither side.
   */
  lemma WindowBounds(n: int, total: int)
    requires 2 <= total && 1 <= n <= total
    ensures PaginationData(true, n, total).Pager?
    ensures var w := PaginationData(true, n, total).window;
      && |w.left| <= 2 && |w.right| <= 2
      && (forall p :: p in w.left ==> 1 <= p < n)
      && (forall p :: p in w.right ==> n < p <= total)
      && n !in w.left && n !in w.right
  {
    MatchesClosedForm(true, n, total);
    var lo := if n - 2 > 1 then n - 2 else 1;
    var hi := (if n + 2 < total then n + 2 else total) + 1;
    var w := ClosedForm(n, total);
    forall p | p in w.left
      ensures 1 <= p < n
    {
      IntervalMembership(lo, n, p);
    }
    forall p | p in w.right
      ensures n < p <= total
    {
      IntervalMembership(n + 1, hi, p);
    }
  }

  /** Both sides of the window list their pages in strictly ascending order. */
  lemma WindowAscending(n: int, total: int)
    requires 2 <= total && 1 <= n <= total
    ensures PaginationData(true, n, total).Pager?
    ensures var w := PaginationData(true, n, total).window;
      StrictlyAscending(w.left) && StrictlyAscending(w.right)
  {
    MatchesClosedForm(true, n, total);
    IntervalAscending(if n - 2 > 1 then n - 2 else 1, n);
    IntervalAscending(n + 1, (if n + 2 < total then n + 2 else total) + 1);
  }

  /**
   The window has no holes: `left + [n] + right` is the run of consecutive
   pages max(1, n-2) .. min(n+2, total).
   */
  lemma WindowContiguous(n: int, total: int)
    requires 2 <= total && 1 <= n <= total
    ensures PaginationData(true, n, total).Pager?
    ensures var w := PaginationData(true, n, total).window;
      w.left + [n] + w.right
      == Interval(if n - 2 > 1 then n - 2 else 1,
                  (if n + 2 < total then n + 2 else total) + 1)
  {
    MatchesClosedForm(true, n, total);
    var lo := if n - 2 > 1 then n - 2 else 1;
    var hi := (if n + 2 < total then n + 2 else total) + 1;
    assert [n] == Interval(n, n + 1);
    IntervalConcat(lo, n, n + 1);
    IntervalConcat(lo, n + 1, hi);
  }

  /**
   The page-1 flags mean what they say: `first` holds exactly when page 1
   is neither the current page nor in `left`, and `leftHasMore` exactly
   when some page strictly between 1 and `n` is not in `left`.
   */
  lemma LeftFlagsMeaning(n: int, total: int)
    requires 2 <= total && 1 <= n <= total
    ensures PaginationData(true, n, total).Pager?
    ensures var w := PaginationData(true, n, total).window;
      && (w.first <==> n != 1 && 1 !in w.left)
      && (w.leftHasMore <==> exists p :: 1 < p < n && p !in w.left)
  {
    MatchesClosedForm(true, n, total);
    var lo := if n - 2 > 1 then n - 2 else 1;
    IntervalMembership(lo, n, 1);
    if n >= 5 {
      IntervalMembership(lo, n, 2);
      assert 1 < 2 < n && 2 !in ClosedForm(n, total).left;
    }
    forall p | 1 < p < n
      ensures p !in ClosedForm(n, total).left ==> n >= 5
    {
      IntervalMembership(lo, n, p);
    }
  }

  /**
   The last-page flags mirror the page-1 flags: `last` holds exactly when
   page `total` is neither the current page nor in `right`, and
   `rightHasMore` exactly when some page strictly between `n` and `total`
   is not in `right`.
   */
  lemma RightFlagsMeaning(n: int, total: int)
    requires 2 <= total && 1 <= n <= total
    ensures PaginationData(true, n, total).Pager?
    ensures var w := PaginationData(true, n, total).window;
      && (w.last <==> n != total && total !in w.right)
      && (w.rightHasMore <==> exists p :: n < p < total && p !in w.right)
  {
    MatchesClosedForm(true, n, total);
    var hi := (if n + 2 < total then n + 2 else total) + 1;
    IntervalMembership(n + 1, hi, total);
    if n + 4 <= total {
      IntervalMembership(n + 1, hi, total - 1);
      assert n < total - 1 < total && total - 1 !in ClosedForm(n, total).right;
    }
    forall p | n < p < total
      ensures p !in ClosedForm(n, total).right ==> n + 4 <= total
    {
      IntervalMembership(n + 1, hi, p);
    }
  }

  /**
   The flags as `pagination_data` derives them from the window ends:
   `first <=> left[0] > 1`, `leftHasMore <=> left[0] > 2`,
   `last <=> right[-1] < total`, `rightHasMore <=> right[-1] < total - 1`
   (each false when its side is empty), hence each ellipsis implies its
   boundary link.
   */
  lemma FlagsFromEnds(n: int, total: int)
    requires 2 <= total && 1 <= n <= total
    ensures PaginationData(true, n, total).Pager?
    ensures var w := PaginationData(true, n, total).window;
      && (w.first <==> |w.left| > 0 && w.left[0] > 1)
      && (w.leftHasMore <==> |w.left| > 0 && w.left[0] > 2)
      && (w.last <==> |w.right| > 0 && Last(w.right) < total)
      && (w.rightHasMore <==> |w.right| > 0 && Last(w.right) < total - 1)
      && (w.leftHasMore ==> w.first)
      && (w.rightHasMore ==> w.last)
  {
    MatchesClosedForm(true, n, total);
  }

  /**
   On page 1 there is nothing to the left and no page-1 link or ellipsis,
   while `right` is non-empty, so reading `right[-1]` is safe.
   */
  lemma FirstPage(total: int)
    requires 2 <= total
    ensures PaginationData(true, 1, total).Pager?
    ensures var w := PaginationData(true, 1, total).window;
      && w.left == [] && !w.first && !w.leftHasMore
      && |w.right| > 0 && w.right[0] == 2
  {
    MatchesClosedForm(true, 1, total);
  }

  /**
   On the last page there is nothing to the right and no last-page link or
   ellipsis, while `left` is non-empty, so reading `left[0]` is safe.
   */
  lemma LastPage(total: int)
    requires 2 <= total
    ensures PaginationData(true, total, total).Pager?
    ensures var w := PaginationData(true, total, total).window;
      && w.right == [] && !w.last && !w.rightHasMore
      && |w.left| > 0 && Last(w.left) == total - 1
  {
    MatchesClosedForm(true, total, total);
  }

  /** Page p seen from the other end of 1 .. total. */
  function Reflect(p: int, total: int): (q: int) {
    total + 1 - p
  }

  /** Reflects every page of `s` and reverses the order, keeping it ascending. */
  function ReflectAll(s: seq<int>, total: int): (r: seq<int>)
    ensures |r| == |s|
    ensures forall k :: 0 <= k < |s| ==> r[k] == Reflect(s[|s| - 1 - k], total)
  {
    seq(|s|, k requires 0 <= k < |s| => Reflect(s[|s| - 1 - k], total))
  }

  /** Reflecting a run of consecutive pages gives the mirrored run. */
  lemma ReflectInterval(lo: int, hi: int, total: int)
    requires lo <= hi
    ensures ReflectAll(Interval(lo, hi), total)
         == Interval(Reflect(hi - 1, total), Reflect(lo - 1, total))
  {
    var a := ReflectAll(Interval(lo, hi), total);
    var b := Interval(Reflect(hi - 1, total), Reflect(lo - 1, total));
    assert |a| == |b|;
  }

  /**
   Mirror symmetry of the window: viewing page `total + 1 - n` shows the
   reflection of what page `n` shows, with left and right swapped.
   */
  lemma MirrorSymmetry(n: int, total: int)
    requires 2 <= total && 1 <= n <= total
    ensures PaginationData(true, n, total).Pager?
    ensures PaginationData(true, Reflect(n, total), total).Pager?
    ensures var w := PaginationData(true, n, total).window;
      var m := PaginationData(true, Reflect(n, total), total).window;
      && m.left == ReflectAll(w.right, total)
      && m.right == ReflectAll(w.left, total)
  {
    MatchesClosedForm(true, n, total);
    MatchesClosedForm(true, Reflect(n, total), total);
    ClosedFormMirror(n, total);
  }

  /**
   Mirror symmetry of the flags: viewing page `total + 1 - n` exchanges the
   page-1 and last-page links and the two ellipses of page `n`.
   */
  lemma MirrorFlags(n: int, total: int)
    requires 2 <= total && 1 <= n <= total
    ensures PaginationData(true, n, total).Pager?
    ensures PaginationData(true, Reflect(n, total), total).Pager?
    ensures var w := PaginationData(true, n, total).window;
      var m := PaginationData(true, Reflect(n, total), total).window;
      && m.first == w.last && m.last == w.first
      && m.leftHasMore == w.rightHasMore && m.rightHasMore == w.leftHasMore
  {
    MatchesClosedForm(true, n, total);
    MatchesClosedForm(true, Reflect(n, total), total);
  }

  /** The reflection argument on the closed form, one side at a time. */
  lemma ClosedFormMirror(n: int, total: int)
    requires 2 <= total && 1 <= n <= total
    ensures var w := ClosedForm(n, total);
      var m := ClosedForm(Reflect(n, total), total);
      && m.left == ReflectAll(w.right, total)
      && m.right == ReflectAll(w.left, total)
  {
    var n' := Reflect(n, total);
    var leftLo := if n - 2 > 1 then n - 2 else 1;
    var rightHi := (if n + 2 < total then n + 2 else total) + 1;
    ReflectInterval(leftLo, n, total);
    ReflectInterval(n + 1, rightHi, total);
    assert Reflect(rightHi - 1, total) == (if n' - 2 > 1 then n' - 2 else 1);
    assert Reflect(n, total) == n';
    assert Reflect(n - 1, total) == n' + 1;
    assert Reflect(leftLo - 1, total) == (if n' + 2 < total then n' + 2 else total) + 1;
  }

  /** Ten pages, page 5: two pages each side and all four markers. */
  lemma ExampleMiddle()
    ensures PaginationData(true, 5, 10)
         == Pager(Window([3, 4], [6, 7], true, true, true, true))
  {
    MatchesClosedForm(true, 5, 10);
  }

  /** Three pages, page 2: the window covers everything, no markers. */
  lemma ExampleSmall()
    ensures PaginationData(true, 2, 3)
         == Pager(Window([1], [3], false, false, false, false))
  {
    MatchesClosedForm(true, 2, 3);
  }

  /** Ten pages, first and last page. */
  lemma ExampleEnds()
    ensures PaginationData(true, 1, 10)
         == Pager(Window([], [2, 3], false, true, false, true))
    ensures PaginationData(true, 10, 10)
         == Pager(Window([8, 9], [], true, false, true, false))
  {
    MatchesClosedForm(true, 1, 10);
    MatchesClosedForm(true, 10, 10);
  }

  /**
   `pagination_data` does no range check of its own: it relies on the
   paginator.
   With `is_paginated` set on a single page, or a page past the end, it
   raises; with page 0 the negative slice bound `n - 1 = -1` counts from
   the end and the left window spans all pages but the last.
   */
  lemma UncheckedInputs(total: int)
    requires total >= 2
    ensures PaginationData(true, 1, 1) == IndexError
    ensures PaginationData(true, total + 1, total) == IndexError
    ensures PaginationData(true, 0, total).Pager?
    ensures PaginationData(true, 0, total).window.left == Interval(1, total)
  {
    var pr := PageRange(total);
    assert PySlice(pr, total + 1, total + 3) == [];
    assert PySlice(pr, 0, -1) == pr[0..total - 1];
    SliceOfInterval(1, total - 1, 0, total - 1);
    assert pr[0..total - 1] == Interval(1, total);
  }
}
