/**
 * Client-side pagination of the admin appointment list: the page count, the
 * slice of rows shown for the current page, and the sequence of page controls
 * (previous, page buttons, ellipses, next) that the list renders below itself.
 */
module Pagination {
  import opened Wrappers

  /** Rows per page (`appointmentsPerPage`). */
  const PerPage: nat := 10

  /**
   * The controls are rendered only for lists at least this long. The component
   * (`AllAppointments.jsx`) writes this threshold as its own literal; it is not derived from PerPage.
   */
  const ControlsThreshold: nat := 10

  /** `Math.max` and `Math.min` on integers. */
  function Max(a: int, b: int): int { if a >= b then a else b }

  function Min(a: int, b: int): int { if a <= b then a else b }

  // ---------------------------------------------------------------------------
  // Page count and page slice
  // ---------------------------------------------------------------------------

  /** `Math.ceil(count / appointmentsPerPage)`: the least page count that holds every row. */
  function TotalPages(count: nat): (tp: nat)
    ensures tp * PerPage >= count
    ensures tp == 0 || (tp - 1) * PerPage < count
    ensures tp == 0 <==> count == 0
    ensures count >= ControlsThreshold ==> tp >= 1
  {
    (count + PerPage - 1) / PerPage
  }

  /**
   * How `Array.prototype.slice` turns one of its arguments into a position:
   * a negative argument counts back from the end, and the result is clipped
   * to `[0, len]`.
   */
  function RelativeIndex(k: int, len: nat): (r: nat)
    ensures r <= len
  {
    if k < 0 then Max(len + k, 0) else Min(k, len)
  }

  /** `s.slice(start, end)` with JavaScript's argument normalisation. */
  function JsSlice<T>(s: seq<T>, start: int, end: int): (r: seq<T>)
    ensures |r| <= |s|
    ensures 0 <= start <= end ==> r == s[Min(start, |s|)..Min(end, |s|)]
    ensures -|s| <= start <= end < 0 ==> r == s[|s| + start..|s| + end]
    ensures start < 0 && end < 0 && start < -|s| ==> r == s[..Max(|s| + end, 0)]
    ensures 0 <= end <= start ==> r == []
  {
    var from, to := RelativeIndex(start, |s|), RelativeIndex(end, |s|);
    if from < to then s[from..to] else []
  }

  /**
   * `currentAppointments`: the rows of page `page`, computed as the component does,
   * from `indexOfLastAppointment = page * 10` and `indexOfFirstAppointment =
   * indexOfLastAppointment - 10`. For a page from 1 on it is the run of rows
   * `[(page - 1) * 10, page * 10)` clipped to the list; it never holds more than
   * ten rows.
   */
  function PageSlice<T>(s: seq<T>, page: int): (r: seq<T>)
    ensures |r| <= PerPage
    ensures 1 <= page ==> r == s[Min((page - 1) * PerPage, |s|)..Min(page * PerPage, |s|)]
  {
    var last := page * PerPage;
    var first := last - PerPage;
    JsSlice(s, first, last)
  }

  /** The rows of pages 1 to k, one page after another. */
  function PagesUpTo<T>(s: seq<T>, k: nat): seq<T>
  {
    if k == 0 then [] else PagesUpTo(s, k - 1) + PageSlice(s, k)
  }

  /** The number of rows on pages 1 to k, added page by page. */
  function RowsUpTo<T>(s: seq<T>, k: nat): nat
  {
    if k == 0 then 0 else RowsUpTo(s, k - 1) + |PageSlice(s, k)|
  }

  /** Pages 1 to k together are the first k * 10 rows of the list (or all of it). */
  lemma {:induction false} PagesUpToIsPrefix<T>(s: seq<T>, k: nat)
    ensures PagesUpTo(s, k) == s[..Min(k * PerPage, |s|)]
  {
    if k > 0 {
      PagesUpToIsPrefix(s, k - 1);
      var a, b := Min((k - 1) * PerPage, |s|), Min(k * PerPage, |s|);
      assert s[..a] + s[a..b] == s[..b];
    }
  }

  /** Reading every page from 1 to totalPages in order gives back the whole list. */
  lemma PagesCoverList<T>(s: seq<T>)
    ensures PagesUpTo(s, TotalPages(|s|)) == s
  {
    PagesUpToIsPrefix(s, TotalPages(|s|));
    assert s[..|s|] == s;
  }

  /** The row counts of pages 1 to totalPages add up to the length of the list. */
  lemma RowCountsSumToLength<T>(s: seq<T>)
    ensures RowsUpTo(s, TotalPages(|s|)) == |s|
  {
    RowsAreLengthOfPages(s, TotalPages(|s|));
    PagesCoverList(s);
  }

  lemma {:induction false} RowsAreLengthOfPages<T>(s: seq<T>, k: nat)
    ensures RowsUpTo(s, k) == |PagesUpTo(s, k)|
  {
    if k > 0 {
      RowsAreLengthOfPages(s, k - 1);
    }
  }

  /**
   * Every page before the last holds ten rows, the last page holds the rest
   * (one to ten rows), and every page after it is empty.
   */
  lemma PageSizes<T>(s: seq<T>, page: int)
    requires 1 <= page
    ensures page < TotalPages(|s|) ==> |PageSlice(s, page)| == PerPage
    ensures page == TotalPages(|s|) ==> |PageSlice(s, page)| == |s| - (page - 1) * PerPage
    ensures page == TotalPages(|s|) ==> 1 <= |PageSlice(s, page)| <= PerPage
    ensures page > TotalPages(|s|) ==> PageSlice(s, page) == []
  {
  }

  /**
   * While the current page lies in `[1, max(1, totalPages)]`, the page shown is
   * empty exactly when the whole list is, so the "no appointments" message is
   * only ever shown for an empty list.
   */
  lemma CurrentPageEmptyIffNoRows<T>(s: seq<T>, page: int)
    requires 1 <= page <= Max(1, TotalPages(|s|))
    ensures PageSlice(s, page) == [] <==> s == []
  {
  }

  // ---------------------------------------------------------------------------
  // Page controls
  // ---------------------------------------------------------------------------

  /**
   * One entry of the control bar: the "previous" and "next" buttons with the
   * page they go to and whether they are disabled, a numbered page button with
   * whether it is highlighted as the current page, and an ellipsis.
   */
  datatype PageItem =
    | Prev(target: int, disabled: bool)
    | PageBtn(n: int, active: bool)
    | Dots
    | Next(target: int, disabled: bool)

  /** First and last page of the window of neighbours around the current page. */
  function WindowStart(cur: int): int { Max(2, cur - 1) }

  function WindowEnd(cur: int, tp: int): int { Min(tp - 1, cur + 1) }

  /** The integers lo, lo + 1, ..., hi (empty when lo > hi). */
  function Range(lo: int, hi: int): (r: seq<int>)
    ensures |r| == if lo <= hi then hi - lo + 1 else 0
    ensures forall k :: 0 <= k < |r| ==> r[k] == lo + k
  {
    seq(if lo <= hi then hi - lo + 1 else 0, k => lo + k)
  }

  /** The page buttons lo..hi, each highlighted exactly when it is page cur. */
  function Window(lo: int, hi: int, cur: int): seq<PageItem>
  {
    seq(if lo <= hi then hi - lo + 1 else 0, k => PageBtn(lo + k, lo + k == cur))
  }

  /**
   * The control bar for page `cur` of `tp`, part by part in the order
   * `renderPagination` pushes them: previous, page 1, a leading ellipsis when cur > 2, the
   * neighbours `max(2, cur - 1)..min(tp - 1, cur + 1)`, a trailing ellipsis
   * when cur < tp - 1, the last page when tp > 1, and next.
   */
  function Controls(cur: int, tp: int): (items: seq<PageItem>)
    ensures 3 <= |items| <= 9
    ensures items[0].Prev? && items[|items| - 1].Next?
    ensures items[1] == PageBtn(1, cur == 1)
  {
    [Prev(Max(1, cur - 1), cur == 1), PageBtn(1, cur == 1)]
    + LeadingDots(cur)
    + Window(WindowStart(cur), WindowEnd(cur, tp), cur)
    + TrailingDots(cur, tp)
    + LastPage(cur, tp)
    + [Next(Min(tp, cur + 1), cur == tp)]
  }

  function LeadingDots(cur: int): seq<PageItem> { if cur > 2 then [Dots] else [] }

  function TrailingDots(cur: int, tp: int): seq<PageItem> { if cur < tp - 1 then [Dots] else [] }

  function LastPage(cur: int, tp: int): seq<PageItem> { if tp > 1 then [PageBtn(tp, cur == tp)] else [] }

  lemma WindowSnoc(lo: int, i: int, cur: int)
    requires lo <= i
    ensures Window(lo, i, cur) == Window(lo, i - 1, cur) + [PageBtn(i, i == cur)]
  {
  }

  /**
   * `renderPagination`: builds the control bar by appending one entry at a
   * time, with a loop over the neighbour pages, and yields exactly Controls.
   */
  method RenderPagination(cur: int, tp: int) returns (items: seq<PageItem>)
    ensures items == Controls(cur, tp)
  {
    items := [];
    items := items + [Prev(Max(1, cur - 1), cur == 1)];
    items := items + [PageBtn(1, cur == 1)];
    if cur > 2 {
      items := items + [Dots];
    }
    ghost var head := items;
    assert head == [Prev(Max(1, cur - 1), cur == 1), PageBtn(1, cur == 1)] + LeadingDots(cur);
    var lo, hi := Max(2, cur - 1), Min(tp - 1, cur + 1);
    var i := lo;
    while i <= hi
      invariant lo <= i <= Max(lo, hi + 1)
      invariant items == head + Window(lo, i - 1, cur)
    {
      WindowSnoc(lo, i, cur);
      items := items + [PageBtn(i, i == cur)];
      i := i + 1;
    }
    ghost var body := items;
    assert body == head + Window(WindowStart(cur), WindowEnd(cur, tp), cur);
    if cur < tp - 1 {
      items := items + [Dots];
    }
    assert items == body + TrailingDots(cur, tp);
    ghost var upToDots := items;
    if tp > 1 {
      items := items + [PageBtn(tp, cur == tp)];
    }
    assert items == upToDots + LastPage(cur, tp);
    items := items + [Next(Min(tp, cur + 1), cur == tp)];
  }

  /**
   * Whether the control bar is rendered at all, for a list of `count` rows:
   * not for fewer than ten rows, and whenever it is there is at least one page.
   */
  predicate ControlsShown(count: nat): (shown: bool)
    ensures count < ControlsThreshold ==> !shown
    ensures shown ==> TotalPages(count) >= 1
  {
    count >= ControlsThreshold
  }

  /**
   * The page an entry navigates to when it is clicked: its target for an
   * enabled previous or next button, its number for a page button, and nothing
   * for a disabled button or an ellipsis (neither has a click that fires).
   */
  function ClickTarget(item: PageItem): (t: Option<int>)
    ensures t.None? <==> item.Dots? || ((item.Prev? || item.Next?) && item.disabled)
    ensures item.PageBtn? ==> t == Some(item.n)
    ensures t.Some? && (item.Prev? || item.Next?) ==> t.value == item.target
  {
    match item
    case Prev(t, d) => if d then None else Some(t)
    case PageBtn(n, _) => Some(n)
    case Dots => None
    case Next(t, d) => if d then None else Some(t)
  }

  // ---------------------------------------------------------------------------
  // Properties of the control bar
  // ---------------------------------------------------------------------------

  /** The page numbers of a control bar, in order. */
  function PageNumbers(items: seq<PageItem>): seq<int>
  {
    if items == [] then []
    else (if items[0].PageBtn? then [items[0].n] else []) + PageNumbers(items[1..])
  }

  ghost predicate StrictlyIncreasing(s: seq<int>)
  {
    forall i, j :: 0 <= i < j < |s| ==> s[i] < s[j]
  }

  lemma {:induction false} PageNumbersConcat(a: seq<PageItem>, b: seq<PageItem>)
    ensures PageNumbers(a + b) == PageNumbers(a) + PageNumbers(b)
  {
    if a == [] {
      assert a + b == b;
    } else {
      assert (a + b)[0] == a[0];
      assert (a + b)[1..] == a[1..] + b;
      PageNumbersConcat(a[1..], b);
    }
  }

  lemma {:induction false} WindowNumbers(lo: int, hi: int, cur: int)
    ensures PageNumbers(Window(lo, hi, cur)) == Range(lo, hi)
    decreases if lo <= hi then hi - lo + 1 else 0
  {
    if lo <= hi {
      assert Window(lo, hi, cur) == [PageBtn(lo, lo == cur)] + Window(lo + 1, hi, cur);
      assert Window(lo, hi, cur)[1..] == Window(lo + 1, hi, cur);
      WindowNumbers(lo + 1, hi, cur);
      assert Range(lo, hi) == [lo] + Range(lo + 1, hi);
    } else {
      assert Window(lo, hi, cur) == [];
    }
  }

  lemma PageNumbersSingle(x: PageItem)
    ensures PageNumbers([x]) == if x.PageBtn? then [x.n] else []
  {
  }

  /** The page numbers of the bar: 1, then the window, then the last page if there are two or more pages. */
  lemma ControlNumbers(cur: int, tp: int)
    ensures PageNumbers(Controls(cur, tp))
         == [1] + Range(WindowStart(cur), WindowEnd(cur, tp)) + (if tp > 1 then [tp] else [])
  {
    var a := [Prev(Max(1, cur - 1), cur == 1), PageBtn(1, cur == 1)];
    var w := Window(WindowStart(cur), WindowEnd(cur, tp), cur);
    var r := Range(WindowStart(cur), WindowEnd(cur, tp));
    var last := if tp > 1 then [tp] else [];
    assert PageNumbers(a) == [1] by {
      assert a == [a[0]] + [a[1]];
      PageNumbersConcat([a[0]], [a[1]]);
      PageNumbersSingle(a[0]);
      PageNumbersSingle(a[1]);
    }
    var x1 := a + LeadingDots(cur);
    assert PageNumbers(x1) == [1] by {
      PageNumbersConcat(a, LeadingDots(cur));
      if cur > 2 { PageNumbersSingle(Dots); }
    }
    var x2 := x1 + w;
    assert PageNumbers(x2) == [1] + r by {
      PageNumbersConcat(x1, w);
      WindowNumbers(WindowStart(cur), WindowEnd(cur, tp), cur);
    }
    var x3 := x2 + TrailingDots(cur, tp);
    assert PageNumbers(x3) == [1] + r by {
      PageNumbersConcat(x2, TrailingDots(cur, tp));
      if cur < tp - 1 { PageNumbersSingle(Dots); }
    }
    var x4 := x3 + LastPage(cur, tp);
    assert PageNumbers(x4) == [1] + r + last by {
      PageNumbersConcat(x3, LastPage(cur, tp));
      if tp > 1 { PageNumbersSingle(PageBtn(tp, cur == tp)); }
    }
    var e := [Next(Min(tp, cur + 1), cur == tp)];
    assert PageNumbers(x4 + e) == [1] + r + last by {
      PageNumbersConcat(x4, e);
      PageNumbersSingle(e[0]);
    }
    assert Controls(cur, tp) == x4 + e;
  }

  /**
   * The page numbers of the bar begin with 1, strictly increase, lie in
   * `[1, tp]`, end with tp when there are two or more pages, and number at
   * most five. This holds whatever the current page, also one out of range.
   */
  lemma ControlPagesOrdered(cur: int, tp: int)
    requires tp >= 1
    ensures |PageNumbers(Controls(cur, tp))| >= 1 && PageNumbers(Controls(cur, tp))[0] == 1
    ensures StrictlyIncreasing(PageNumbers(Controls(cur, tp)))
    ensures forall k :: 0 <= k < |PageNumbers(Controls(cur, tp))| ==>
              1 <= PageNumbers(Controls(cur, tp))[k] <= tp
    ensures tp > 1 ==> PageNumbers(Controls(cur, tp))[|PageNumbers(Controls(cur, tp))| - 1] == tp
    ensures |PageNumbers(Controls(cur, tp))| <= 5
  {
    ControlNumbers(cur, tp);
    var lo, hi := WindowStart(cur), WindowEnd(cur, tp);
    var ns := PageNumbers(Controls(cur, tp));
    var r := Range(lo, hi);
    assert forall k :: 0 <= k < |ns| ==> ns[k] == (if k == 0 then 1 else if k <= |r| then lo + k - 1 else tp);
  }

  /**
   * The current page, when it lies in `[1, tp]`, appears among the page
   * numbers exactly once.
   */
  lemma CurrentPageListedOnce(cur: int, tp: int)
    requires 1 <= cur <= tp
    ensures cur in PageNumbers(Controls(cur, tp))
    ensures forall i, j :: 0 <= i < |PageNumbers(Controls(cur, tp))| && 0 <= j < |PageNumbers(Controls(cur, tp))|
              && PageNumbers(Controls(cur, tp))[i] == cur && PageNumbers(Controls(cur, tp))[j] == cur
              ==> i == j
  {
    ControlNumbers(cur, tp);
    ControlPagesOrdered(cur, tp);
    var lo, hi := WindowStart(cur), WindowEnd(cur, tp);
    var ns := PageNumbers(Controls(cur, tp));
    if 1 < cur < tp {
      assert ns[cur - lo + 1] == cur;
    } else if cur == tp {
      assert ns[|ns| - 1] == cur;
    } else {
      assert ns[0] == cur;
    }
  }

  /**
   * Between page 1 and the last page the bar shows exactly the pages of the
   * window `max(2, cur - 1)..min(tp - 1, cur + 1)`.
   */
  lemma WindowIsExact(cur: int, tp: int, p: int)
    requires 2 <= p <= tp - 1
    ensures p in PageNumbers(Controls(cur, tp)) <==> WindowStart(cur) <= p <= WindowEnd(cur, tp)
  {
    ControlNumbers(cur, tp);
    var lo, hi := WindowStart(cur), WindowEnd(cur, tp);
    var r := Range(lo, hi);
    if lo <= p <= hi {
      assert r[p - lo] == p;
    }
  }

  /** A page button is highlighted exactly when it is the current page. */
  lemma ActiveOnlyOnCurrent(cur: int, tp: int)
    ensures forall it :: it in Controls(cur, tp) && it.PageBtn? ==> (it.active <==> it.n == cur)
  {
  }

  /**
   * The previous button goes to `max(1, cur - 1)` and is disabled exactly on
   * page 1; the next button goes to `min(tp, cur + 1)` and is disabled exactly
   * on page tp. They are the first and last entries of the bar and occur
   * nowhere else. From a page in `[1, tp]`, both targets lie in `[1, tp]`, and
   * an enabled button moves exactly one page.
   */
  lemma PrevAndNext(cur: int, tp: int)
    ensures Controls(cur, tp)[0] == Prev(Max(1, cur - 1), cur == 1)
    ensures Controls(cur, tp)[|Controls(cur, tp)| - 1] == Next(Min(tp, cur + 1), cur == tp)
    ensures forall k :: 0 < k < |Controls(cur, tp)| - 1 ==> !Controls(cur, tp)[k].Prev? && !Controls(cur, tp)[k].Next?
    ensures 1 <= cur <= tp ==> 1 <= Max(1, cur - 1) <= tp && 1 <= Min(tp, cur + 1) <= tp
    ensures 1 <= cur <= tp && cur != 1 ==> Max(1, cur - 1) == cur - 1
    ensures 1 <= cur <= tp && cur != tp ==> Min(tp, cur + 1) == cur + 1
  {
  }

  /**
   * The ellipses: one right after page 1 exactly when cur > 2, one right
   * before the last page exactly when cur < tp - 1, and no other. Neither checks
   * that a page is actually hidden: see DotsWithoutGap.
   */
  lemma DotsPlacement(cur: int, tp: int)
    requires 1 <= cur <= tp
    ensures Controls(cur, tp)[2] == Dots <==> cur > 2
    ensures Controls(cur, tp)[|Controls(cur, tp)| - 3] == Dots <==> cur < tp - 1
    ensures forall k :: 0 <= k < |Controls(cur, tp)| && Controls(cur, tp)[k] == Dots ==>
              k == 2 || k == |Controls(cur, tp)| - 3
  {
    var items := Controls(cur, tp);
    var lo, hi := WindowStart(cur), WindowEnd(cur, tp);
    var w := Window(lo, hi, cur);
    var b, c, d := LeadingDots(cur), TrailingDots(cur, tp), LastPage(cur, tp);
    var head := [Prev(Max(1, cur - 1), cur == 1), PageBtn(1, cur == 1)] + b;
    var tail := c + d + [Next(Min(tp, cur + 1), cur == tp)];
    assert items == head + w + tail;
    assert forall k :: 0 <= k < |w| ==> w[k].PageBtn?;
    // When both ellipses are present the current page sits between them.
    assert cur > 2 && cur < tp - 1 ==> |w| >= 1;
    forall k | 0 <= k < |items| && items[k] == Dots ensures k == 2 || k == |items| - 3 {
      if k < |head| {
        assert items[k] == head[k];
      } else if k >= |head| + |w| {
        assert items[k] == tail[k - |head| - |w|];
      }
    }
    if cur <= 2 {
      if |w| > 0 {
        assert items[2] == w[0];
      } else if tp > 1 {
        assert items[2] == tail[|c|];
      } else {
        assert items[2] == tail[0];
      }
    }
    if tp > 1 {
      assert items[|items| - 2] == PageBtn(tp, cur == tp);
      if cur >= tp - 1 {
        if |w| > 0 {
          assert items[|items| - 3] == w[|w| - 1];
        } else {
          assert items[|items| - 3] == head[|head| - 1];
        }
      }
    }
  }

  /**
   * The ellipses of `renderPagination` are shown on a condition that does not look at
   * the gap: on page 3 a leading ellipsis stands between page 1 and page 2,
   * though no page is hidden there.
   */
  lemma LeadingDotsWithoutGap(tp: int)
    requires tp >= 3
    ensures Controls(3, tp)[1..4] == [PageBtn(1, false), Dots, PageBtn(2, false)]
  {
  }

  /** Likewise on page tp - 2 a trailing ellipsis stands between page tp - 1 and page tp. */
  lemma TrailingDotsWithoutGap(tp: int)
    requires tp >= 3
    ensures var items := Controls(tp - 2, tp);
            items[|items| - 4..|items| - 1] == [PageBtn(tp - 1, false), Dots, PageBtn(tp, false)]
  {
  }

  /**
   * From a page in `[1, tp]`, every entry of the bar that navigates at all
   * navigates to a page in `[1, tp]`.
   */
  lemma ClickTargetsInRange(cur: int, tp: int)
    requires 1 <= cur <= tp
    ensures forall it :: it in Controls(cur, tp) && ClickTarget(it).Some? ==> 1 <= ClickTarget(it).value <= tp
  {
  }

  // ---------------------------------------------------------------------------
  // Worked examples
  // ---------------------------------------------------------------------------

  /** 100 rows on page 5: previous, 1, ..., 4, 5, 6, ..., 10, next. */
  lemma HundredRowsOnPageFive()
    ensures TotalPages(100) == 10
    ensures Controls(5, 10) == [Prev(4, false), PageBtn(1, false), Dots, PageBtn(4, false),
                                PageBtn(5, true), PageBtn(6, false), Dots, PageBtn(10, false), Next(6, false)]
  {
  }

  /** 25 rows on page 1: previous (disabled), 1, 2, ..., 3, next; page 3 holds rows 21 to 25. */
  lemma TwentyFiveRowsOnPageOne<T>(s: seq<T>)
    requires |s| == 25
    ensures TotalPages(|s|) == 3
    ensures Controls(1, 3) == [Prev(1, true), PageBtn(1, true), PageBtn(2, false), Dots,
                               PageBtn(3, false), Next(2, false)]
    ensures PageSlice(s, 1) == s[..10] && PageSlice(s, 3) == s[20..]
  {
  }
}
