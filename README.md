# Admin appointment list: pagination model

A Dafny model of the client-side pagination of the clinic admin's "all
appointments" screen (`AllAppointments`), with the small rules that decide how
each appointment row is displayed.

- `Pagination` (pagination.dfy): the page count `ceil(N / 10)`, the page slice
  taken with JavaScript's `Array.prototype.slice` semantics, the control bar
  (`PageItem`: previous, page buttons, ellipses, next) built by
  `RenderPagination` with a loop that appends one entry at a time, and what a
  click on each entry navigates to.
- `Display` (display.dfy): an appointment record, the status badge (three
  badges or none) and the shift label and colour.
- `AllAppointments` (all_appointments.dfy): the screen as a class holding
  `currentPage`; `Paginate`, `Click` on a rendered control, and `Render`,
  which yields the list body and, for lists of ten rows or more, the control
  bar.

The loading flag is an input of `Render`. The appointment list is a constructor
argument: the screen only reads the collection that the shared context owns.

Where the screen's evident intent and its code part ways, the model follows
the code:

- The ellipses are shown when `currentPage > 2` and when
  `currentPage < totalPages - 1`, without checking that a page is actually
  hidden. With 25 appointments on page 1 the bar is "1 2 … 3", not "1 … 3",
  and on page 3 an ellipsis stands between pages 1 and 2
  (`LeadingDotsWithoutGap`, `TrailingDotsWithoutGap`).
- `paginate` does not clamp its argument. Clamping happens only in the targets
  of the previous and next buttons. The current page stays in range because
  every rendered control's target is in range (`ClickTargetsInRange`).
- With exactly ten appointments the bar is shown with a single page, and both
  arrows are disabled.
- Row numbers are positions on the current page, so they start again at 1 on
  every page.

## Model

| member | source | states |
|---|---|---|
| Pagination.TotalPages | admin/src/pages/Admin/AllAppointments.jsx:12 | the page count is the ceiling of N/10: the least t with t*10 >= N; 0 exactly for an empty list, at least 1 once the controls' threshold of 10 is reached |
| Pagination.JsSlice | admin/src/pages/Admin/AllAppointments.jsx:30-33 | never longer than the list; for 0 <= start <= end the rows `[min(start,N), min(end,N))`; for -N <= start <= end < 0 the rows `[N+start, N+end)`, counted from the end; a start before -N clipped to 0; empty when 0 <= end <= start |
| Pagination.PageSlice | admin/src/pages/Admin/AllAppointments.jsx:28-33 | the current page has at most 10 rows; from page 1 on it is exactly the rows at indices `[(cur-1)*10, min(cur*10, N))` |
| Pagination.PagesUpToIsPrefix | admin/src/pages/Admin/AllAppointments.jsx:28-33 | pages 1..k laid end to end are the first min(10k, N) rows |
| Pagination.PagesCoverList | admin/src/pages/Admin/AllAppointments.jsx:12-33 | concatenating pages 1..totalPages in order gives back the whole list |
| Pagination.RowCountsSumToLength | admin/src/pages/Admin/AllAppointments.jsx:12-33 | the row counts of pages 1..totalPages add up to N |
| Pagination.RowsAreLengthOfPages | admin/src/pages/Admin/AllAppointments.jsx:28-33 | the running row count of pages 1..k is the length of their concatenation |
| Pagination.PageSizes | admin/src/pages/Admin/AllAppointments.jsx:12-33 | every page before the last holds 10 rows, the last holds the remaining 1 to 10, later pages are empty |
| Pagination.CurrentPageEmptyIffNoRows | admin/src/pages/Admin/AllAppointments.jsx:12-33 | for a page in `[1, max(1, totalPages)]`, the page is empty exactly when the list is |
| Pagination.RenderPagination | admin/src/pages/Admin/AllAppointments.jsx:41-146 | the loop of pushes yields prev, page 1, a leading ellipsis iff cur > 2, the pages max(2,cur-1)..min(tp-1,cur+1), a trailing ellipsis iff cur < tp-1, page tp iff tp > 1, next |
| Pagination.ControlsShown | admin/src/pages/Admin/AllAppointments.jsx:230 | the control bar is not rendered for fewer than 10 rows, and whenever it is rendered there is at least one page |
| Pagination.Controls | admin/src/pages/Admin/AllAppointments.jsx:41-146 | the bar has 3 to 9 entries, starts with the previous button and page 1 (highlighted iff cur = 1) and ends with the next button |
| Pagination.ClickTarget | admin/src/pages/Admin/AllAppointments.jsx:48-137 | an ellipsis or a disabled arrow fires nothing; a page button goes to its number; an enabled arrow goes to its target |
| Pagination.ControlNumbers | admin/src/pages/Admin/AllAppointments.jsx:61-125 | the bar's page numbers are 1, then the window, then tp when tp > 1 |
| Pagination.ControlPagesOrdered | admin/src/pages/Admin/AllAppointments.jsx:61-125 | for tp >= 1 and any current page the page numbers begin with 1, strictly increase, lie in [1, tp], end with tp when tp > 1 and number at most 5 |
| Pagination.CurrentPageListedOnce | admin/src/pages/Admin/AllAppointments.jsx:61-125 | for 1 <= cur <= tp the current page appears among the page numbers exactly once |
| Pagination.WindowIsExact | admin/src/pages/Admin/AllAppointments.jsx:82-99 | a page strictly between 1 and tp is shown iff it lies in max(2,cur-1)..min(tp-1,cur+1) |
| Pagination.ActiveOnlyOnCurrent | admin/src/pages/Admin/AllAppointments.jsx:61-125 | a page button is highlighted exactly when its number is the current page |
| Pagination.PrevAndNext | admin/src/pages/Admin/AllAppointments.jsx:44-141 | prev is first, targets max(1,cur-1) and is disabled iff cur = 1; next is last, targets min(tp,cur+1) and is disabled iff cur = tp; no other entry is an arrow; from a page in range both targets are in range and an enabled arrow moves one page |
| Pagination.DotsPlacement | admin/src/pages/Admin/AllAppointments.jsx:73-108 | for 1 <= cur <= tp there is an ellipsis right after page 1 iff cur > 2, one right before the last page iff cur < tp-1, and no other |
| Pagination.LeadingDotsWithoutGap | admin/src/pages/Admin/AllAppointments.jsx:73-99 | on page 3 the bar reads 1, …, 2: an ellipsis with no hidden page |
| Pagination.TrailingDotsWithoutGap | admin/src/pages/Admin/AllAppointments.jsx:82-125 | on page tp-2 the bar reads tp-1, …, tp: an ellipsis with no hidden page |
| Pagination.ClickTargetsInRange | admin/src/pages/Admin/AllAppointments.jsx:41-146 | from a page in [1, tp], every control that navigates goes to a page in [1, tp] |
| Pagination.HundredRowsOnPageFive | admin/src/pages/Admin/AllAppointments.jsx:41-146 | 100 rows on page 5 give prev, 1, …, 4, 5, 6, …, 10, next |
| Pagination.TwentyFiveRowsOnPageOne | admin/src/pages/Admin/AllAppointments.jsx:12-146 | 25 rows make 3 pages; page 1 shows rows 1-10, page 3 rows 21-25; the bar on page 1 is prev (disabled), 1, 2, …, 3, next |
| Display.StatusBadge | admin/src/pages/Admin/AllAppointments.jsx:207-219 | a badge is shown only for the status it stands for, and none exactly when the status is not canceled, confirmed or pending |
| Display.StatusBadgeRoundTrip | admin/src/pages/Admin/AllAppointments.jsx:207-219 | each badge is produced by its own status value and by no other |
| Display.BadgesDistinct | admin/src/pages/Admin/AllAppointments.jsx:207-219 | the badges "Đã hủy", "Đã xác nhận", "Chờ xác nhận" differ in text and colour (red, green, yellow) |
| Display.ShiftLabel | admin/src/pages/Admin/AllAppointments.jsx:201 | the label is "Sáng" iff the shift is "morning", otherwise "Chiều" |
| Display.ShiftColour | admin/src/pages/Admin/AllAppointments.jsx:198 | the colour is orange iff the shift is "afternoon", otherwise blue |
| Display.RenderRow | admin/src/pages/Admin/AllAppointments.jsx:168-221 | a row is numbered its position on the page plus one, carries the doctor's and patient's names and the raw date, reads "Sáng" iff morning, is orange iff afternoon, and shows the badge of its own status or none for any other status |
| Display.ShiftLabelAndColour | admin/src/pages/Admin/AllAppointments.jsx:198-201 | the two shifts get matching label and colour; any other value reads "Chiều" in blue, and only such values do |
| AllAppointments.AppointmentList.constructor | admin/src/pages/Admin/AllAppointments.jsx:8 | the screen starts on page 1, which is in range |
| AllAppointments.AppointmentList.Paginate | admin/src/pages/Admin/AllAppointments.jsx:35-38 | the current page becomes the given number, unclamped |
| AllAppointments.AppointmentList.Click | admin/src/pages/Admin/AllAppointments.jsx:41-146 | clicking a rendered control goes to its target (nothing for an ellipsis or a disabled arrow) and keeps the current page in [1, max(1, totalPages)] |
| AllAppointments.AppointmentList.Render | admin/src/pages/Admin/AllAppointments.jsx:163-230 | spinner while loading, else the page's rows numbered from 1 or the empty message, which in range means the list is empty; the control bar exactly when N >= 10 |

## Left out

- Markup, CSS classes and layout: only labels, colours and the active and
  disabled flags are kept.
- The fetch through the shared context, the credential gate and the way the
  loading flag is set and cleared: these are asynchronous calls into code that
  is not part of this model. The loading flag is an input of `Render`, and the
  appointment list is fixed for an instance, so a reload that shrinks the list
  under a later page is not modelled.
- The `?page=` navigation performed by `paginate`: it is routing output that
  nothing reads back; only the `currentPage` update is modelled.
- `formatDate`: it depends on the JavaScript date parser and the `vi-VN`
  locale formatting. Rows carry the raw `work_date` string.
- The doctor's schedule editing screen (admin/src/pages/Doctor/EditWorkSchedule.jsx):
  it is asynchronous glue over context calls and a third-party date picker,
  and its only computation is a time-zone dependent date conversion.
- Row keys (the index in the page) are a rendering concern and are not modelled.
