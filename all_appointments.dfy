/**
 * The admin "all appointments" screen: the current page it keeps as state,
 * how the page controls change it, and what one render shows.
 */
module AllAppointments {
  import opened Wrappers
  import opened Pagination
  import opened Display

  /** What the list area shows: a loading spinner, the rows of the page, or the "no appointments" message. */
  datatype ListBody = Spinner | Rows(rows: seq<Row>) | NoAppointments

  class AppointmentList {
    /** The context's appointment collection, as this screen reads it; the screen never changes it. */
    const appointments: seq<Appointment>
    /** The 1-based page being shown (`currentPage`). */
    var currentPage: int

    /** The current page lies in `[1, max(1, totalPages)]`. */
    ghost predicate Valid()
      reads this
    {
      1 <= currentPage <= Max(1, TotalPages(|appointments|))
    }

    /** The screen starts on page 1. */
    constructor (appointments: seq<Appointment>)
      ensures this.appointments == appointments
      ensures currentPage == 1
      ensures Valid()
    {
      this.appointments := appointments;
      currentPage := 1;
    }

    /** `paginate`: sets the current page to the number it is given, as it is given. */
    method Paginate(pageNumber: int)
      modifies this
      ensures currentPage == pageNumber
    {
      currentPage := pageNumber;
    }

    /**
     * A click on an entry of the rendered control bar: an enabled previous or
     * next button or a page button paginates to its target; an ellipsis or a
     * disabled button does nothing. The current page stays in range.
     */
    method Click(item: PageItem)
      requires Valid()
      requires ControlsShown(|appointments|)
      requires item in Controls(currentPage, TotalPages(|appointments|))
      modifies this
      ensures Valid()
      ensures ClickTarget(item).Some? ==> currentPage == ClickTarget(item).value
      ensures ClickTarget(item).None? ==> currentPage == old(currentPage)
    {
      ClickTargetsInRange(currentPage, TotalPages(|appointments|));
      match ClickTarget(item)
      case Some(p) =>
        Paginate(p);
      case None =>
    }

    /**
     * One render of the screen. The list area shows the spinner while loading,
     * otherwise one row per appointment of the current page (numbered from 1
     * on every page) or the "no appointments" message when that page is empty;
     * while the current page is in range that message means the list is empty.
     * The control bar is present exactly when the list has at least ten rows.
     */
    method Render(isLoading: bool) returns (body: ListBody, controls: Option<seq<PageItem>>)
      ensures controls.Some? <==> ControlsShown(|appointments|)
      ensures controls.Some? ==> controls.value == Controls(currentPage, TotalPages(|appointments|))
      ensures isLoading ==> body == Spinner
      ensures !isLoading && PageSlice(appointments, currentPage) == [] ==> body == NoAppointments
      ensures !isLoading && PageSlice(appointments, currentPage) != [] ==>
                body.Rows? && |body.rows| == |PageSlice(appointments, currentPage)|
      ensures body.Rows? ==> forall k :: 0 <= k < |body.rows| ==>
                body.rows[k] == RenderRow(k, PageSlice(appointments, currentPage)[k]) && body.rows[k].number == k + 1
      ensures Valid() && !isLoading ==> (body == NoAppointments <==> appointments == [])
    {
      var page := PageSlice(appointments, currentPage);
      if isLoading {
        body := Spinner;
      } else if |page| > 0 {
        body := Rows(seq(|page|, k requires 0 <= k < |page| => RenderRow(k, page[k])));
      } else {
        body := NoAppointments;
      }
      if Valid() {
        CurrentPageEmptyIffNoRows(appointments, currentPage);
      }
      if |appointments| >= 10 {
        var items := RenderPagination(currentPage, TotalPages(|appointments|));
        controls := Some(items);
      } else {
        controls := None;
      }
    }
  }
}
