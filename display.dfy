/**
 * How one appointment is displayed as a row of the admin list: its shift
 * label and colour, and its status badge.
 */
module Display {
  import opened Wrappers

  /**
   * An appointment as the list reads it. `workShift` and `status` are kept as
   * the raw strings the backend sends, since the display compares them with
   * string literals and has a fall-through for any other value.
   */
  datatype Appointment = Appointment(
    doctorName: string,
    patientName: string,
    workDate: string,
    workShift: string,
    status: string)

  /** The colours the row uses for its shift pill and its status badge. */
  datatype Colour = Red | Green | Yellow | Orange | Blue

  /** The three status badges. */
  datatype Badge = Canceled | Confirmed | Pending

  /** The status value each badge stands for. */
  function BadgeStatus(b: Badge): string
  {
    match b
    case Canceled => "canceled"
    case Confirmed => "confirmed"
    case Pending => "pending"
  }

  /** The badge's text. */
  function BadgeLabel(b: Badge): string
  {
    match b
    case Canceled => "Đã hủy"
    case Confirmed => "Đã xác nhận"
    case Pending => "Chờ xác nhận"
  }

  /** The badge's background colour. */
  function BadgeColour(b: Badge): Colour
  {
    match b
    case Canceled => Red
    case Confirmed => Green
    case Pending => Yellow
  }

  /**
   * The badge rendered for a status: the chain of comparisons with
   * "canceled", "confirmed" and "pending", and nothing for any other value.
   * A badge is shown exactly for the status it stands for.
   */
  function StatusBadge(status: string): (b: Option<Badge>)
    ensures b.Some? ==> BadgeStatus(b.value) == status
    ensures b.None? <==> status != "canceled" && status != "confirmed" && status != "pending"
  {
    if status == "canceled" then Some(Canceled)
    else if status == "confirmed" then Some(Confirmed)
    else if status == "pending" then Some(Pending)
    else None
  }

  /** Every badge is reached from its own status value, and from no other. */
  lemma StatusBadgeRoundTrip(b: Badge, status: string)
    ensures StatusBadge(BadgeStatus(b)) == Some(b)
    ensures StatusBadge(status) == Some(b) <==> status == BadgeStatus(b)
  {
  }

  /** The three badges differ in text and in colour. */
  lemma BadgesDistinct(b1: Badge, b2: Badge)
    ensures BadgeLabel(b1) == BadgeLabel(b2) <==> b1 == b2
    ensures BadgeColour(b1) == BadgeColour(b2) <==> b1 == b2
  {
  }

  /** The shift text: "Sáng" (morning) for "morning", "Chiều" (afternoon) for every other value. */
  function ShiftLabel(workShift: string): (text: string)
    ensures text == "Sáng" <==> workShift == "morning"
    ensures text == "Sáng" || text == "Chiều"
  {
    if workShift == "morning" then "Sáng" else "Chiều"
  }

  /** The shift pill's colour: orange for "afternoon", blue for every other value. */
  function ShiftColour(workShift: string): (c: Colour)
    ensures c == Orange <==> workShift == "afternoon"
    ensures c == Orange || c == Blue
  {
    if workShift == "afternoon" then Orange else Blue
  }

  /**
   * Label and colour test different values, so they agree on the two shifts
   * ("Sáng" in blue, "Chiều" in orange) and disagree on everything else: an
   * unknown shift reads "Chiều" in the morning colour.
   */
  lemma ShiftLabelAndColour(workShift: string)
    ensures workShift == "morning" ==> ShiftLabel(workShift) == "Sáng" && ShiftColour(workShift) == Blue
    ensures workShift == "afternoon" ==> ShiftLabel(workShift) == "Chiều" && ShiftColour(workShift) == Orange
    ensures ShiftLabel(workShift) == "Chiều" && ShiftColour(workShift) == Blue
            <==> workShift != "morning" && workShift != "afternoon"
  {
  }

  /**
   * One row of the list. `number` is the row's position on its page plus one,
   * so numbering starts again at 1 on every page. The date is kept as the raw
   * `work_date` string.
   */
  datatype Row = Row(
    number: nat,
    doctorName: string,
    patientName: string,
    workDate: string,
    shiftLabel: string,
    shiftColour: Colour,
    badge: Option<Badge>)

  /** The row for the appointment at position `index` of the current page. */
  function RenderRow(index: nat, a: Appointment): (r: Row)
    ensures r.number == index + 1
    ensures r.doctorName == a.doctorName && r.patientName == a.patientName && r.workDate == a.workDate
    ensures r.shiftLabel == "Sáng" <==> a.workShift == "morning"
    ensures r.shiftColour == Orange <==> a.workShift == "afternoon"
    ensures r.badge.Some? ==> BadgeStatus(r.badge.value) == a.status
    ensures r.badge.None? <==> a.status != "canceled" && a.status != "confirmed" && a.status != "pending"
  {
    Row(index + 1, a.doctorName, a.patientName, a.workDate,
        ShiftLabel(a.workShift), ShiftColour(a.workShift), StatusBadge(a.status))
  }
}
