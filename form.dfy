/** The "new record" tab: a form with three text fields, two select boxes and a
    notes area, whose submit button only checks that the two required fields
    are filled in. The demo has no storage behind it, so a successful save
    shows a confirmation and nothing else. */
module NewRecordForm {
  import opened Tickets

  datatype Option<T> = None | Some(value: T)

  /** The status select box's choices, in display order, and its preselected position. */
  const StatusChoices: seq<string> := [Unread, InProgress, Completed]
  const DefaultStatusIndex: nat := 0

  /** A select box with the option at `index` chosen. With no options there is
      nothing to choose and the box yields no value. */
  function SelectBox(options: seq<string>, index: nat): (r: Option<string>)
    requires options == [] || index < |options|
    ensures r.Some? <==> options != []
    ensures r.Some? ==> r.value in options && r.value == options[index]
  {
    if options == [] then None else Some(options[index])
  }

  /** What the form holds when the save button is pressed. */
  datatype Form = Form(
    ticketId: string,
    customerName: string,
    phone: string,
    status: Option<string>,
    staff: Option<string>,
    notes: string)

  /** The form filled in over table `t`: free text as typed, and in each
      select box the position the user left selected. */
  function FillForm(
    t: Table, ticketId: string, customerName: string, phone: string,
    statusIndex: nat, staffIndex: nat, notes: string): (f: Form)
    requires statusIndex < |StatusChoices|
    requires StaffOptions(t) == [] || staffIndex < |StaffOptions(t)|
    ensures f.status.Some? && f.status.value in {Unread, InProgress, Completed}
    ensures statusIndex == DefaultStatusIndex ==> f.status == Some(Unread)
    ensures f.staff.Some? <==> t != []
    ensures f.staff.Some? ==> f.staff.value in StaffOptions(t)
    ensures f.staff.Some? ==> exists i :: 0 <= i < |t| && t[i].staff == f.staff.value
    ensures f.ticketId == ticketId && f.customerName == customerName
    ensures f.phone == phone && f.notes == notes
  {
    Form(ticketId, customerName, phone,
         SelectBox(StatusChoices, statusIndex),
         SelectBox(StaffOptions(t), staffIndex),
         notes)
  }

  /** The message shown after pressing save. */
  datatype SaveOutcome = Saved(ticketId: string) | MissingRequiredFields

  /** Pressing save: the ticket table afterwards, and the message shown. */
  function Submit(t: Table, f: Form): (r: (Table, SaveOutcome))
    ensures r.0 == t
    ensures r.1.Saved? <==> |f.ticketId| > 0 && |f.customerName| > 0
    ensures r.1.Saved? ==> r.1.ticketId == f.ticketId
  {
    (t, if f.ticketId != "" && f.customerName != "" then Saved(f.ticketId) else MissingRequiredFields)
  }

  /** Phone, status, staff and notes are never checked: two forms that agree
      on ticket id and customer name are accepted or refused alike. */
  lemma SubmitChecksOnlyRequiredFields(t: Table, f: Form, g: Form)
    requires f.ticketId == g.ticketId && f.customerName == g.customerName
    ensures Submit(t, f) == Submit(t, g)
  {
  }

  /** Whatever is submitted, the page afterwards shows exactly what it showed
      before: the same option lists, the same filtered rows, the same metrics. */
  lemma SubmitLeavesViewUnchanged(t: Table, f: Form, statuses: seq<string>, staff: seq<string>)
    ensures var after := Submit(t, f).0;
      && StatusOptions(after) == StatusOptions(t)
      && StaffOptions(after) == StaffOptions(t)
      && Filter(after, statuses, staff) == Filter(t, statuses, staff)
      && ViewMetrics(after, statuses, staff) == ViewMetrics(t, statuses, staff)
  {
  }

  /** A form left at its defaults on the demo table: status 未讀 and the first
      staff member preselected; it is refused while the required fields are empty. */
  lemma SampleDefaultForm()
    ensures var f := FillForm(Sample, "", "", "", DefaultStatusIndex, 0, "");
      && f.status == Some(Unread)
      && f.staff == Some("師傄斯")
      && Submit(Sample, f).1 == MissingRequiredFields
  {
    SampleStaffOptions();
  }
}
