/** The ticket table of the "view records" tab: the filter option lists, the
    conjunctive status/staff filter and the three metrics shown above the
    filtered table. The table is built once and never changed, so everything
    here is a function of it. */
module Tickets {
  import opened Frame

  /** One ticket row; the fields are the columns 票號ID, 客戶名稱, 聯絡電話,
      狀態 and 員工. */
  datatype Ticket = Ticket(
    ticketId: string,
    customerName: string,
    phone: string,
    status: string,
    staff: string)

  type Table = seq<Ticket>

  /** The status literals the page knows. */
  const Unread: string := "未讀"
  const InProgress: string := "處理中"
  const Completed: string := "已完成"

  /** The 狀態 column. */
  function StatusColumn(t: Table): seq<string>
  {
    seq(|t|, i requires 0 <= i < |t| => t[i].status)
  }

  /** The 員工 column. */
  function StaffColumn(t: Table): seq<string>
  {
    seq(|t|, i requires 0 <= i < |t| => t[i].staff)
  }

  // ---------------------------------------------------------------------------
  // Option lists
  // ---------------------------------------------------------------------------

  /** Options, and default selection, of the status filter. */
  function StatusOptions(t: Table): (opts: seq<string>)
    ensures NoDuplicates(opts)
    ensures forall i :: 0 <= i < |t| ==> t[i].status in opts
    ensures forall k :: 0 <= k < |opts| ==> exists i :: 0 <= i < |t| && t[i].status == opts[k]
    ensures IsDistinctInFirstSeenOrder(opts, StatusColumn(t))
  {
    ColumnOptionsCover(t, StatusColumn(t), (row: Ticket) => row.status);
    Unique(StatusColumn(t))
  }

  /** Options, and default selection, of the staff filter; also the choices
      of the staff select box on the new-record form. */
  function StaffOptions(t: Table): (opts: seq<string>)
    ensures NoDuplicates(opts)
    ensures forall i :: 0 <= i < |t| ==> t[i].staff in opts
    ensures forall k :: 0 <= k < |opts| ==> exists i :: 0 <= i < |t| && t[i].staff == opts[k]
    ensures IsDistinctInFirstSeenOrder(opts, StaffColumn(t))
  {
    ColumnOptionsCover(t, StaffColumn(t), (row: Ticket) => row.staff);
    Unique(StaffColumn(t))
  }

  /** For a column projected from the rows by `field`: each row's value is
      listed, and each listed value is some row's. */
  lemma ColumnOptionsCover(t: Table, col: seq<string>, field: Ticket -> string)
    requires |col| == |t|
    requires forall i :: 0 <= i < |t| ==> col[i] == field(t[i])
    ensures forall i :: 0 <= i < |t| ==> field(t[i]) in Unique(col)
    ensures forall k :: 0 <= k < |Unique(col)| ==>
      exists i :: 0 <= i < |t| && field(t[i]) == Unique(col)[k]
  {
    var u := Unique(col);
    forall i | 0 <= i < |t| ensures field(t[i]) in u {
      assert col[i] == field(t[i]);
    }
    forall k | 0 <= k < |u| ensures exists i :: 0 <= i < |t| && field(t[i]) == u[k] {
      var i :| 0 <= i < |col| && col[i] == u[k];
    }
  }

  // ---------------------------------------------------------------------------
  // Filter
  // ---------------------------------------------------------------------------

  /** The filter condition for one row: its status is selected and its staff
      member is selected. An empty selection on either axis matches nothing. */
  predicate Matches(row: Ticket, statuses: seq<string>, staff: seq<string>)
  {
    row.status in statuses && row.staff in staff
  }

  /** `df["狀態"].isin(statuses) & df["員工"].isin(staff)` */
  function FilterMask(t: Table, statuses: seq<string>, staff: seq<string>): seq<bool>
  {
    And(IsIn(StatusColumn(t), statuses), IsIn(StaffColumn(t), staff))
  }

  /** The filtered table: the rows that match both selections, in table order. */
  function Filter(t: Table, statuses: seq<string>, staff: seq<string>): (r: Table)
    ensures IsSubsequence(r, t)
    ensures forall row :: row in r <==> row in t && Matches(row, statuses, staff)
  {
    FilterSelectsMatching(t, statuses, staff);
    Select(t, FilterMask(t, statuses, staff))
  }

  /** The filter keeps precisely the rows that match, at their positions. */
  lemma FilterSelectsMatching(t: Table, statuses: seq<string>, staff: seq<string>)
    ensures var r, idx := Select(t, FilterMask(t, statuses, staff)), KeptIndices(FilterMask(t, statuses, staff));
      && SubsequenceAt(r, t, idx)
      && (forall i :: 0 <= i < |t| ==> (i in idx <==> Matches(t[i], statuses, staff)))
      && (forall row :: row in r <==> row in t && Matches(row, statuses, staff))
  {
    var m := FilterMask(t, statuses, staff);
    SelectAt(t, m);
    forall row
      ensures row in Select(t, m) <==> row in t && Matches(row, statuses, staff)
    {
      SelectMembership(t, m, row);
    }
  }

  /** Row `i` is kept iff it matches, and the kept rows appear in table order. */
  lemma FilterKeepsExactlyMatchingRows(t: Table, statuses: seq<string>, staff: seq<string>)
    ensures exists idx ::
      && SubsequenceAt(Filter(t, statuses, staff), t, idx)
      && (forall i :: 0 <= i < |t| ==> (i in idx <==> Matches(t[i], statuses, staff)))
  {
    FilterSelectsMatching(t, statuses, staff);
    var idx := KeptIndices(FilterMask(t, statuses, staff));
    assert SubsequenceAt(Filter(t, statuses, staff), t, idx);
  }

  /** With the default selections, every distinct status and every distinct
      staff member, the whole table is shown unchanged. */
  lemma {:induction false} DefaultSelectionShowsAll(t: Table)
    ensures Filter(t, StatusOptions(t), StaffOptions(t)) == t
  {
    var m := FilterMask(t, StatusOptions(t), StaffOptions(t));
    forall i | 0 <= i < |m| ensures m[i] {
      assert t[i].status in StatusOptions(t) && t[i].staff in StaffOptions(t);
    }
    SelectAllTrue(t, m);
  }

  /** `isin([])` is false everywhere, so clearing either selection empties
      the view. */
  lemma {:induction false} EmptySelectionShowsNothing(t: Table, statuses: seq<string>, staff: seq<string>)
    requires statuses == [] || staff == []
    ensures Filter(t, statuses, staff) == []
  {
    SelectAllFalse(t, FilterMask(t, statuses, staff));
  }

  /** Only which values are selected matters, not their order or repetition. */
  lemma {:induction false} FilterDependsOnlyOnSelectedValues(
    t: Table, s1: seq<string>, f1: seq<string>, s2: seq<string>, f2: seq<string>)
    requires forall x :: x in s1 <==> x in s2
    requires forall x :: x in f1 <==> x in f2
    ensures Filter(t, s1, f1) == Filter(t, s2, f2)
  {
    assert FilterMask(t, s1, f1) == FilterMask(t, s2, f2);
  }

  /** Filtering the filtered table again with the same selections changes nothing. */
  lemma {:induction false} FilterIdempotent(t: Table, statuses: seq<string>, staff: seq<string>)
    ensures Filter(Filter(t, statuses, staff), statuses, staff) == Filter(t, statuses, staff)
  {
    var r := Filter(t, statuses, staff);
    var m := FilterMask(r, statuses, staff);
    forall i | 0 <= i < |m| ensures m[i] {
      assert r[i] in r;
    }
    SelectAllTrue(r, m);
  }

  // ---------------------------------------------------------------------------
  // Metrics
  // ---------------------------------------------------------------------------

  /** The three figures above the table: 總記錄數 (rows shown), 待處理 (rows
      shown whose status is 未讀) and 已完成 (rows shown whose status is 已完成). */
  datatype Metrics = Metrics(total: nat, pending: nat, completed: nat)

  /** The metrics of a (filtered) view, each one the length of a selection. */
  function ComputeMetrics(view: Table): (m: Metrics)
    ensures m.total == |view|
    ensures m.pending == multiset(StatusColumn(view))[Unread]
    ensures m.completed == multiset(StatusColumn(view))[Completed]
    ensures m.pending <= m.total && m.completed <= m.total
    ensures m.pending + m.completed <= m.total
  {
    var col := StatusColumn(view);
    var unread, done := EqualTo(col, Unread), EqualTo(col, Completed);
    SelectCountsEqual(view, col, Unread);
    SelectCountsEqual(view, col, Completed);
    SelectDisjointBound(view, unread, done);
    Metrics(|view|, |Select(view, unread)|, |Select(view, done)|)
  }

  /** Selecting rows by `col == v` yields as many rows as `v` occurs in `col`. */
  lemma SelectCountsEqual(t: Table, col: seq<string>, v: string)
    requires |col| == |t|
    ensures |Select(t, EqualTo(col, v))| == multiset(col)[v]
  {
    SelectLength(t, EqualTo(col, v));
    SelectLength(col, EqualTo(col, v));
    CountEqual(col, v);
  }

  /** The metrics shown on the page for the given selections. */
  function ViewMetrics(t: Table, statuses: seq<string>, staff: seq<string>): (m: Metrics)
    ensures m.total == |Filter(t, statuses, staff)|
    ensures Unread !in statuses ==> m.pending == 0
    ensures Completed !in statuses ==> m.completed == 0
    ensures m.pending + m.completed <= m.total
  {
    var view := Filter(t, statuses, staff);
    NoSelectedStatusNoCount(view, statuses, Unread);
    NoSelectedStatusNoCount(view, statuses, Completed);
    ComputeMetrics(view)
  }

  /** A status that no row of the view carries is counted zero times. */
  lemma NoSelectedStatusNoCount(view: Table, statuses: seq<string>, v: string)
    requires forall row :: row in view ==> row.status in statuses
    ensures v !in statuses ==> multiset(StatusColumn(view))[v] == 0
  {
    var col := StatusColumn(view);
    forall i | 0 <= i < |col| ensures col[i] in statuses {
      assert view[i] in view;
    }
  }

  /** With the default selections the metrics describe the whole table. */
  lemma DefaultViewMetrics(t: Table)
    ensures ViewMetrics(t, StatusOptions(t), StaffOptions(t)) == ComputeMetrics(t)
  {
    DefaultSelectionShowsAll(t);
  }

  // ---------------------------------------------------------------------------
  // The demo table
  // ---------------------------------------------------------------------------

  /** The three demo rows the page is built from. */
  const Sample: Table := [
    Ticket("TK001", "王後涅", "0912-345-678", InProgress, "師傄斯"),
    Ticket("TK002", "漢处光", "0923-456-789", Completed, "太郎"),
    Ticket("TK003", "李良", "0934-567-890", Unread, "久美")
  ]

  /** The status filter offers each demo status once, in row order. */
  lemma SampleStatusOptions()
    ensures StatusOptions(Sample) == [InProgress, Completed, Unread]
  {
    assert StatusColumn(Sample) == [InProgress, Completed, Unread];
    UniqueIsDetermined(StatusColumn(Sample), [InProgress, Completed, Unread]);
  }

  /** The staff filter, and the form's staff box, offer each demo staff member once. */
  lemma SampleStaffOptions()
    ensures StaffOptions(Sample) == ["師傄斯", "太郎", "久美"]
  {
    assert StaffColumn(Sample) == ["師傄斯", "太郎", "久美"];
    UniqueIsDetermined(StaffColumn(Sample), ["師傄斯", "太郎", "久美"]);
  }

  /** The default demo view shows 3 records, 1 of them unread and 1 completed. */
  lemma SampleDefaultMetrics()
    ensures ViewMetrics(Sample, StatusOptions(Sample), StaffOptions(Sample)) == Metrics(3, 1, 1)
  {
    DefaultViewMetrics(Sample);
    SampleMetrics();
  }

  lemma SampleMetrics()
    ensures ComputeMetrics(Sample) == Metrics(3, 1, 1)
  {
    var col := StatusColumn(Sample);
    assert col == [InProgress, Completed, Unread];
    assert multiset(col) == multiset{InProgress, Completed, Unread};
  }
}
