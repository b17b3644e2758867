# Ticket tracker: table queries and form validation

A model of the data logic of the customer-service ticket page in `app.py`.
The page holds one ticket table (columns 票號ID ticket id, 客戶名稱 customer
name, 聯絡電話 phone, 狀態 status, 員工 staff), built once and never changed.
Its first tab lets the user pick statuses and staff members from lists of the
distinct values of those columns, shows the rows that match both picks and
three figures about them. Its second tab is a form for a new record whose save
button only checks the two required fields; the demo has no storage, so a
save changes nothing.

Everything is pure: the table is a `seq<Ticket>` and every operation a
function of it, with lemmas for the properties.

- `frame.dfy`, module `Frame`: plain sequence semantics of the data-frame
  operations the page uses: `isin` and `==` masks, `&`, boolean-mask row
  selection and `unique()`, which lists distinct values in first-seen order.
- `tickets.dfy`, module `Tickets`: the ticket row, the option lists, the
  conjunctive filter, the metrics and the three-row demo table.
- `form.dfy`, module `NewRecordForm`: the select boxes, the form and the
  save check.

Behaviour of the page that the model keeps as written:

- An empty selection on either filter matches nothing, because `isin([])` is
  false for every row. It does not mean "no restriction".
- The status literals are the form's three: 未讀 (unread), 處理中 (in
  progress) and 已完成 (completed).
- The metric labelled 待處理 ("pending") counts the shown rows whose status
  is 未讀 (unread). The 已完成 metric counts completed rows among the shown
  rows, not in the whole table. Only the total and these two counts are
  shown.
- A save is accepted iff the ticket id and the customer name are both
  non-empty, as Python's truthiness of strings decides; a field holding only
  spaces is therefore accepted.
- Saving a valid form creates nothing: the table is the same afterwards.

## Model

| member | source | states |
|---|---|---|
| Frame.SelectAt | app.py:42 | boolean-mask selection keeps exactly the rows at the true positions of the mask, in table order, and nothing else |
| Frame.SelectMembership | app.py:42 | a value is in the selection iff it is the row at some position where the mask is true |
| Frame.SelectLength | app.py:47 | the length of a masked frame is the number of true entries of the mask |
| Frame.SelectAllTrue | app.py:42 | an all-true mask returns the table unchanged |
| Frame.SelectAllFalse | app.py:42 | an all-false mask returns no rows |
| Frame.SelectDisjointBound | app.py:49-51 | two masks never true at the same row select at most as many rows together as the table has |
| Frame.CountEqual | app.py:49-51 | selecting by `col == v` yields as many rows as `v` occurs in the column |
| Frame.Unique | app.py:31 | `unique()` lists every value of the column, each once, ordered by first occurrence |
| Frame.UniqueIsDetermined | app.py:31 | any list that has those three properties equals `unique()`'s result, so they define it completely |
| Tickets.StatusOptions | app.py:29-33 | status filter options and defaults: no duplicates, every row's status listed, every listed status some row's, first-seen order |
| Tickets.StaffOptions | app.py:35-39 | staff filter options and defaults: the same four properties for the staff column |
| Tickets.Filter | app.py:42 | the filtered table is a subsequence of the table, and a row is in it iff its status is selected and its staff is selected |
| Tickets.FilterKeepsExactlyMatchingRows | app.py:42 | row `i` is kept iff it matches both selections, and kept rows keep their relative order |
| Tickets.DefaultSelectionShowsAll | app.py:29-42 | with the default selections (all distinct statuses and all distinct staff) the filter returns the whole table unchanged |
| Tickets.EmptySelectionShowsNothing | app.py:42 | if either selection is empty the filtered table is empty |
| Tickets.FilterDependsOnlyOnSelectedValues | app.py:42 | the order and repetition of selected values do not change the result |
| Tickets.FilterIdempotent | app.py:42 | filtering the filtered table again with the same selections changes nothing |
| Tickets.ComputeMetrics | app.py:46-51 | total is the row count; 待處理 is the number of 未讀 rows and 已完成 the number of 已完成 rows; each is at most the total, and so is their sum |
| Tickets.ViewMetrics | app.py:42-51 | the page's total is the filtered row count; a status not selected is counted zero times; the two counts together never exceed the total |
| Tickets.DefaultViewMetrics | app.py:29-51 | with the default selections the metrics are those of the whole table |
| Tickets.SampleStatusOptions | app.py:10-18 | on the demo table the status options are 處理中, 已完成, 未讀, in that order |
| Tickets.SampleStaffOptions | app.py:10-18 | on the demo table the staff options are its three staff members in row order |
| Tickets.SampleDefaultMetrics | app.py:10-51 | the default demo view shows 3 records, 1 未讀 and 1 已完成 |
| NewRecordForm.SelectBox | app.py:64-72 | a select box yields a value iff it has options, and that value is one of them |
| NewRecordForm.FillForm | app.py:60-73 | the form's status is always one of 未讀, 處理中, 已完成 and is 未讀 by default; a staff value exists iff the table has rows, and is then one of the distinct staff options and some row's staff |
| NewRecordForm.Submit | app.py:75-79 | save succeeds iff ticket id and customer name are both non-empty, names the submitted ticket id, and leaves the table unchanged in both cases |
| NewRecordForm.SubmitChecksOnlyRequiredFields | app.py:76 | phone, status, staff and notes never affect the outcome of a save |
| NewRecordForm.SubmitLeavesViewUnchanged | app.py:56-79 | after a save, successful or not, the option lists, the filtered rows and the metrics are what they were |
| NewRecordForm.SampleDefaultForm | app.py:61-79 | on the demo table a form left at its defaults has status 未讀, the first staff member, and is refused |

## Left out

- Page layout and rendering: page config, title, tabs, columns, metric
  tiles, the table widget, info/success/error boxes and the footer captions.
  They display values and hold no logic. The save outcome is modelled as a
  value (`SaveOutcome`) rather than a message box.
- The footer clock (`datetime.now()`), because it reads the wall clock.
- Widget interaction: the multiselects only let the user pick listed
  options, but the filter is modelled for any selection lists, which is more
  general.
- Data-frame details beyond row contents and order: index labels kept by
  boolean indexing, dtypes, and missing values, which the demo table does
  not have.
- A remote spreadsheet store, a read cache, creating or appending rows,
  status updates, note appends, timestamps and retries. None of these exist
  in `app.py` (line 58 says the spreadsheet connection is not implemented),
  so they are not part of this model.
