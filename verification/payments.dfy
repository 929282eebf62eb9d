/** The Payment Records page: the upload form's validation and the row it
    inserts, the Pending → Approved / Rejected status machine with the
    actions each row offers, receipt uploads, the five-way record filter,
    and the edit form's validation and save. */
module Payments {
  import opened Js
  import opened Seqs
  import opened Tables
  import opened MonthFormat
  import opened ClientOptions

  // ----- upload -----

  /** The upload form. `hasFile` says whether a receipt file is chosen. */
  datatype UploadForm = UploadForm(
    hasFile: bool, sel: Selection, amount: string, penalty: string, reference: string,
    paymentDate: string, paymentMonth: string, dueDate: string, vat: string)

  /** The form's initial state: `currentMonth` is the current `YYYY-MM`, the
      due date is `15th` and the VAT choice `Non Vat`. */
  function InitialUploadForm(currentMonth: string): UploadForm {
    UploadForm(false, Selection("", "", ""), "", "", "", "", currentMonth, "15th", "Non Vat")
  }

  /** The reset run when the form closes: the file, selection, amounts,
      reference, date and month are blanked and the VAT choice goes back to
      `Non Vat`; the due date keeps its value. */
  function ClosedUploadForm(f: UploadForm): UploadForm {
    UploadForm(false, Selection("", "", ""), "", "", "", "", "", f.dueDate, "Non Vat")
  }

  /** The form as first shown. The modal is mounted closed, so the reset runs
      on mount and the current month of the initial state is never seen. */
  function FirstShownUploadForm(currentMonth: string): (f: UploadForm)
    ensures f.paymentMonth == "" && f.dueDate == "15th" && f.vat == "Non Vat"
    ensures !f.hasFile && f.sel == Selection("", "", "")
  {
    ClosedUploadForm(InitialUploadForm(currentMonth))
  }

  /** The first upload is refused until a month is picked, whatever else is
      filled in: choosing every other field of the first-shown form still
      leaves the month blank. */
  lemma FirstUploadNeedsMonth(st: Store, currentMonth: string, g: UploadForm, path: string, createdAt: string, insertOk: bool)
    requires g.paymentMonth == FirstShownUploadForm(currentMonth).paymentMonth
    ensures Upload(st, g, path, createdAt, insertOk) == Outcome(st, false)
  {
  }

  /** The required-field check of `handleUpload`. */
  predicate UploadComplete(f: UploadForm) {
    f.hasFile && f.sel.name != "" && f.sel.project != "" && f.sel.blockLot != "" && f.amount != ""
    && f.paymentDate != "" && f.paymentMonth != "" && f.reference != ""
  }

  /** The row inserted into Payment; `path` is the storage path the receipt
      upload returned and `createdAt` the insert time. */
  function UploadRow(f: UploadForm, path: string, createdAt: string): Row {
    UploadRowWith(f, path, createdAt, ParseFloat(f.amount), if f.penalty != "" then ParseFloat(f.penalty) else Null)
  }

  /** The columns the upload writes. */
  predicate IsUploadColumn(c: Column) {
    c.ReceiptPath? || c.BlockAndLot? || c.PaymentAmount? || c.PenaltyAmount? || c.DateOfPayment?
    || c.MonthOfPayment? || c.DueDate? || c.Name? || c.Project? || c.Status? || c.ReferenceNumber?
    || c.Vat? || c.CreatedAt?
  }

  /** One cell of the inserted row, given the values read from the amount
      and penalty fields. */
  function UploadCell(f: UploadForm, path: string, createdAt: string, amount: Value, penalty: Value, c: Column): Value
    requires IsUploadColumn(c)
  {
    match c
    case ReceiptPath => Text(path)
    case BlockAndLot => Text(f.sel.blockLot)
    case PaymentAmount => amount
    case PenaltyAmount => penalty
    case DateOfPayment => Text(f.paymentDate)
    case MonthOfPayment => Text(f.paymentMonth + "-01")
    case DueDate => Text(f.dueDate)
    case Name => Text(f.sel.name)
    case Project => Text(f.sel.project)
    case Status => Text("Pending")
    case ReferenceNumber => Text(f.reference)
    case Vat => Text(f.vat)
    case CreatedAt => Text(createdAt)
  }

  function UploadRowWith(f: UploadForm, path: string, createdAt: string, amount: Value, penalty: Value): Row {
    map c: Column | IsUploadColumn(c) :: UploadCell(f, path, createdAt, amount, penalty, c)
  }

  /** `handleUpload`. `path` is `""` when the storage upload failed or
      returned no path; `insertOk` says whether the insert succeeded. Only a
      complete form whose receipt was stored and whose insert succeeded
      changes the store, by one new Payment row, and closes the form. */
  function Upload(st: Store, f: UploadForm, path: string, createdAt: string, insertOk: bool): (r: Outcome)
    ensures r.closed <==> UploadComplete(f) && path != "" && insertOk
    ensures Rows(r.st, Payment) == Rows(st, Payment) + (if r.closed then [UploadRow(f, path, createdAt)] else [])
    ensures forall t :: t != Payment ==> Rows(r.st, t) == Rows(st, t)
  {
    if !UploadComplete(f) || path == "" || !insertOk then Outcome(st, false)
    else Outcome(Insert(st, Payment, UploadRow(f, path, createdAt)), true)
  }

  /** A form with any required field blank writes nothing. */
  lemma UploadRefusesIncomplete(st: Store, f: UploadForm, path: string, createdAt: string, insertOk: bool)
    requires !UploadComplete(f)
    ensures Upload(st, f, path, createdAt, insertOk) == Outcome(st, false)
  {
  }

  /** The inserted row is a Pending payment for the chosen client, with
      the chosen receipt path, whatever the amount and penalty read as. */
  lemma UploadRowWithContents(f: UploadForm, path: string, createdAt: string, amount: Value, penalty: Value)
    ensures var row := UploadRowWith(f, path, createdAt, amount, penalty);
            && Get(row, Status) == Text("Pending")
            && Get(row, Name) == Text(f.sel.name) && Get(row, Project) == Text(f.sel.project)
            && Get(row, BlockAndLot) == Text(f.sel.blockLot) && Get(row, ReceiptPath) == Text(path)
            && Get(row, PenaltyAmount) == penalty
            && Get(row, MonthOfPayment) == Text(f.paymentMonth + "-01")
  {
    UploadRowWithCell(f, path, createdAt, amount, penalty, Status);
    UploadRowWithCell(f, path, createdAt, amount, penalty, Name);
    UploadRowWithCell(f, path, createdAt, amount, penalty, Project);
    UploadRowWithCell(f, path, createdAt, amount, penalty, BlockAndLot);
    UploadRowWithCell(f, path, createdAt, amount, penalty, ReceiptPath);
    UploadRowWithCell(f, path, createdAt, amount, penalty, PenaltyAmount);
    UploadRowWithCell(f, path, createdAt, amount, penalty, MonthOfPayment);
  }

  lemma UploadRowWithCell(f: UploadForm, path: string, createdAt: string, amount: Value, penalty: Value, c: Column)
    requires IsUploadColumn(c)
    ensures Get(UploadRowWith(f, path, createdAt, amount, penalty), c) == UploadCell(f, path, createdAt, amount, penalty, c)
  {
  }

  /** The inserted row's penalty is null exactly when the penalty field was
      left blank. */
  lemma UploadRowPenalty(f: UploadForm, path: string, createdAt: string)
    ensures Get(UploadRow(f, path, createdAt), PenaltyAmount) == Null <==> f.penalty == ""
  {
    var penalty := if f.penalty != "" then ParseFloat(f.penalty) else Null;
    UploadRowWithContents(f, path, createdAt, ParseFloat(f.amount), penalty);
  }

  /** The stored month of payment is the first of the chosen month and is
      shown as that month. */
  lemma UploadRowMonth(f: UploadForm, path: string, createdAt: string)
    requires IsYearMonth(f.paymentMonth)
    ensures Get(UploadRow(f, path, createdAt), MonthOfPayment) == Text(f.paymentMonth + "-01")
    ensures FormatMonthYear(f.paymentMonth + "-01") == FormatMonthYear(f.paymentMonth)
  {
    var penalty := if f.penalty != "" then ParseFloat(f.penalty) else Null;
    UploadRowWithContents(f, path, createdAt, ParseFloat(f.amount), penalty);
    FormatFirstOfMonth(f.paymentMonth);
  }

  /** A freshly uploaded payment awaits review: it offers Edit, Confirm and
      Reject, shows its receipt and offers no receipt upload. */
  lemma UploadedRowAwaitsReview(f: UploadForm, path: string, createdAt: string, amount: Value, penalty: Value)
    requires path != ""
    ensures var row := UploadRowWith(f, path, createdAt, amount, penalty);
            && Actions(row) * {Edit, Confirm, Reject} == {Edit, Confirm, Reject}
            && UploadReceipt !in Actions(row) && ViewReceipt in Actions(row)
  {
    var row := UploadRowWith(f, path, createdAt, amount, penalty);
    assert Get(row, Status) == Text("Pending") by {
      assert IsUploadColumn(Status);
    }
    assert Get(row, ReceiptPath) == Text(path) by {
      assert IsUploadColumn(ReceiptPath);
    }
    ActionsIff(row);
  }

  /** After the form is closed and reopened its month is blank, so nothing can
      be uploaded until a month is chosen again. */
  lemma ClosedFormRefusesUpload(st: Store, f: UploadForm, path: string, createdAt: string, insertOk: bool)
    ensures Upload(st, ClosedUploadForm(f), path, createdAt, insertOk) == Outcome(st, false)
  {
  }

  /** Picking a name clears the project and block-lot, so the form cannot
      be uploaded until both are picked again. */
  lemma ChooseNameBlocksUpload(st: Store, f: UploadForm, name: string, path: string, createdAt: string, insertOk: bool)
    ensures var g := f.(sel := ChooseName(f.sel, name));
            Upload(st, g, path, createdAt, insertOk) == Outcome(st, false)
  {
  }

  // ----- status machine and row actions -----

  /** The buttons a payment row offers. */
  datatype PaymentAction = Edit | Confirm | Reject | Delete | ViewReceipt | UploadReceipt | ViewAr | UploadAr

  predicate HasStatus(row: Row, status: string) {
    Get(row, Status) == Text(status)
  }

  /** A receipt column: View when the path is set, else Upload for an
      Approved row, else nothing. */
  function ReceiptActions(row: Row, path: Column, view: PaymentAction, upload: PaymentAction): set<PaymentAction> {
    if Truthy(Get(row, path)) then {view} else if HasStatus(row, "Approved") then {upload} else {}
  }

  function Actions(row: Row): set<PaymentAction> {
    (if HasStatus(row, "Pending") then {Edit, Confirm, Reject} else {})
    + {Delete}
    + ReceiptActions(row, ReceiptPath, ViewReceipt, UploadReceipt)
    + ReceiptActions(row, ArReceiptPath, ViewAr, UploadAr)
  }

  /** Edit, Confirm and Reject are offered exactly for Pending rows, Delete
      always, and a receipt upload exactly for Approved rows lacking that
      receipt. */
  lemma ActionsIff(row: Row)
    ensures Edit in Actions(row) <==> HasStatus(row, "Pending")
    ensures Confirm in Actions(row) <==> HasStatus(row, "Pending")
    ensures Reject in Actions(row) <==> HasStatus(row, "Pending")
    ensures Delete in Actions(row)
    ensures ViewReceipt in Actions(row) <==> Truthy(Get(row, ReceiptPath))
    ensures UploadReceipt in Actions(row) <==> !Truthy(Get(row, ReceiptPath)) && HasStatus(row, "Approved")
    ensures ViewAr in Actions(row) <==> Truthy(Get(row, ArReceiptPath))
    ensures UploadAr in Actions(row) <==> !Truthy(Get(row, ArReceiptPath)) && HasStatus(row, "Approved")
  {
  }

  /** `update({ Status }).eq('id', id)`; `ok` says whether the write
      succeeded, and a failed one throws before anything else changes. */
  function SetStatus(st: Store, id: Value, status: string, ok: bool): (r: Store)
    ensures !ok ==> r == st
    ensures forall t :: t != Payment ==> Rows(r, t) == Rows(st, t)
    ensures |Rows(r, Payment)| == |Rows(st, Payment)|
  {
    if ok then UpdateTable(st, Payment, ById(id), map[Status := Text(status)]) else st
  }

  function ConfirmPayment(st: Store, id: Value, ok: bool): Store {
    SetStatus(st, id, "Approved", ok)
  }

  function RejectPayment(st: Store, id: Value, ok: bool): Store {
    SetStatus(st, id, "Rejected", ok)
  }

  /** Confirming or rejecting gives the row with that id the new status and
      changes nothing else in it or in any other row. */
  lemma SetStatusChangesOnlyStatus(st: Store, id: Value, status: string, i: int)
    requires 0 <= i < |Rows(st, Payment)|
    ensures var before := Rows(st, Payment)[i];
            var after := Rows(SetStatus(st, id, status, true), Payment)[i];
            && (SqlEq(Get(before, Id), id) ==> HasStatus(after, status))
            && (!SqlEq(Get(before, Id), id) ==> after == before)
            && forall c :: c != Status ==> Get(after, c) == Get(before, c)
  {
    MatchesOne(Rows(st, Payment)[i], Id, id);
  }

  /** A successful status write gives the row with the id that status. */
  lemma SetStatusSets(st: Store, id: Value, status: string, i: int)
    requires 0 <= i < |Rows(st, Payment)| && SqlEq(Get(Rows(st, Payment)[i], Id), id)
    ensures HasStatus(Rows(SetStatus(st, id, status, true), Payment)[i], status)
  {
    MatchesOne(Rows(st, Payment)[i], Id, id);
  }

  /** An Approved row offers no Edit, Confirm or Reject, and lacking a
      receipt it offers the receipt's upload. */
  lemma ApprovedRowSettled(row: Row)
    requires HasStatus(row, "Approved")
    ensures Actions(row) * {Edit, Confirm, Reject} == {}
    ensures !Truthy(Get(row, ReceiptPath)) ==> UploadReceipt in Actions(row)
  {
    ActionsIff(row);
  }

  /** A Rejected row offers neither a status change nor a receipt upload. */
  lemma RejectedRowSettled(row: Row)
    requires HasStatus(row, "Rejected")
    ensures Actions(row) * {Edit, Confirm, Reject, UploadReceipt, UploadAr} == {}
  {
    ActionsIff(row);
  }

  /** A confirmed row is settled: it no longer offers Edit, Confirm or
      Reject, and lacking a receipt it offers the receipt's upload. */
  lemma ConfirmSettles(st: Store, id: Value, i: int)
    requires 0 <= i < |Rows(st, Payment)| && SqlEq(Get(Rows(st, Payment)[i], Id), id)
    ensures var after := Rows(ConfirmPayment(st, id, true), Payment)[i];
            && Actions(after) * {Edit, Confirm, Reject} == {}
            && (!Truthy(Get(after, ReceiptPath)) ==> UploadReceipt in Actions(after))
  {
    SetStatusSets(st, id, "Approved", i);
    ApprovedRowSettled(Rows(ConfirmPayment(st, id, true), Payment)[i]);
  }

  /** A rejected row is settled: it offers neither a status change nor a
      receipt upload. */
  lemma RejectSettles(st: Store, id: Value, i: int)
    requires 0 <= i < |Rows(st, Payment)| && SqlEq(Get(Rows(st, Payment)[i], Id), id)
    ensures var after := Rows(RejectPayment(st, id, true), Payment)[i];
            && Actions(after) * {Edit, Confirm, Reject, UploadReceipt, UploadAr} == {}
  {
    SetStatusSets(st, id, "Rejected", i);
    RejectedRowSettled(Rows(RejectPayment(st, id, true), Payment)[i]);
  }

  /** `delete().eq('id', id)`: after a successful delete no row has that id
      and rows with another id stay; a failed one throws and changes nothing. */
  function DeletePayment(st: Store, id: Value, ok: bool): (r: Store)
    ensures !ok ==> r == st
    ensures forall t :: t != Payment ==> Rows(r, t) == Rows(st, t)
    ensures ok ==> Select(Rows(r, Payment), ById(id)) == []
    ensures forall row :: row in Rows(st, Payment) && !MatchesAll(row, ById(id)) ==> row in Rows(r, Payment)
    ensures IsSubsequence(Rows(r, Payment), Rows(st, Payment))
  {
    if !ok then
      SubsequenceRefl(Rows(st, Payment));
      st
    else
      var r := DeleteTable(st, Payment, ById(id));
      DeleteLeavesNoMatch(Rows(st, Payment), ById(id));
      FilterIsSubsequence(Rows(st, Payment), row => !MatchesAll(row, ById(id)));
      r
  }

  /** A successful delete keeps every row with another id as often as it
      occurred, and no row with that id. */
  lemma DeletePaymentKeepsCopies(st: Store, id: Value, row: Row)
    ensures multiset(Rows(DeletePayment(st, id, true), Payment))[row]
            == if MatchesAll(row, ById(id)) then 0 else multiset(Rows(st, Payment))[row]
  {
    FilterMultiplicity(Rows(st, Payment), r => !MatchesAll(r, ById(id)), row);
  }

  /** `handleUploadReceipt`: the stored path goes into `ar_receipt_path` or
      `receipt_path` of the row with that id. `ok` says whether both the
      storage upload and the row update succeeded; either failure throws
      before the table changes. */
  function AttachReceipt(st: Store, id: Value, isAr: bool, path: string, ok: bool): (r: Store)
    ensures !ok ==> r == st
    ensures forall t :: t != Payment ==> Rows(r, t) == Rows(st, t)
    ensures |Rows(r, Payment)| == |Rows(st, Payment)|
  {
    if ok then UpdateTable(st, Payment, ById(id), map[(if isAr then ArReceiptPath else ReceiptPath) := Text(path)]) else st
  }

  /** After a receipt is attached the row shows it instead of offering its
      upload, and its status and the other receipt are untouched. */
  lemma AttachReceiptShows(st: Store, id: Value, isAr: bool, path: string, i: int)
    requires path != ""
    requires 0 <= i < |Rows(st, Payment)| && SqlEq(Get(Rows(st, Payment)[i], Id), id)
    ensures var before := Rows(st, Payment)[i];
            var after := Rows(AttachReceipt(st, id, isAr, path, true), Payment)[i];
            && (if isAr then ViewAr in Actions(after) && UploadAr !in Actions(after)
                else ViewReceipt in Actions(after) && UploadReceipt !in Actions(after))
            && Get(after, Status) == Get(before, Status)
            && Get(after, if isAr then ReceiptPath else ArReceiptPath) == Get(before, if isAr then ReceiptPath else ArReceiptPath)
  {
    MatchesOne(Rows(st, Payment)[i], Id, id);
    ActionsIff(Rows(AttachReceipt(st, id, isAr, path, true), Payment)[i]);
  }

  /** Attaching a receipt writes only that receipt's column, and only on the
      rows with the id: every other row, and every other column of those
      rows, stays as it was. */
  lemma AttachReceiptChangesOnlyReceipt(st: Store, id: Value, isAr: bool, path: string, i: int)
    requires 0 <= i < |Rows(st, Payment)|
    ensures var col := if isAr then ArReceiptPath else ReceiptPath;
            var before := Rows(st, Payment)[i];
            var after := Rows(AttachReceipt(st, id, isAr, path, true), Payment)[i];
            && (SqlEq(Get(before, Id), id) ==> Get(after, col) == Text(path))
            && (!SqlEq(Get(before, Id), id) ==> after == before)
            && forall c :: c != col ==> Get(after, c) == Get(before, c)
  {
    MatchesOne(Rows(st, Payment)[i], Id, id);
  }

  // ----- the record filter -----

  /** The filter settings: search text, project and status (`all` for any),
      whether a date is chosen, and the no-AR-receipt switch. */
  datatype PaymentFilter = PaymentFilter(search: string, project: string, status: string, dateChosen: bool, noArOnly: bool)

  /** One row against the five filters. `onDay` says whether a date text
      falls on the chosen calendar day. */
  predicate MatchesPayment(row: Row, f: PaymentFilter, onDay: string -> bool) {
    && Contains(Lower(ToText(Get(row, Name))), Lower(f.search))
    && (f.project == "all" || Get(row, Project) == Text(f.project))
    && (f.status == "all" || Get(row, Status) == Text(f.status))
    && (!f.dateChosen || (Truthy(Get(row, DateOfPayment)) && onDay(ToText(Get(row, DateOfPayment)))))
    && (!f.noArOnly || !Truthy(Get(row, ArReceiptPath)))
  }

  /** `filteredPayments`. */
  function FilteredPayments(rows: seq<Row>, f: PaymentFilter, onDay: string -> bool): seq<Row> {
    Filter(rows, row => MatchesPayment(row, f, onDay))
  }

  /** The filtered list holds exactly the rows passing all five filters, in
      their original order. */
  lemma FilteredPaymentsSpec(rows: seq<Row>, f: PaymentFilter, onDay: string -> bool, row: Row)
    ensures row in FilteredPayments(rows, f, onDay) <==> row in rows && MatchesPayment(row, f, onDay)
    ensures IsSubsequence(FilteredPayments(rows, f, onDay), rows)
    ensures multiset(FilteredPayments(rows, f, onDay))[row] == if MatchesPayment(row, f, onDay) then multiset(rows)[row] else 0
  {
    FilterMultiplicity(rows, row => MatchesPayment(row, f, onDay), row);
    FilterIsSubsequence(rows, row => MatchesPayment(row, f, onDay));
    if row in rows && MatchesPayment(row, f, onDay) {
      var k :| 0 <= k < |rows| && rows[k] == row;
    }
  }

  /** Empty search, `all` project and status, no date and the switch off
      keep every row. */
  lemma OpenFilterKeepsAll(rows: seq<Row>, onDay: string -> bool)
    ensures FilteredPayments(rows, PaymentFilter("", "all", "all", false, false), onDay) == rows
  {
    var f := PaymentFilter("", "all", "all", false, false);
    forall i | 0 <= i < |rows| ensures MatchesPayment(rows[i], f, onDay) {
      ContainsEmpty(Lower(ToText(Get(rows[i], Name))));
    }
    FilterKeepsAll(rows, row => MatchesPayment(row, f, onDay));
  }

  // ----- editing -----

  datatype EditError = NameRequired | AmountRequired

  /** `!Name?.trim()`: a missing name or one of white space only. */
  predicate NameBlank(v: Value) {
    !(v.Text? && Trim(v.s) != "")
  }

  /** `!amount && amount !== 0`. */
  predicate AmountMissing(v: Value) {
    !Truthy(v) && !StrictEq(v, Num(0.0))
  }

  /** `validate` of the edit form. */
  function ValidateEdit(p: Row): (errs: set<EditError>)
    ensures NameRequired in errs <==> NameBlank(Get(p, Name))
    ensures AmountRequired in errs <==> AmountMissing(Get(p, PaymentAmount))
  {
    (if NameBlank(Get(p, Name)) then {NameRequired} else {})
    + (if AmountMissing(Get(p, PaymentAmount)) then {AmountRequired} else {})
  }

  /** The edit passes exactly when the name has a non-blank character and
      the amount is a non-zero truthy value or exactly 0. */
  lemma ValidateEditIff(p: Row)
    ensures ValidateEdit(p) == {}
            <==> && Get(p, Name).Text?
                 && HasNonSpace(Get(p, Name).s)
                 && (Truthy(Get(p, PaymentAmount)) || Get(p, PaymentAmount) == Num(0.0))
  {
    if Get(p, Name).Text? {
      TrimmedIff(Get(p, Name).s);
    }
    assert NameRequired !in ValidateEdit(p) <==> !NameBlank(Get(p, Name));
  }

  /** The columns the edit form's save writes. */
  predicate IsEditedColumn(c: Column) {
    c.Name? || c.BlockAndLot? || c.PaymentAmount? || c.PenaltyAmount? || c.Vat? || c.DateOfPayment?
    || c.MonthOfPayment? || c.ReferenceNumber? || c.Project? || c.PaymentType? || c.MonthsPaidCaps? || c.DueDate?
  }

  function EditPatch(p: Row): Row {
    map c: Column | IsEditedColumn(c) :: Get(p, c)
  }

  /** `handleSaveWithValidation`: an invalid edit or a failed update writes
      nothing and keeps the form open; otherwise the edited columns are
      written to the row with the payment's id and the form closes. */
  function SaveEdit(st: Store, p: Row, ok: bool): (r: Outcome)
    ensures r.closed <==> ValidateEdit(p) == {} && ok
    ensures forall t :: t != Payment ==> Rows(r.st, t) == Rows(st, t)
    ensures !r.closed ==> r.st == st
  {
    if ValidateEdit(p) != {} || !ok then Outcome(st, false)
    else Outcome(UpdateTable(st, Payment, ById(Get(p, Id)), EditPatch(p)), true)
  }

  /** A save changes only the twelve edited columns: status, receipts, id
      and creation time stay as they were, so a Pending row stays Pending. */
  lemma SaveEditKeepsOtherColumns(st: Store, p: Row, ok: bool, i: int, c: Column)
    requires 0 <= i < |Rows(st, Payment)| && !IsEditedColumn(c)
    ensures |Rows(SaveEdit(st, p, ok).st, Payment)| == |Rows(st, Payment)|
    ensures Get(Rows(SaveEdit(st, p, ok).st, Payment)[i], c) == Get(Rows(st, Payment)[i], c)
  {
    if SaveEdit(st, p, ok).closed {
      assert c !in EditPatch(p);
      UpdateKeepsColumn(Rows(st, Payment), ById(Get(p, Id)), EditPatch(p), i, c);
    }
  }

  /** A save touches only the row with the payment's id: every other
      payment, edited columns included, stays as it was. */
  lemma SaveEditKeepsOtherPayments(st: Store, p: Row, ok: bool, i: int)
    requires 0 <= i < |Rows(st, Payment)| && !SqlEq(Get(Rows(st, Payment)[i], Id), Get(p, Id))
    ensures |Rows(SaveEdit(st, p, ok).st, Payment)| == |Rows(st, Payment)|
    ensures Rows(SaveEdit(st, p, ok).st, Payment)[i] == Rows(st, Payment)[i]
  {
    MatchesOne(Rows(st, Payment)[i], Id, Get(p, Id));
  }

  /** A successful save copies each edited column of the form onto the row
      with the payment's id. */
  lemma SaveEditWritesColumn(st: Store, p: Row, i: int, c: Column)
    requires ValidateEdit(p) == {} && IsEditedColumn(c)
    requires 0 <= i < |Rows(st, Payment)| && SqlEq(Get(Rows(st, Payment)[i], Id), Get(p, Id))
    ensures Get(Rows(SaveEdit(st, p, true).st, Payment)[i], c) == Get(p, c)
  {
    MatchesOne(Rows(st, Payment)[i], Id, Get(p, Id));
    assert c in EditPatch(p);
  }
}
