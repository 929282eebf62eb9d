/** The payment form of a Balance row: opening it, typing into it, and
    posting a payment, which saves the updated balance and then inserts a
    payment record. */
module Ledger {
  import opened Js
  import opened Tables
  import opened Balances

  /** The form's state: the edited row, the previewed remaining balance and
      total, the penalty, and the three choices the form offers. */
  datatype Form = Form(fields: Row, remaining: Value, total: Value, penalty: Value,
                       paymentType: string, paymentMonth: string, dueDate: string)

  /** The form as it opens on a row: the amount and penalty cleared, the
      payment type `cash`, no month chosen and the 15th as due date. */
  function Open(data: Row): (f: Form)
    ensures Get(f.fields, Amount) == Null && Get(f.fields, Penalty) == Null && f.penalty == Null
    ensures forall c :: c != Amount && c != Penalty && c != PaymentType ==> Get(f.fields, c) == Get(data, c)
    ensures f.remaining == Get(data, RemainingBalance) && f.total == Get(data, Amount)
  {
    Form(data + map[Amount := Null, Penalty := Null, PaymentType := Text("cash")],
         Get(data, RemainingBalance), Get(data, Amount), Null, "cash", "", "15th")
  }

  /** `parseFloat(value)` accepted as an amount: neither NaN nor negative. */
  predicate Acceptable(v: Value) {
    v.Num? && v.n >= 0.0
  }

  /** `handleInputChange(field, value)`. The amount and the penalty take a
      non-negative number, or nothing; the amount also refreshes the preview
      when the row has a contract price. Other fields take the text. */
  function Input(f: Form, data: Row, field: Column, value: string): (r: Form)
    ensures field != Amount ==> r.remaining == f.remaining && r.total == f.total
    ensures field != Amount && field != Penalty ==> r.penalty == f.penalty
    ensures r.paymentType == f.paymentType && r.paymentMonth == f.paymentMonth && r.dueDate == f.dueDate
  {
    InputParsed(f, data, field, value, ParseFloat(value))
  }

  /** `handleInputChange` with `parseFloat(value)` already read as `n`. */
  function InputParsed(f: Form, data: Row, field: Column, value: string, n: Value): (r: Form)
    ensures field != Amount ==> r.remaining == f.remaining && r.total == f.total
    ensures field != Amount && field != Penalty ==> r.penalty == f.penalty
    ensures r.paymentType == f.paymentType && r.paymentMonth == f.paymentMonth && r.dueDate == f.dueDate
    ensures field != Id ==> Get(r.fields, Id) == Get(f.fields, Id)
  {
    if field == Amount then
      if value == "" then ClearAmount(f, data) else TypeAmount(f, data, n)
    else if field == Penalty then
      if value == "" then f.(penalty := Null) else TypePenalty(f, n)
    else f.(fields := f.fields[field := Text(value)])
  }

  /** An emptied amount: nothing entered, the preview back to the contract
      price and the amount already paid. */
  function ClearAmount(f: Form, data: Row): (r: Form)
    ensures r.fields == f.fields[Amount := Null] && r.penalty == f.penalty
    ensures r.paymentType == f.paymentType && r.paymentMonth == f.paymentMonth && r.dueDate == f.dueDate
  {
    f.(fields := f.fields[Amount := Null],
       remaining := Num(OrZero(Or(Get(f.fields, TCP), Num(0.0)))),
       total := Num(OrZero(Or(Get(data, Amount), Num(0.0)))))
  }

  /** A parsed amount: refused unless acceptable; otherwise entered, and the
      preview recomputed when the row has a contract price. */
  function TypeAmount(f: Form, data: Row, n: Value): (r: Form)
    ensures !Acceptable(n) ==> r == f
    ensures Acceptable(n) ==> r.fields == f.fields[Amount := n]
    ensures Acceptable(n) && Truthy(Get(f.fields, TCP)) ==>
              r.remaining == Num(OrZero(Get(f.fields, TCP)) - OrZero(Get(data, Amount)) - n.n)
    ensures r.penalty == f.penalty
    ensures r.paymentType == f.paymentType && r.paymentMonth == f.paymentMonth && r.dueDate == f.dueDate
  {
    if !Acceptable(n) then f
    else
      var f' := f.(fields := f.fields[Amount := n]);
      var tcp := Get(f.fields, TCP);
      if Truthy(tcp) then
        f'.(remaining := Num(OrZero(tcp) - OrZero(Get(data, Amount)) - n.n),
            total := Num(OrZero(Get(data, Amount)) + n.n))
      else f'
  }

  /** A parsed penalty: refused unless acceptable. */
  function TypePenalty(f: Form, n: Value): (r: Form)
    ensures r.penalty == (if Acceptable(n) then n else f.penalty)
    ensures r.fields == f.fields && r.remaining == f.remaining && r.total == f.total
  {
    if !Acceptable(n) then f else f.(penalty := n)
  }

  /** A negative amount or penalty is refused: the form does not change. */
  lemma InputRefusesNegative(f: Form, data: Row, field: Column, d: string)
    requires field == Amount || field == Penalty
    requires d != "" && (forall i :: 0 <= i < |d| ==> IsDigit(d[i])) && DecimalValue(d) > 0
    ensures Input(f, data, field, "-" + d) == f
  {
    ParseFloatOfNegatedDigits("-" + d, d);
  }

  /** Text that parses to a non-negative number is taken as the amount, and
      the preview is refreshed against the contract price. A digit string is
      such text (`ParseFloatOfDigits`). */
  lemma InputAmountNumber(f: Form, data: Row, value: string, x: real)
    requires value != "" && ParseFloat(value) == Num(x) && x >= 0.0
    ensures var r := Input(f, data, Amount, value);
            && Get(r.fields, Amount) == Num(x)
            && (Truthy(Get(f.fields, TCP)) ==>
                  r.remaining == Num(OrZero(Get(f.fields, TCP)) - OrZero(Get(data, Amount)) - x))
  {
    TypeAmountOfNumber(f, data, x);
  }

  lemma TypeAmountOfNumber(f: Form, data: Row, x: real)
    requires x >= 0.0
    ensures var r := TypeAmount(f, data, Num(x));
            && Get(r.fields, Amount) == Num(x)
            && (Truthy(Get(f.fields, TCP)) ==>
                  r.remaining == Num(OrZero(Get(f.fields, TCP)) - OrZero(Get(data, Amount)) - x))
  {
  }

  /** A digit string is taken as the penalty; the fields are untouched. */
  lemma InputPenaltyDigits(f: Form, data: Row, d: string)
    requires d != "" && forall i :: 0 <= i < |d| ==> IsDigit(d[i])
    ensures Input(f, data, Penalty, d).penalty == Num(DecimalValue(d) as real)
    ensures Input(f, data, Penalty, d).fields == f.fields
  {
    ParseFloatOfDigits(d);
  }

  /** An empty input clears the amount or the penalty. */
  lemma InputClears(f: Form, data: Row, field: Column)
    requires field == Amount || field == Penalty
    ensures field == Amount ==> Get(Input(f, data, field, "").fields, Amount) == Null
    ensures field == Penalty ==> Input(f, data, field, "").penalty == Null
  {
  }

  // ----- posting a payment -----

  /** `parseInt(data['MONTHS PAID'] || '0') + 1`, as text. */
  function MonthsAfter(data: Row): string {
    var m := ParseInt(ToText(Or(Get(data, MonthsPaidCaps), Text("0"))));
    if m.Num? then NumberToString(m.n + 1.0) else "NaN"
  }

  /** A stored count of `n` months becomes `n + 1`. */
  lemma MonthsAfterCounts(data: Row, n: nat)
    requires Get(data, MonthsPaidCaps) == Text(NatToString(n))
    ensures MonthsAfter(data) == NatToString(n + 1)
  {
    assert ToText(Or(Get(data, MonthsPaidCaps), Text("0"))) == NatToString(n);
    ParseIntOfNatToString(n);
    NumberToStringOfInt(n + 1);
    assert n as real + 1.0 == (n + 1) as real;
  }

  /** A missing or empty count becomes one. */
  lemma MonthsAfterBlank(data: Row)
    requires !Truthy(Get(data, MonthsPaidCaps))
    requires Get(data, MonthsPaidCaps) == Null || Get(data, MonthsPaidCaps).Text?
    ensures MonthsAfter(data) == "1"
  {
    assert ToText(Or(Get(data, MonthsPaidCaps), Text("0"))) == NatToString(0);
    ParseIntOfNatToString(0);
    NumberToStringOfInt(1);
  }

  /** `formData['Amount'] ? parseFloat(formData['Amount'].toString()) : 0`:
      the form only ever holds a number or nothing there, and a number reads
      back as itself. */
  function Entered(f: Form): real {
    OrZero(Get(f.fields, Amount))
  }

  /** `updatedData`: the row, the form's fields over it, then the new
      remaining balance and total, the incremented month count and the due
      date. */
  function Posted(data: Row, f: Form): Row {
    PostedWith(data, f, MonthsAfter(data))
  }

  /** `updatedData` with the month count given as text. */
  function PostedWith(data: Row, f: Form, months: string): (u: Row)
    ensures Get(u, RemainingBalance) == Num(OrZero(Get(data, RemainingBalance)) - Entered(f))
    ensures Get(u, Amount) == Num(OrZero(Get(data, Amount)) + Entered(f))
    ensures Get(u, MonthsPaidCaps) == Text(months)
    ensures forall c :: c !in {RemainingBalance, Amount, MonthsPaidCaps, DueDate} ==> Get(u, c) == Get(Merge(data, f.fields), c)
  {
    var p := Entered(f);
    data + f.fields + map[
      RemainingBalance := Num(OrZero(Get(data, RemainingBalance)) - p),
      Amount := Num(OrZero(Get(data, Amount)) + p),
      MonthsPaidCaps := Text(months),
      DueDate := Text(f.dueDate)]
  }

  /** Posting moves the payment from the remaining balance to the amount
      paid: their sum does not change. */
  lemma PostedConserves(data: Row, f: Form)
    ensures OrZero(Get(Posted(data, f), Amount)) + OrZero(Get(Posted(data, f), RemainingBalance))
            == OrZero(Get(data, Amount)) + OrZero(Get(data, RemainingBalance))
  {
  }

  /** Whatever was typed into the month counter is overridden by the increment. */
  lemma PostedIgnoresTypedMonths(data: Row, f: Form, typed: string)
    ensures var g := Input(f, data, MonthsPaidCaps, typed);
            Get(Posted(data, g), MonthsPaidCaps) == Get(Posted(data, f), MonthsPaidCaps)
  {
  }

  /** With no amount entered the balance stays put, but a month is still counted. */
  lemma PostedWithoutAmount(data: Row, n: nat)
    requires Get(data, MonthsPaidCaps) == Text(NatToString(n))
    ensures var u := Posted(data, Open(data));
            && OrZero(Get(u, RemainingBalance)) == OrZero(Get(data, RemainingBalance))
            && OrZero(Get(u, Amount)) == OrZero(Get(data, Amount))
            && Get(u, MonthsPaidCaps) == Text(NatToString(n + 1))
  {
    OpenPostsNothing(data, MonthsAfter(data));
    MonthsAfterCounts(data, n);
  }

  /** A freshly opened form enters no amount, so posting it leaves both
      balances as they were, whatever month count is written. */
  lemma OpenPostsNothing(data: Row, months: string)
    ensures var u := PostedWith(data, Open(data), months);
            && OrZero(Get(u, RemainingBalance)) == OrZero(Get(data, RemainingBalance))
            && OrZero(Get(u, Amount)) == OrZero(Get(data, Amount))
  {
    assert Get(Open(data).fields, Amount) == Null;
    PostingNothing(data, Open(data), months);
  }

  /** A form with no amount entered leaves both balances as they were. */
  lemma PostingNothing(data: Row, f: Form, months: string)
    requires Get(f.fields, Amount) == Null
    ensures var u := PostedWith(data, f, months);
            && OrZero(Get(u, RemainingBalance)) == OrZero(Get(data, RemainingBalance))
            && OrZero(Get(u, Amount)) == OrZero(Get(data, Amount))
  {
    assert Entered(f) == 0.0;
  }

  /** The preview shown while typing equals the remaining balance the post
      commits exactly when the stored remaining balance is the contract price
      less the amount already paid. */
  lemma PreviewAgreesIff(f: Form, data: Row, value: string, x: real)
    requires value != "" && ParseFloat(value) == Num(x) && x >= 0.0
    requires Truthy(Get(f.fields, TCP))
    ensures var g := Input(f, data, Amount, value);
            g.remaining == Get(Posted(data, g), RemainingBalance)
            <==> OrZero(Get(data, RemainingBalance)) == OrZero(Get(f.fields, TCP)) - OrZero(Get(data, Amount))
  {
    InputAmountNumber(f, data, value, x);
    PreviewAgreesWith(f, data, Input(f, data, Amount, value), x, MonthsAfter(data));
  }

  /** The same, for a form holding the amount `x` and its preview, posted
      with any month count. */
  lemma PreviewAgreesWith(f: Form, data: Row, g: Form, x: real, months: string)
    requires Get(g.fields, Amount) == Num(x)
    requires g.remaining == Num(OrZero(Get(f.fields, TCP)) - OrZero(Get(data, Amount)) - x)
    ensures g.remaining == Get(PostedWith(data, g, months), RemainingBalance)
            <==> OrZero(Get(data, RemainingBalance)) == OrZero(Get(f.fields, TCP)) - OrZero(Get(data, Amount))
  {
    assert Entered(g) == x;
  }

  /** The penalty goes into the record only when it is a positive number. */
  predicate RecordsPenalty(penalty: Value) {
    penalty.Num? && penalty.n > 0.0
  }

  /** The Payment Record row: who and where from the original row, the
      amount just paid, the form's choices, and the penalty when positive. */
  function PaymentRecordRow(data: Row, f: Form): (r: Row)
    ensures Penalty in r <==> RecordsPenalty(f.penalty)
    ensures Get(r, Amount) == Num(Entered(f))
    ensures forall c :: c == Name || c == Project || c == Block || c == Lot ==> Get(r, c) == Get(data, c)
  {
    var row := map[Name := Get(data, Name), Amount := Num(Entered(f)), Project := Get(data, Project),
                   Block := Get(data, Block), Lot := Get(data, Lot), PaymentType := Text(f.paymentType),
                   PaymentForTheMonthOf := Text(f.paymentMonth), DueDate := Text(f.dueDate)];
    if RecordsPenalty(f.penalty) then row[Penalty := f.penalty] else row
  }

  /** `handleSubmit`: save the posted row through the page's save, whose
      failure the page swallows, then insert the payment record; the form
      closes only when that insert succeeded. */
  function Submit(st: Store, data: Row, f: Form, saveOk: bool, insertOk: bool): (r: Outcome)
    ensures r.closed == insertOk
    ensures forall t :: t != Balance && t != PaymentRecord ==> Rows(r.st, t) == Rows(st, t)
    ensures Rows(r.st, Balance) == Rows(Save(st, Posted(data, f), saveOk), Balance)
    ensures Rows(r.st, PaymentRecord)
            == Rows(st, PaymentRecord) + (if insertOk then [PaymentRecordRow(data, f)] else [])
  {
    SubmitRows(st, Posted(data, f), PaymentRecordRow(data, f), saveOk, insertOk)
  }

  /** The two writes of `handleSubmit`, given the posted row and the record. */
  function SubmitRows(st: Store, posted: Row, record: Row, saveOk: bool, insertOk: bool): (r: Outcome)
    ensures r.closed == insertOk
    ensures forall t :: t != Balance && t != PaymentRecord ==> Rows(r.st, t) == Rows(st, t)
    ensures Rows(r.st, Balance) == Rows(Save(st, posted, saveOk), Balance)
    ensures Rows(r.st, PaymentRecord) == Rows(st, PaymentRecord) + (if insertOk then [record] else [])
  {
    var saved := Save(st, posted, saveOk);
    if insertOk then Outcome(Insert(saved, PaymentRecord, record), true)
    else Outcome(saved, false)
  }

  /** The posted row lands on the Balance row with the row's id: its amount,
      remaining balance and month count are updated, and no due date is. */
  lemma SubmitUpdatesBalance(st: Store, data: Row, f: Form, insertOk: bool)
    requires Get(f.fields, Id) == Get(data, Id)
    ensures var before := Rows(st, Balance);
            var after := Rows(Submit(st, data, f, true, insertOk).st, Balance);
            && |after| == |before|
            && (forall i :: 0 <= i < |before| ==> Get(after[i], DueDate) == Get(before[i], DueDate))
            && forall i :: 0 <= i < |before| && SqlEq(Get(before[i], Id), Get(data, Id)) ==>
                 && Get(after[i], Amount) == Num(OrZero(Get(data, Amount)) + Entered(f))
                 && Get(after[i], RemainingBalance) == Num(OrZero(Get(data, RemainingBalance)) - Entered(f))
                 && Get(after[i], MonthsPaidCaps) == Text(MonthsAfter(data))
  {
    SavePostedRow(st, data, f, MonthsAfter(data));
    assert Rows(Submit(st, data, f, true, insertOk).st, Balance) == Rows(Save(st, Posted(data, f), true), Balance);
  }

  /** Saving a posted row, whatever month count it carries, writes its
      balances and count onto the row with its id and keeps every due date. */
  lemma SavePostedRow(st: Store, data: Row, f: Form, months: string)
    requires Get(f.fields, Id) == Get(data, Id)
    ensures var before := Rows(st, Balance);
            var after := Rows(Save(st, PostedWith(data, f, months), true), Balance);
            && |after| == |before|
            && (forall i :: 0 <= i < |before| ==> Get(after[i], DueDate) == Get(before[i], DueDate))
            && forall i :: 0 <= i < |before| && SqlEq(Get(before[i], Id), Get(data, Id)) ==>
                 && Get(after[i], Amount) == Num(OrZero(Get(data, Amount)) + Entered(f))
                 && Get(after[i], RemainingBalance) == Num(OrZero(Get(data, RemainingBalance)) - Entered(f))
                 && Get(after[i], MonthsPaidCaps) == Text(months)
  {
    var u := PostedWith(data, f, months);
    SaveKeepsDueDates(st, u, true);
    assert Get(u, Id) == Get(Merge(data, f.fields), Id);
    SaveWritesColumn(st, u, Amount);
    SaveWritesColumn(st, u, RemainingBalance);
    SaveWritesColumn(st, u, MonthsPaidCaps);
  }

  /** The form opens on the row's id. */
  lemma OpenKeepsId(data: Row)
    ensures Get(Open(data).fields, Id) == Get(data, Id)
  {
  }

  /** Typing into a field other than the id keeps it. */
  lemma InputKeepsId(f: Form, data: Row, field: Column, value: string)
    requires field != Id
    ensures Get(Input(f, data, field, value).fields, Id) == Get(f.fields, Id)
  {
  }

  /** A failed record insert leaves the saved balance in place; a failed
      balance save still lets the record through. */
  lemma SubmitStepsAreIndependent(st: Store, data: Row, f: Form, saveOk: bool, insertOk: bool)
    ensures Rows(Submit(st, data, f, saveOk, false).st, Balance) == Rows(Submit(st, data, f, saveOk, true).st, Balance)
    ensures Rows(Submit(st, data, f, false, insertOk).st, PaymentRecord) == Rows(Submit(st, data, f, true, insertOk).st, PaymentRecord)
    ensures Rows(Submit(st, data, f, false, insertOk).st, Balance) == Rows(st, Balance)
  {
  }
}
