/** The hosted database as an in-memory store: named tables holding rows,
    rows as maps from column to value, and the three table operations the
    pages issue (`insert`, `update ... eq ...`, `delete ... eq ...`) plus the
    `.single()` lookup. */
module Tables {
  import opened Js
  import opened Seqs

  /** Every column the modelled pages read or write. `Key` gives the column's
      name in the database. */
  datatype Column =
    | Id | CreatedAt | Status | Name | Email | Project | Block | Lot | Amount | TCP | TSP
    // Living Water Subdivision properties
    | Owner | Term | DueDate1530 | FirstDueMonth | Realty | SalesDirector | DateOfReservation
    | SellerName | BrokerRealty | Reservation | LotArea | PricePerSqm | MiscFeeCaps
    | NetContractPrice | FirstMA | FirstMANetOfAdvance | SecondTo60thMA | Year | AdvancePayment
    // Havahills Estate properties
    | Due | FirstDue | Terms | BuyersName | Broker | LotSize | Price | PaymentScheme | VatStatus
    | ModeOfPayment | CommPrice | MiscFee | Vat | FirstMACaps | FirstMALower
    | FirstMAWithHoldingFee | SecondTo48thMA | NewTerm | PasaloPrice | NewMA
    // Balance
    | RemainingBalance | MonthsPaid | MonthsPaidCaps | DueDate
    // Payment
    | BlockAndLot | PaymentAmount | PenaltyAmount | DateOfPayment | MonthOfPayment
    | ReferenceNumber | ReceiptPath | ArReceiptPath | PaymentType
    // Payment Record
    | Penalty | PaymentForTheMonthOf

  function Key(c: Column): string {
    match c
    case Id => "id"
    case CreatedAt => "created_at"
    case Status => "Status"
    case Name => "Name"
    case Email => "Email"
    case Project => "Project"
    case Block => "Block"
    case Lot => "Lot"
    case Amount => "Amount"
    case TCP => "TCP"
    case TSP => "TSP"
    case Owner => "Owner"
    case Term => "Term"
    case DueDate1530 => "Due Date 15/30"
    case FirstDueMonth => "First Due Month"
    case Realty => "Realty"
    case SalesDirector => "Sales Director"
    case DateOfReservation => "Date of Reservation"
    case SellerName => "Seller Name"
    case BrokerRealty => "Broker / Realty"
    case Reservation => "Reservation"
    case LotArea => "Lot Area"
    case PricePerSqm => "Price per sqm"
    case MiscFeeCaps => "MISC FEE"
    case NetContractPrice => "Net Contract Price"
    case FirstMA => "First MA"
    case FirstMANetOfAdvance => "1st MA net of Advance Payment"
    case SecondTo60thMA => "2ndto60th MA"
    case Year => "Year"
    case AdvancePayment => "Optional: Advance Payment"
    case Due => "Due"
    case FirstDue => "First Due"
    case Terms => "Terms"
    case BuyersName => "Buyers Name"
    case Broker => "Broker"
    case LotSize => "Lot Size"
    case Price => "Price"
    case PaymentScheme => "Payment Scheme"
    case VatStatus => "Vat Status"
    case ModeOfPayment => "Mode of Payment"
    case CommPrice => "Comm Price"
    case MiscFee => "Misc Fee"
    case Vat => "Vat"
    case FirstMACaps => "1ST MA"
    case FirstMALower => "1st MA"
    case FirstMAWithHoldingFee => "1ST MA with Holding Fee"
    case SecondTo48thMA => "2ND TO 48TH MA"
    case NewTerm => "NEW TERM"
    case PasaloPrice => "PASALO PRICE"
    case NewMA => "NEW MA"
    case RemainingBalance => "Remaining Balance"
    case MonthsPaid => "Months Paid"
    case MonthsPaidCaps => "MONTHS PAID"
    case DueDate => "Due Date"
    case BlockAndLot => "Block & Lot"
    case PaymentAmount => "Payment Amount"
    case PenaltyAmount => "Penalty Amount"
    case DateOfPayment => "Date of Payment"
    case MonthOfPayment => "Month of Payment"
    case ReferenceNumber => "Reference Number"
    case ReceiptPath => "receipt_path"
    case ArReceiptPath => "ar_receipt_path"
    case PaymentType => "Payment Type"
    case Penalty => "Penalty"
    case PaymentForTheMonthOf => "Payment for the Month of"
  }

  /** A row, or a JavaScript object built from one. */
  type Row = map<Column, Value>

  /** `row[c]`: a missing key reads as undefined. */
  function Get(row: Row, c: Column): Value {
    if c in row then row[c] else Null
  }

  /** `row.Status?.toLowerCase()`, with a missing Status read as `''`. */
  function StatusLower(row: Row): string {
    var v := Get(row, Status);
    if v.Text? then Lower(v.s) else ""
  }

  /** `{...row, ...patch}`: the patch's keys win, every other key keeps its value. */
  function Merge(row: Row, patch: Row): (r: Row)
    ensures r.Keys == row.Keys + patch.Keys
    ensures forall c :: c in patch ==> Get(r, c) == patch[c]
    ensures forall c :: c !in patch ==> Get(r, c) == Get(row, c)
  {
    row + patch
  }

  /** A chain of `.eq(column, value)` filters. */
  type EqChain = seq<(Column, Value)>

  /** One `.eq(c, v)` test: SQL equality, so a null on either side matches nothing. */
  predicate SqlEq(a: Value, b: Value) {
    a != Null && StrictEq(a, b)
  }

  predicate MatchesAll(row: Row, f: EqChain) {
    forall i :: 0 <= i < |f| ==> SqlEq(Get(row, f[i].0), f[i].1)
  }

  /** A one-link chain is a single SQL equality test. */
  lemma MatchesOne(row: Row, c: Column, v: Value)
    ensures MatchesAll(row, [(c, v)]) <==> SqlEq(Get(row, c), v)
  {
    assert [(c, v)][0] == (c, v);
  }

  /** `update(patch).eq(...)...`: every matching row is merged with the patch. */
  function Update(t: seq<Row>, f: EqChain, patch: Row): (r: seq<Row>)
    ensures |r| == |t|
    ensures forall i :: 0 <= i < |t| && MatchesAll(t[i], f) ==> r[i] == Merge(t[i], patch)
    ensures forall i :: 0 <= i < |t| && !MatchesAll(t[i], f) ==> r[i] == t[i]
  {
    seq(|t|, i requires 0 <= i < |t| => if MatchesAll(t[i], f) then t[i] + patch else t[i])
  }

  /** `delete().eq(...)...`: the rows that do not match, in order. */
  function Delete(t: seq<Row>, f: EqChain): (r: seq<Row>)
    ensures forall i :: 0 <= i < |r| ==> r[i] in t && !MatchesAll(r[i], f)
    ensures forall i :: 0 <= i < |t| && !MatchesAll(t[i], f) ==> t[i] in r
  {
    Filter(t, row => !MatchesAll(row, f))
  }

  /** `select().eq(...)...`: the matching rows, in order. */
  function Select(t: seq<Row>, f: EqChain): (r: seq<Row>)
    ensures forall i :: 0 <= i < |r| ==> r[i] in t && MatchesAll(r[i], f)
    ensures forall i :: 0 <= i < |t| && MatchesAll(t[i], f) ==> t[i] in r
  {
    Filter(t, row => MatchesAll(row, f))
  }

  /** `.single()` yields data only when exactly one row matches. */
  predicate SingleFound(t: seq<Row>, f: EqChain) {
    |Select(t, f)| == 1
  }

  /** Selecting from a table with one more row. */
  lemma SelectAppend(t: seq<Row>, row: Row, f: EqChain)
    ensures Select(t + [row], f) == Select(t, f) + (if MatchesAll(row, f) then [row] else [])
  {
    assert (t + [row])[..|t|] == t;
  }

  /** An update whose patch leaves the filter's columns alone does not change
      which rows that filter matches. */
  lemma UpdateKeepsMatches(t: seq<Row>, f: EqChain, patch: Row, g: EqChain)
    requires forall k :: 0 <= k < |g| ==> g[k].0 !in patch
    ensures forall i :: 0 <= i < |t| ==> (MatchesAll(Update(t, f, patch)[i], g) <==> MatchesAll(t[i], g))
    ensures |Select(Update(t, f, patch), g)| == |Select(t, g)|
  {
    var u := Update(t, f, patch);
    forall i | 0 <= i < |t| ensures MatchesAll(u[i], g) <==> MatchesAll(t[i], g) {
      forall k | 0 <= k < |g| ensures Get(u[i], g[k].0) == Get(t[i], g[k].0) {
      }
    }
    CountPointwise(u, row => MatchesAll(row, g), t, row => MatchesAll(row, g));
  }

  /** An update leaves every column outside its patch as it was. */
  lemma UpdateKeepsColumn(t: seq<Row>, f: EqChain, patch: Row, i: int, c: Column)
    requires 0 <= i < |t| && c !in patch
    ensures Get(Update(t, f, patch)[i], c) == Get(t[i], c)
  {
  }

  /** Updating the one row a filter selects, with a patch that leaves the
      filter's columns alone: that row still is the only match and now holds
      the patch. */
  lemma UpdateSingleRow(t: seq<Row>, f: EqChain, patch: Row)
    requires |Select(t, f)| == 1
    requires forall k :: 0 <= k < |f| ==> f[k].0 !in patch
    ensures var after := Update(t, f, patch);
            && |Select(after, f)| == 1
            && exists i :: 0 <= i < |after| && MatchesAll(after[i], f) && Merge(after[i], patch) == after[i]
  {
    var after := Update(t, f, patch);
    UpdateKeepsMatches(t, f, patch, f);
    var row := Select(t, f)[0];
    var i :| 0 <= i < |t| && t[i] == row;
    assert after[i] == Merge(t[i], patch);
    assert Merge(after[i], patch) == after[i];
  }

  /** After a delete no row matches the filter. */
  lemma DeleteLeavesNoMatch(t: seq<Row>, f: EqChain)
    ensures forall i :: 0 <= i < |Delete(t, f)| ==> !MatchesAll(Delete(t, f)[i], f)
    ensures Select(Delete(t, f), f) == []
  {
    FilterKeepsNone(Delete(t, f), row => MatchesAll(row, f));
  }

  /** The tables the modelled pages touch. */
  datatype Table =
    | LivingWaterTable | HavahillsTable | Clients | Documents | Balance | Payment | PaymentRecord

  function TableKey(t: Table): string {
    match t
    case LivingWaterTable => "Living Water Subdivision"
    case HavahillsTable => "Havahills Estate"
    case Clients => "Clients"
    case Documents => "Documents"
    case Balance => "Balance"
    case Payment => "Payment"
    case PaymentRecord => "Payment Record"
  }

  /** The database: table name to rows. */
  datatype Store = Store(tables: map<Table, seq<Row>>)

  function Rows(st: Store, t: Table): seq<Row> {
    if t in st.tables then st.tables[t] else []
  }

  /** The store with the rows of one table replaced. */
  function WithRows(st: Store, t: Table, rows: seq<Row>): (r: Store)
    ensures Rows(r, t) == rows
    ensures forall u :: u != t ==> Rows(r, u) == Rows(st, u)
  {
    Store(st.tables[t := rows])
  }

  /** `from(t).insert(row)`. */
  function Insert(st: Store, t: Table, row: Row): (r: Store)
    ensures Rows(r, t) == Rows(st, t) + [row]
    ensures forall u :: u != t ==> Rows(r, u) == Rows(st, u)
  {
    WithRows(st, t, Rows(st, t) + [row])
  }

  function UpdateTable(st: Store, t: Table, f: EqChain, patch: Row): (r: Store)
    ensures Rows(r, t) == Update(Rows(st, t), f, patch)
    ensures forall u :: u != t ==> Rows(r, u) == Rows(st, u)
  {
    WithRows(st, t, Update(Rows(st, t), f, patch))
  }

  function DeleteTable(st: Store, t: Table, f: EqChain): (r: Store)
    ensures Rows(r, t) == Delete(Rows(st, t), f)
    ensures forall u :: u != t ==> Rows(r, u) == Rows(st, u)
  {
    WithRows(st, t, Delete(Rows(st, t), f))
  }

  /** What a form's submission leaves behind: the store, and whether the
      form closed. */
  datatype Outcome = Outcome(st: Store, closed: bool)

  /** The two developments and the table holding each one's lots. */
  datatype Project = LivingWater | Havahills

  function PropertyTable(p: Project): Table {
    if p == LivingWater then LivingWaterTable else HavahillsTable
  }

  /** The name written into Balance's Project column. */
  function ProjectName(p: Project): string {
    TableKey(PropertyTable(p))
  }

  /** The filter `.eq('id', id)`. */
  function ById(id: Value): EqChain {
    [(Id, id)]
  }

  /** An update by id merges the patch into exactly the rows whose id equals
      `id` under SQL equality and leaves the rest as they were. */
  lemma UpdateByIdRow(t: seq<Row>, id: Value, patch: Row, i: int)
    requires 0 <= i < |t|
    ensures SqlEq(Get(t[i], Id), id) ==> Update(t, ById(id), patch)[i] == Merge(t[i], patch)
    ensures !SqlEq(Get(t[i], Id), id) ==> Update(t, ById(id), patch)[i] == t[i]
  {
    MatchesOne(t[i], Id, id);
  }
}
