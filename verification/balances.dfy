/** The Balance page: the normalisation of fetched rows, the save of an
    edited row, the block-lot and name orderings, the completed-payment test
    with the row actions it gates, and the search and project filters. */
module Balances {
  import opened Js
  import opened Seqs
  import opened Tables

  // ----- normalisation of fetched rows -----

  /** `v ? parseFloat(v.toString().replace(/,/g, '')) : null`. A number's
      text has no commas and `parseFloat` gives back every finite number from
      its text, so a number is kept as it is; text loses its commas and is
      parsed. */
  function ReadAmount(v: Value): (r: Value)
    ensures !Truthy(v) <==> r == Null
    ensures Truthy(v) ==> r.Num? || r == NaN
  {
    if !Truthy(v) then Null
    else if v.Num? then v
    else ParseFloat(StripCommas(ToText(v)))
  }

  /** Text holding digits and thousands separators reads as the number its
      digits spell. */
  lemma ReadAmountIgnoresCommas(s: string)
    requires forall i :: 0 <= i < |s| ==> IsDigit(s[i]) || s[i] == ','
    requires exists i :: 0 <= i < |s| && IsDigit(s[i])
    ensures ReadAmount(Text(s)) == Num(DecimalValue(DigitsOf(s)) as real)
  {
    FilterSameOn(s, c => c != ',', IsDigit);
    var d := DigitsOf(s);
    var i :| 0 <= i < |s| && IsDigit(s[i]);
    assert s[i] in d;
    ParseFloatOfDigits(d);
  }

  /** Every non-zero amount, centavos included, is read back unchanged. */
  lemma ReadAmountOfNumber(x: real)
    requires x != 0.0
    ensures ReadAmount(Num(x)) == Num(x)
  {
  }

  /** For a non-zero whole number, reading its comma-free text back, as the
      source does, gives the amount `ReadAmount` keeps. */
  lemma ReadAmountMatchesTextPath(x: real)
    requires x == x.Floor as real && x != 0.0
    ensures ParseFloat(StripCommas(ToText(Num(x)))) == ReadAmount(Num(x))
  {
    var t := NumberToString(x);
    assert forall i :: 0 <= i < |t| ==> t[i] != ',' by {
      NumberTextHasNoComma(Trunc(x));
    }
    FilterKeepsAll(t, c => c != ',');
    ParseFloatOfWholeNumber(x);
  }

  lemma NumberTextHasNoComma(i: int)
    ensures forall k :: 0 <= k < |IntToString(i)| ==> IntToString(i)[k] != ','
  {
    var d := NatToString(if i < 0 then -i else i);
    assert forall k :: 0 <= k < |d| ==> IsDigit(d[k]);
    if i < 0 {
      var t := IntToString(i);
      assert t == "-" + d;
      forall k | 0 <= k < |t| ensures t[k] != ',' {
        if k > 0 {
          assert t[k] == d[k - 1];
        }
      }
    }
  }

  /** `v?.toString() || ''`. */
  function ReadText(v: Value): (r: string)
    ensures v.Text? ==> r == v.s
    ensures v == Null ==> r == ""
  {
    if v == Null then "" else ToText(v)
  }

  /** Reading text twice is reading it once. */
  lemma ReadTextIdempotent(v: Value)
    ensures ReadText(Text(ReadText(v))) == ReadText(v)
  {
  }

  predicate IsAmountColumn(c: Column) {
    c == RemainingBalance || c == Amount || c == TCP
  }

  predicate IsCounterColumn(c: Column) {
    c == MonthsPaid || c == MonthsPaidCaps || c == Terms
  }

  /** One column of a normalised row. */
  function NormalCell(item: Row, c: Column): Value {
    if IsAmountColumn(c) then ReadAmount(Get(item, c))
    else if IsCounterColumn(c) then Text(ReadText(Get(item, c)))
    else Get(item, c)
  }

  /** One fetched row as the page keeps it: the three amounts parsed, the
      two month counters and the term count as text. */
  function Normalize(item: Row): (r: Row)
    ensures forall c :: c in r <==> c in item || IsAmountColumn(c) || IsCounterColumn(c)
    ensures forall c :: !IsAmountColumn(c) && !IsCounterColumn(c) ==> Get(r, c) == Get(item, c)
  {
    map c: Column | c in item || IsAmountColumn(c) || IsCounterColumn(c) :: NormalCell(item, c)
  }

  /** A normalised amount is null exactly when the fetched one was falsy. */
  lemma NormalizeAmount(item: Row, c: Column)
    requires IsAmountColumn(c)
    ensures Get(Normalize(item), c) == ReadAmount(Get(item, c))
    ensures Get(Normalize(item), c) == Null <==> !Truthy(Get(item, c))
  {
    NormalizeCell(item, c);
  }

  lemma NormalizeCell(item: Row, c: Column)
    requires IsAmountColumn(c) || IsCounterColumn(c)
    ensures Get(Normalize(item), c) == NormalCell(item, c)
  {
  }

  /** A normalised counter is text, empty when the fetched one was missing. */
  lemma NormalizeCounter(item: Row, c: Column)
    requires IsCounterColumn(c)
    ensures Get(Normalize(item), c) == Text(ReadText(Get(item, c)))
    ensures Get(item, c) == Null ==> Get(Normalize(item), c) == Text("")
  {
    NormalizeCell(item, c);
    assert !IsAmountColumn(c);
  }

  /** Normalising a row twice leaves its counters as once. */
  lemma NormalizeCounterIdempotent(item: Row, c: Column)
    requires IsCounterColumn(c)
    ensures Get(Normalize(Normalize(item)), c) == Get(Normalize(item), c)
  {
    NormalizeCounter(item, c);
    NormalizeCounter(Normalize(item), c);
    ReadTextIdempotent(Get(item, c));
  }

  // ----- saving an edited row -----

  /** The ten columns `handleSave` writes. */
  predicate IsSavedColumn(c: Column) {
    c.Project? || c.Block? || c.Lot? || c.Name? || c.RemainingBalance? || c.Amount? || c.TCP?
    || c.MonthsPaid? || c.MonthsPaidCaps? || c.Terms?
  }

  function SavePatch(d: Row): Row {
    map c: Column | IsSavedColumn(c) :: Get(d, c)
  }

  /** The save writes exactly the ten columns, copied from the edited row;
      the due date is not among them. */
  lemma SavePatchColumns(d: Row, c: Column)
    ensures c in SavePatch(d) <==> IsSavedColumn(c)
    ensures c in SavePatch(d) ==> SavePatch(d)[c] == Get(d, c)
    ensures DueDate !in SavePatch(d)
  {
  }

  /** `handleSave`: update the row with the edited row's id; a failed write
      changes nothing. */
  function Save(st: Store, d: Row, writeOk: bool): (r: Store)
    ensures !writeOk ==> r == st
    ensures forall t :: t != Balance ==> Rows(r, t) == Rows(st, t)
    ensures writeOk ==> Rows(r, Balance) == Update(Rows(st, Balance), ById(Get(d, Id)), SavePatch(d))
  {
    if writeOk then UpdateTable(st, Balance, ById(Get(d, Id)), SavePatch(d)) else st
  }

  /** A save never changes a due date, nor any row but the edited one. */
  lemma SaveKeepsDueDates(st: Store, d: Row, writeOk: bool)
    ensures var before := Rows(st, Balance);
            var after := Rows(Save(st, d, writeOk), Balance);
            && |after| == |before|
            && (forall i :: 0 <= i < |before| ==> Get(after[i], DueDate) == Get(before[i], DueDate))
            && (forall i :: 0 <= i < |before| && !SqlEq(Get(before[i], Id), Get(d, Id)) ==> after[i] == before[i])
  {
    var before := Rows(st, Balance);
    var after := Rows(Save(st, d, writeOk), Balance);
    SavePatchColumns(d, DueDate);
    forall i | 0 <= i < |before| && !SqlEq(Get(before[i], Id), Get(d, Id)) ensures after[i] == before[i] {
      MatchesOne(before[i], Id, Get(d, Id));
    }
  }

  /** A saved column of the edited row lands on every row carrying its id. */
  lemma SaveWritesColumn(st: Store, d: Row, c: Column)
    requires IsSavedColumn(c)
    ensures var before := Rows(st, Balance);
            var after := Rows(Save(st, d, true), Balance);
            forall i :: 0 <= i < |before| && SqlEq(Get(before[i], Id), Get(d, Id)) ==> Get(after[i], c) == Get(d, c)
  {
    var before := Rows(st, Balance);
    SavePatchColumns(d, c);
    forall i | 0 <= i < |before| && SqlEq(Get(before[i], Id), Get(d, Id))
      ensures Get(Rows(Save(st, d, true), Balance)[i], c) == Get(d, c)
    {
      MatchesOne(before[i], Id, Get(d, Id));
    }
  }

  // ----- orderings -----

  /** `parseInt(String(v || '').replace(/\D/g, '') || '0')`: the digits of a
      block or lot label as a number, 0 when it has none. */
  function BlockLotNumber(v: Value): nat {
    DecimalValue(DigitsOf(ToText(Or(v, Text("")))))
  }

  /** The number is what `parseInt` reads from the digits, or from `'0'`. */
  lemma BlockLotNumberIsParsed(v: Value)
    ensures var d := DigitsOf(ToText(Or(v, Text(""))));
            ParseInt(if d == "" then "0" else d) == Num(BlockLotNumber(v) as real)
  {
    var d := DigitsOf(ToText(Or(v, Text(""))));
    if d == "" {
      assert DecimalValue("0") == 0 by {
        assert "0"[..0] == "";
      }
      ParseIntOfDigits("0");
    } else {
      ParseIntOfDigits(d);
    }
  }

  /** `compareBlockLot`: by block number, then by lot number. */
  function CompareBlockLot(a: Row, b: Row): int {
    var ba := BlockLotNumber(Get(a, Block));
    var bb := BlockLotNumber(Get(b, Block));
    if ba != bb then ba - bb
    else BlockLotNumber(Get(a, Lot)) - BlockLotNumber(Get(b, Lot))
  }

  /** The comparison is the lexicographic order on (block number, lot number). */
  lemma CompareBlockLotIsLexicographic(a: Row, b: Row)
    ensures var ba := BlockLotNumber(Get(a, Block));
            var bb := BlockLotNumber(Get(b, Block));
            var la := BlockLotNumber(Get(a, Lot));
            var lb := BlockLotNumber(Get(b, Lot));
            && (CompareBlockLot(a, b) < 0 <==> ba < bb || (ba == bb && la < lb))
            && (CompareBlockLot(a, b) == 0 <==> ba == bb && la == lb)
  {
  }

  /** Swapping the arguments negates the comparison. */
  lemma CompareBlockLotAntisymmetric(a: Row, b: Row)
    ensures CompareBlockLot(a, b) == -CompareBlockLot(b, a)
  {
  }

  lemma CompareBlockLotTransitive(a: Row, b: Row, c: Row)
    requires CompareBlockLot(a, b) <= 0 && CompareBlockLot(b, c) <= 0
    ensures CompareBlockLot(a, c) <= 0
  {
    CompareBlockLotIsLexicographic(a, b);
    CompareBlockLotIsLexicographic(b, c);
    CompareBlockLotIsLexicographic(a, c);
  }

  /** `a.Name || ''`. */
  function NameOf(row: Row): string {
    ToText(Or(Get(row, Name), Text("")))
  }

  datatype SortType = NameAsc | NameDesc | BlockLotAsc | BlockLotDesc

  /** The comparator `sortedBalances` hands to `sort`; descending orders
      swap the arguments. */
  function SortComparator(t: SortType): Comparator<Row> {
    match t
    case NameAsc => (a: Row, b: Row) => StringCompare(NameOf(a), NameOf(b))
    case NameDesc => (a: Row, b: Row) => StringCompare(NameOf(b), NameOf(a))
    case BlockLotAsc => (a: Row, b: Row) => CompareBlockLot(a, b)
    case BlockLotDesc => (a: Row, b: Row) => CompareBlockLot(b, a)
  }

  /** Every sort type orders rows by a total preorder. */
  lemma SortComparatorIsPreorder(t: SortType)
    ensures TotalPreorder(SortComparator(t))
  {
    var cmp := SortComparator(t);
    forall a, b ensures cmp(a, b) == -cmp(b, a) {
      StringCompareAntisymmetric(NameOf(a), NameOf(b));
      CompareBlockLotAntisymmetric(a, b);
    }
    forall a, b, c | cmp(a, b) <= 0 && cmp(b, c) <= 0 ensures cmp(a, c) <= 0 {
      match t
      case NameAsc => StringCompareTransitive(NameOf(a), NameOf(b), NameOf(c));
      case NameDesc => StringCompareTransitive(NameOf(c), NameOf(b), NameOf(a));
      case BlockLotAsc => CompareBlockLotTransitive(a, b, c);
      case BlockLotDesc => CompareBlockLotTransitive(c, b, a);
    }
  }

  /** `sortedBalances`: a stable sort of the filtered rows. */
  function SortedBalances(rows: seq<Row>, t: SortType): (r: seq<Row>)
    ensures multiset(r) == multiset(rows)
  {
    SortBy(rows, SortComparator(t))
  }

  /** The sorted list is in the order the sort type asks for. */
  lemma SortedBalancesInOrder(rows: seq<Row>, t: SortType)
    ensures SortedBy(SortedBalances(rows, t), SortComparator(t))
    ensures multiset(SortedBalances(rows, t)) == multiset(rows)
  {
    SortComparatorIsPreorder(t);
    SortByIsSorted(rows, SortComparator(t));
  }

  // ----- completed payments and the row actions -----

  /** `isPaymentCompleted`: the amount paid equals the contract price and the
      months paid equals the term, both by `===`. */
  predicate IsPaymentCompleted(b: Row) {
    StrictEq(Get(b, Amount), Get(b, TCP)) && StrictEq(Get(b, MonthsPaidCaps), Get(b, Terms))
  }

  datatype BalanceAction = EditDetails | AddPayment

  /** The buttons of a row: none for a completed payment. */
  function BalanceActions(b: Row): (r: seq<BalanceAction>)
    ensures EditDetails in r <==> !IsPaymentCompleted(b)
    ensures AddPayment in r <==> !IsPaymentCompleted(b)
  {
    if IsPaymentCompleted(b) then [] else [EditDetails, AddPayment]
  }

  /** A row with no contract price and no term whose amount and month counter
      were blanked reads as completed once normalised. */
  lemma BlankedRowReadsCompleted(row: Row)
    requires !Truthy(Get(row, Amount)) && !Truthy(Get(row, TCP))
    requires ReadText(Get(row, MonthsPaidCaps)) == "" && ReadText(Get(row, Terms)) == ""
    ensures IsPaymentCompleted(Normalize(row))
  {
    BlankedAmounts(row);
    BlankedCounters(row);
    BlankIsCompleted(Normalize(row));
  }

  lemma BlankedAmounts(row: Row)
    requires !Truthy(Get(row, Amount)) && !Truthy(Get(row, TCP))
    ensures Get(Normalize(row), Amount) == Null && Get(Normalize(row), TCP) == Null
  {
    NormalizeAmount(row, Amount);
    NormalizeAmount(row, TCP);
  }

  lemma BlankIsCompleted(b: Row)
    requires Get(b, Amount) == Null && Get(b, TCP) == Null
    requires Get(b, MonthsPaidCaps) == Text("") && Get(b, Terms) == Text("")
    ensures IsPaymentCompleted(b)
  {
  }

  lemma BlankedCounters(row: Row)
    requires ReadText(Get(row, MonthsPaidCaps)) == "" && ReadText(Get(row, Terms)) == ""
    ensures Get(Normalize(row), MonthsPaidCaps) == Text("") && Get(Normalize(row), Terms) == Text("")
  {
    NormalizeCounter(row, MonthsPaidCaps);
    NormalizeCounter(row, Terms);
  }

  // ----- search and project filters -----

  /** `String(v || '').toLowerCase()`. */
  function LowerField(b: Row, c: Column): string {
    Lower(ToText(Or(Get(b, c), Text(""))))
  }

  predicate MatchesQuery(b: Row, q: string) {
    Contains(LowerField(b, Name), q) || Contains(LowerField(b, Block), q)
    || Contains(LowerField(b, Lot), q) || Contains(LowerField(b, Project), q)
  }

  /** Whether the search box filters at all: `searchTerm && searchTerm.trim()`. */
  predicate Searching(term: string) {
    term != "" && Trim(term) != ""
  }

  /** The row passes the search, if there is one. */
  predicate PassesSearch(b: Row, term: string) {
    !Searching(term) || MatchesQuery(b, Trim(Lower(term)))
  }

  /** The row passes the project choice, if there is one. */
  predicate PassesProject(b: Row, project: string) {
    project == "" || StrictEq(Get(b, Project), Text(project))
  }

  /** `filteredBalances`: the search, then the project choice. */
  function FilteredBalances(balances: seq<Row>, term: string, project: string): (r: seq<Row>)
    ensures forall b :: b in r <==> b in balances && PassesSearch(b, term) && PassesProject(b, project)
    ensures IsSubsequence(r, balances)
  {
    var search := (b: Row) => MatchesQuery(b, Trim(Lower(term)));
    var chosen := (b: Row) => StrictEq(Get(b, Project), Text(project));
    var s := if Searching(term) then Filter(balances, search) else balances;
    var r := if project != "" then Filter(s, chosen) else s;
    assert IsSubsequence(s, balances) by {
      if Searching(term) {
        FilterIsSubsequence(balances, search);
      } else {
        SubsequenceRefl(balances);
      }
    }
    assert IsSubsequence(r, s) by {
      if project != "" {
        FilterIsSubsequence(s, chosen);
      } else {
        SubsequenceRefl(s);
      }
    }
    SubsequenceTrans(r, s, balances);
    r
  }

  /** The filtered list keeps every passing row as often as it occurs and no
      other row, so no duplicate is dropped. */
  lemma FilteredBalancesKeepsCopies(balances: seq<Row>, term: string, project: string, b: Row)
    ensures multiset(FilteredBalances(balances, term, project))[b]
            == if PassesSearch(b, term) && PassesProject(b, project) then multiset(balances)[b] else 0
  {
    var search := (x: Row) => MatchesQuery(x, Trim(Lower(term)));
    var chosen := (x: Row) => StrictEq(Get(x, Project), Text(project));
    var s := if Searching(term) then Filter(balances, search) else balances;
    FilterMultiplicity(balances, search, b);
    FilterMultiplicity(s, chosen, b);
  }

  /** A blank search and no project keep every row, in order. */
  lemma NoFilterKeepsAllBalances(balances: seq<Row>, term: string)
    requires Trim(term) == ""
    ensures FilteredBalances(balances, term, "") == balances
  {
  }
}
