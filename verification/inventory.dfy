/** The inventory page: the two kinds of lot record, the list normalisation,
    search and status filtering, and the Sell / Reopen transitions over the
    store together with the page's own copy of the list. */
module Inventory {
  import opened Js
  import opened Seqs
  import opened Tables

  // ----- the two record variants -----

  /** A record is a Living Water lot exactly when it carries an Owner key;
      every other record is a Havahills lot. */
  predicate IsLivingWater(p: Row) {
    Owner in p
  }

  /** The characters `parseNumericValue` keeps before parsing. */
  predicate IsNumericChar(c: char) {
    IsDigit(c) || c == '.' || c == '-'
  }

  /** `parseNumericValue`: null and non-number, non-string values read as 0,
      numbers are returned unchanged, strings are cleaned and parsed with a
      fallback to 0. */
  function ParseNumericValue(v: Value): (r: Value)
    ensures r.Num? || r == NaN
    ensures r == NaN <==> v == NaN
    ensures v.Num? ==> r == v
    ensures v == Null || v.Flag? ==> r == Num(0.0)
  {
    match v
    case Null => Num(0.0)
    case NaN => NaN
    case Num(_) => v
    case Text(s) => Or(ParseFloat(Filter(s, IsNumericChar)), Num(0.0))
    case Flag(_) => Num(0.0)
  }

  /** Text whose numeric characters parse as a number reads as that number. */
  lemma ParseNumericValueOfCleaned(s: string, x: real)
    requires ParseFloat(Filter(s, IsNumericChar)) == Num(x)
    ensures ParseNumericValue(Text(s)) == Num(x)
  {
    assert ParseNumericValue(Text(s)) == Or(ParseFloat(Filter(s, IsNumericChar)), Num(0.0));
  }

  /** A string of digits and thousands separators reads as the number its
      digits spell. */
  lemma ParseNumericValueIgnoresSeparators(s: string)
    requires forall i :: 0 <= i < |s| ==> IsDigit(s[i]) || s[i] == ','
    requires exists i :: 0 <= i < |s| && IsDigit(s[i])
    ensures ParseNumericValue(Text(s)) == Num(DecimalValue(DigitsOf(s)) as real)
  {
    FilterSameOn(s, IsNumericChar, IsDigit);
    var d := DigitsOf(s);
    var i :| 0 <= i < |s| && IsDigit(s[i]);
    assert s[i] in d;
    ParseFloatOfDigits(d);
    ParseNumericValueOfCleaned(s, DecimalValue(d) as real);
  }

  /** Every character of a whole number's text is kept by the cleaning. */
  lemma IntTextIsNumeric(i: int)
    ensures forall k :: 0 <= k < |IntToString(i)| ==> IsNumericChar(IntToString(i)[k])
  {
    var t := IntToString(i);
    if i < 0 {
      var d := NatToString(-i);
      assert t == "-" + d;
      forall k | 0 <= k < |t| ensures IsNumericChar(t[k]) {
        if k > 0 {
          assert t[k] == d[k - 1];
        }
      }
    }
  }

  /** The text of a whole number reads back as that number. */
  lemma ParseNumericValueOfIntText(i: int)
    ensures ParseNumericValue(Text(IntToString(i))) == Num(i as real)
  {
    IntTextIsNumeric(i);
    FilterKeepsAll(IntToString(i), IsNumericChar);
    ParseFloatOfIntToString(i);
    ParseNumericValueOfCleaned(IntToString(i), i as real);
  }

  // ----- list normalisation -----

  /** The Living Water fields `transformData` defaults to `''`. */
  predicate IsLwText(c: Column) {
    c.Block? || c.Lot? || c.DueDate1530? || c.FirstDueMonth? || c.Realty? || c.SalesDirector?
    || c.Owner? || c.DateOfReservation? || c.SellerName? || c.BrokerRealty? || c.Status?
  }

  /** The Living Water fields `transformData` passes through `parseNumericValue`. */
  predicate IsLwNumeric(c: Column) {
    c.Amount? || c.Reservation? || c.LotArea? || c.PricePerSqm? || c.TCP? || c.TSP? || c.MiscFeeCaps?
    || c.NetContractPrice? || c.FirstMA? || c.FirstMANetOfAdvance? || c.SecondTo60thMA? || c.Year?
  }

  /** The Havahills fields `transformData` defaults to `''`. */
  predicate IsHhText(c: Column) {
    c.Due? || c.DateOfReservation? || c.FirstDue? || c.Terms? || c.Realty? || c.BuyersName?
    || c.SellerName? || c.SalesDirector? || c.Broker? || c.PaymentScheme? || c.VatStatus?
    || c.ModeOfPayment? || c.NewTerm? || c.Status?
  }

  /** The Havahills fields `transformData` passes through `parseNumericValue`
      (the first monthly amortization is handled on its own). */
  predicate IsHhNumeric(c: Column) {
    c.Amount? || c.LotSize? || c.Price? || c.TSP? || c.Reservation? || c.CommPrice? || c.MiscFee?
    || c.Vat? || c.TCP? || c.FirstMAWithHoldingFee? || c.SecondTo48thMA? || c.PasaloPrice? || c.NewMA?
  }

  /** The effect of `x || ''` on a text field: a truthy value is kept,
      anything else becomes the empty string. */
  predicate TextDefaulted(before: Value, after: Value) {
    if Truthy(before) then after == before else after == Text("")
  }

  function LwField(item: Row, c: Column): Value {
    if IsLwText(c) then Or(Get(item, c), Text(""))
    else if IsLwNumeric(c) then ParseNumericValue(Get(item, c))
    else Get(item, c)
  }

  function HhField(item: Row, c: Column): Value {
    if c == FirstMACaps then ParseNumericValue(Or(Get(item, FirstMACaps), Get(item, FirstMALower)))
    else if IsHhNumeric(c) then ParseNumericValue(Get(item, c))
    else if IsHhText(c) then Or(Get(item, c), Text(""))
    else Get(item, c)
  }

  /** `transformData` for a Living Water row: exactly the listed text and
      numeric fields plus id and created_at. */
  function TransformLivingWater(item: Row): Row
  {
    map c: Column | IsLwText(c) || IsLwNumeric(c) || c == Id || c == CreatedAt :: LwField(item, c)
  }

  /** A transformed Living Water row has exactly the listed text and numeric
      fields plus id and created_at. */
  lemma TransformLivingWaterKeys(item: Row, c: Column)
    ensures c in TransformLivingWater(item) <==> IsLwText(c) || IsLwNumeric(c) || c == Id || c == CreatedAt
  {
  }

  /** Text fields of a transformed Living Water row default to `''`. */
  lemma TransformLivingWaterText(item: Row, c: Column)
    requires IsLwText(c)
    ensures c in TransformLivingWater(item) && TextDefaulted(Get(item, c), TransformLivingWater(item)[c])
  {
    TransformLivingWaterCell(item, c);
  }

  /** Numeric fields of a transformed Living Water row go through `parseNumericValue`. */
  lemma TransformLivingWaterNumeric(item: Row, c: Column)
    requires IsLwNumeric(c)
    ensures c in TransformLivingWater(item) && TransformLivingWater(item)[c] == ParseNumericValue(Get(item, c))
  {
    TransformLivingWaterCell(item, c);
    assert !IsLwText(c);
  }

  lemma TransformLivingWaterCell(item: Row, c: Column)
    requires IsLwText(c) || IsLwNumeric(c) || c == Id || c == CreatedAt
    ensures c in TransformLivingWater(item) && TransformLivingWater(item)[c] == LwField(item, c)
  {
  }

  /** A transformed Living Water row keeps its id and stays a Living Water row. */
  lemma TransformLivingWaterShape(item: Row)
    ensures IsLivingWater(TransformLivingWater(item))
    ensures TransformLivingWater(item)[Id] == Get(item, Id)
  {
    assert IsLwText(Owner);
  }

  /** Term and the advance payment are not among the copied fields. */
  lemma TransformLivingWaterDrops(item: Row)
    ensures Term !in TransformLivingWater(item) && AdvancePayment !in TransformLivingWater(item)
  {
  }

  /** `transformData` for a Havahills row: exactly the listed text and numeric
      fields plus id, Block, Lot and the first monthly amortization. */
  function TransformHavahills(item: Row): Row
  {
    map c: Column | IsHhText(c) || IsHhNumeric(c) || c.Id? || c.Block? || c.Lot? || c.FirstMACaps? :: HhField(item, c)
  }

  /** A transformed Havahills row has exactly the listed text and numeric
      fields plus id, Block, Lot and the first monthly amortization. */
  lemma TransformHavahillsKeys(item: Row, c: Column)
    ensures c in TransformHavahills(item) <==> IsHhText(c) || IsHhNumeric(c) || c.Id? || c.Block? || c.Lot? || c.FirstMACaps?
  {
  }

  /** Text fields of a transformed Havahills row default to `''`. */
  lemma TransformHavahillsText(item: Row, c: Column)
    requires IsHhText(c)
    ensures c in TransformHavahills(item) && TextDefaulted(Get(item, c), TransformHavahills(item)[c])
  {
    TransformHavahillsCell(item, c);
  }

  /** Numeric fields of a transformed Havahills row go through `parseNumericValue`. */
  lemma TransformHavahillsNumeric(item: Row, c: Column)
    requires IsHhNumeric(c)
    ensures c in TransformHavahills(item) && TransformHavahills(item)[c] == ParseNumericValue(Get(item, c))
  {
    TransformHavahillsCell(item, c);
    assert c != FirstMACaps;
  }

  lemma TransformHavahillsCell(item: Row, c: Column)
    requires IsHhText(c) || IsHhNumeric(c) || c.Id? || c.Block? || c.Lot? || c.FirstMACaps?
    ensures c in TransformHavahills(item) && TransformHavahills(item)[c] == HhField(item, c)
  {
  }

  /** A transformed Havahills row keeps id, Block and Lot, never reads as Living
      Water, and takes its upper-case first monthly amortization from the
      lower-case one when the upper-case one is falsy. */
  lemma TransformHavahillsShape(item: Row)
    ensures !IsLivingWater(TransformHavahills(item))
    ensures TransformHavahills(item)[Id] == Get(item, Id)
  {
    TransformHavahillsKeys(item, Owner);
    TransformHavahillsCopies(item, Id);
  }

  /** The id, Block and Lot are copied unchanged. */
  lemma TransformHavahillsCopies(item: Row, c: Column)
    requires c == Id || c == Block || c == Lot
    ensures c in TransformHavahills(item) && TransformHavahills(item)[c] == Get(item, c)
  {
  }

  /** The first monthly amortization is parsed from `1ST MA`, falling back to
      `1st MA` when that is falsy. */
  lemma TransformHavahillsFirstMA(item: Row)
    ensures FirstMACaps in TransformHavahills(item)
    ensures TransformHavahills(item)[FirstMACaps]
            == ParseNumericValue(if Truthy(Get(item, FirstMACaps)) then Get(item, FirstMACaps) else Get(item, FirstMALower))
  {
  }

  /** `transformData` over the fetched rows of the selected project. */
  function Transform(project: Project, data: seq<Row>): (r: seq<Row>)
    ensures |r| == |data|
  {
    MapSeq(data, item => if project == LivingWater then TransformLivingWater(item) else TransformHavahills(item))
  }

  /** Every transformed row reads as the variant of the project it was fetched for. */
  lemma TransformFollowsProject(project: Project, data: seq<Row>)
    ensures forall i :: 0 <= i < |data| ==> (IsLivingWater(Transform(project, data)[i]) <==> project == LivingWater)
  {
    forall i | 0 <= i < |data| ensures IsLivingWater(Transform(project, data)[i]) <==> project == LivingWater {
      TransformLivingWaterShape(data[i]);
      TransformHavahillsShape(data[i]);
    }
  }

  // ----- search and status filters -----

  /** The five fields the search looks at, per project. */
  function SearchFields(project: Project): seq<Column> {
    if project == LivingWater then [Block, Lot, Owner, SellerName, BrokerRealty]
    else [Block, Lot, BuyersName, SellerName, Broker]
  }

  /** `field?.toString().toLowerCase().includes(q)`: a missing field never matches. */
  predicate FieldMatches(v: Value, q: string) {
    v != Null && Contains(Lower(ToText(v)), q)
  }

  predicate MatchesSearch(project: Project, term: string, p: Row) {
    term == "" || exists c :: c in SearchFields(project) && FieldMatches(Get(p, c), Lower(term))
  }

  predicate MatchesStatus(filter: string, p: Row) {
    filter == "all" || StatusLower(p) == Lower(filter)
  }

  /** `filteredProperties`: the search filter followed by the status filter. */
  function FilteredProperties(project: Project, term: string, filter: string, props: seq<Row>): (r: seq<Row>)
    ensures forall i :: 0 <= i < |r| ==> r[i] in props && MatchesSearch(project, term, r[i]) && MatchesStatus(filter, r[i])
    ensures forall i :: 0 <= i < |props| && MatchesSearch(project, term, props[i]) && MatchesStatus(filter, props[i]) ==> props[i] in r
    ensures IsSubsequence(r, props)
  {
    var search := (p: Row) => MatchesSearch(project, term, p);
    var status := (p: Row) => MatchesStatus(filter, p);
    FilterIsSubsequence(props, search);
    FilterIsSubsequence(Filter(props, search), status);
    SubsequenceTrans(Filter(Filter(props, search), status), Filter(props, search), props);
    Filter(Filter(props, search), status)
  }

  /** The filtered list keeps every matching lot as often as it occurs and
      no other lot, so no duplicate is dropped. */
  lemma FilteredPropertiesKeepsCopies(project: Project, term: string, filter: string, props: seq<Row>, p: Row)
    ensures multiset(FilteredProperties(project, term, filter, props))[p]
            == if MatchesSearch(project, term, p) && MatchesStatus(filter, p) then multiset(props)[p] else 0
  {
    var search := (q: Row) => MatchesSearch(project, term, q);
    var status := (q: Row) => MatchesStatus(filter, q);
    FilterMultiplicity(props, search, p);
    FilterMultiplicity(Filter(props, search), status, p);
  }

  /** An empty search with the 'all' status keeps the list as it is. */
  lemma NoFilterKeepsAll(project: Project, props: seq<Row>)
    ensures FilteredProperties(project, "", "all", props) == props
  {
    FilterKeepsAll(props, p => MatchesSearch(project, "", p));
    FilterKeepsAll(props, p => MatchesStatus("all", p));
  }

  // ----- row actions -----

  datatype PropertyAction = SellAction | ReopenAction

  /** The buttons a row shows: Reopen for a sold lot, Sell for an available one. */
  function PropertyActions(p: Row): (a: set<PropertyAction>)
    ensures SellAction in a <==> StatusLower(p) == "available"
    ensures ReopenAction in a <==> StatusLower(p) == "sold"
    ensures |a| <= 1
  {
    if StatusLower(p) == "sold" then {ReopenAction}
    else if StatusLower(p) == "available" then {SellAction}
    else {}
  }

  // ----- sell -----

  /** The buyer's name: Owner for Living Water, Buyers Name for Havahills. */
  function ClientName(p: Row): Value {
    if IsLivingWater(p) then Get(p, Owner) else Get(p, BuyersName)
  }

  /** Text fields a Living Water sale writes with `|| ''`. */
  predicate IsLwSellText(c: Column) {
    c.Owner? || c.Term? || c.FirstDueMonth? || c.SellerName? || c.BrokerRealty? || c.DueDate1530? || c.Realty?
  }

  /** Numeric fields a Living Water sale writes with `|| 0`. */
  predicate IsLwSellNumeric(c: Column) {
    c.PricePerSqm? || c.TCP? || c.FirstMA? || c.LotArea? || c.TSP? || c.MiscFeeCaps? || c.SecondTo60thMA?
    || c.Reservation? || c.Amount? || c.NetContractPrice? || c.AdvancePayment? || c.FirstMANetOfAdvance?
  }

  /** Text fields a Havahills sale writes with `|| ''`. */
  predicate IsHhSellText(c: Column) {
    c.Due? || c.FirstDue? || c.Terms? || c.Realty? || c.BuyersName? || c.SellerName? || c.SalesDirector?
    || c.Broker? || c.PaymentScheme? || c.VatStatus? || c.ModeOfPayment? || c.NewTerm?
  }

  /** Numeric fields a Havahills sale writes with `|| 0`. */
  predicate IsHhSellNumeric(c: Column) {
    c.Amount? || c.LotSize? || c.Price? || c.TSP? || c.Reservation? || c.CommPrice? || c.MiscFee? || c.Vat?
    || c.TCP? || c.FirstMACaps? || c.FirstMAWithHoldingFee? || c.SecondTo48thMA? || c.PasaloPrice? || c.NewMA?
  }

  predicate IsSellText(p: Row, c: Column) {
    if IsLivingWater(p) then IsLwSellText(c) else IsHhSellText(c)
  }

  predicate IsSellNumeric(p: Row, c: Column) {
    if IsLivingWater(p) then IsLwSellNumeric(c) else IsHhSellNumeric(c)
  }

  /** The value a sale writes to one column, given which `||` default applies. */
  function SellField(p: Row, today: string, c: Column, text: bool, numeric: bool): Value {
    if c == Status then Text("Sold")
    else if c == DateOfReservation then Or(Get(p, DateOfReservation), Text(today))
    else if text then Or(Get(p, c), Text(""))
    else if numeric then Or(Get(p, c), Num(0.0))
    else Get(p, c)
  }

  /** The update object a sale of a Living Water lot writes. */
  function LwSellPatch(p: Row, today: string): Row
  {
    map c: Column | IsLwSellText(c) || IsLwSellNumeric(c) || c in {Block, Lot, DateOfReservation, Status} ::
      SellField(p, today, c, IsLwSellText(c), IsLwSellNumeric(c))
  }

  /** The update object a sale of a Havahills lot writes. */
  function HhSellPatch(p: Row, today: string): Row
  {
    map c: Column | IsHhSellText(c) || IsHhSellNumeric(c) || c in {Block, Lot, DateOfReservation, Status} ::
      SellField(p, today, c, IsHhSellText(c), IsHhSellNumeric(c))
  }

  /** The update object a sale writes to the lot: the variant's sale fields
      plus Block, Lot, the reservation date and the status. */
  function SellPatch(p: Row, today: string): Row
  {
    if IsLivingWater(p) then LwSellPatch(p, today) else HhSellPatch(p, today)
  }

  /** A sale writes exactly the variant's sale fields plus Block, Lot, the
      reservation date and the status. */
  lemma SellPatchKeys(p: Row, today: string, c: Column)
    ensures c in SellPatch(p, today) <==> IsSellText(p, c) || IsSellNumeric(p, c) || c in {Block, Lot, DateOfReservation, Status}
  {
  }

  /** A sale writes Sold, the lot's own Block and Lot, and the reservation
      date defaulting to today. */
  lemma SellPatchFixed(p: Row, today: string)
    ensures var r := SellPatch(p, today);
            && r[Status] == Text("Sold") && r[Block] == Get(p, Block) && r[Lot] == Get(p, Lot)
            && r[DateOfReservation] == Or(Get(p, DateOfReservation), Text(today))
  {
    var r := SellPatch(p, today);
    SellStatusField(p, today, r);
    SellLotField(p, today, r, Block);
    SellLotField(p, today, r, Lot);
    SellDateField(p, today, r);
  }

  lemma SellStatusField(p: Row, today: string, r: Row)
    requires r == LwSellPatch(p, today) || r == HhSellPatch(p, today)
    ensures Status in r && r[Status] == Text("Sold")
  {
  }

  lemma SellLotField(p: Row, today: string, r: Row, c: Column)
    requires r == LwSellPatch(p, today) || r == HhSellPatch(p, today)
    requires c == Block || c == Lot
    ensures c in r && r[c] == Get(p, c)
  {
  }

  lemma SellDateField(p: Row, today: string, r: Row)
    requires r == LwSellPatch(p, today) || r == HhSellPatch(p, today)
    ensures DateOfReservation in r && r[DateOfReservation] == Or(Get(p, DateOfReservation), Text(today))
  {
  }

  lemma LwSellPatchText(p: Row, today: string, c: Column)
    requires IsLwSellText(c)
    ensures c in LwSellPatch(p, today) && LwSellPatch(p, today)[c] == Or(Get(p, c), Text(""))
  {
  }

  lemma HhSellPatchText(p: Row, today: string, c: Column)
    requires IsHhSellText(c)
    ensures c in HhSellPatch(p, today) && HhSellPatch(p, today)[c] == Or(Get(p, c), Text(""))
  {
  }

  lemma LwSellPatchNumeric(p: Row, today: string, c: Column)
    requires IsLwSellNumeric(c)
    ensures c in LwSellPatch(p, today) && LwSellPatch(p, today)[c] == Or(Get(p, c), Num(0.0))
  {
  }

  lemma HhSellPatchNumeric(p: Row, today: string, c: Column)
    requires IsHhSellNumeric(c)
    ensures c in HhSellPatch(p, today) && HhSellPatch(p, today)[c] == Or(Get(p, c), Num(0.0))
  {
  }

  /** A sale writes every text field of the variant's sale form with `|| ''`. */
  lemma SellPatchText(p: Row, today: string, c: Column)
    requires IsSellText(p, c)
    ensures c in SellPatch(p, today) && TextDefaulted(Get(p, c), SellPatch(p, today)[c])
  {
    if IsLivingWater(p) {
      LwSellPatchText(p, today, c);
    } else {
      HhSellPatchText(p, today, c);
    }
  }

  /** A sale writes every numeric field of the variant's sale form with `|| 0`. */
  lemma SellPatchNumeric(p: Row, today: string, c: Column)
    requires IsSellNumeric(p, c)
    ensures c in SellPatch(p, today) && SellPatch(p, today)[c] == Or(Get(p, c), Num(0.0))
  {
    if IsLivingWater(p) {
      LwSellPatchNumeric(p, today, c);
    } else {
      HhSellPatchNumeric(p, today, c);
    }
  }

  /** The row the page shows after a sale keeps its variant, its id and its buyer. */
  lemma SellKeepsBuyer(p: Row, today: string)
    requires Truthy(ClientName(p))
    ensures IsLivingWater(Merge(p, SellPatch(p, today))) == IsLivingWater(p)
    ensures ClientName(Merge(p, SellPatch(p, today))) == ClientName(p)
    ensures Get(Merge(p, SellPatch(p, today)), Id) == Get(p, Id)
  {
    var patch := SellPatch(p, today);
    assert Id !in patch;
    if IsLivingWater(p) {
      SellPatchText(p, today, Owner);
    } else {
      SellPatchText(p, today, BuyersName);
      assert Owner !in patch;
    }
  }

  /** The Balance lookup key: project name, Block and Lot. */
  function BalanceKey(project: Project, p: Row): EqChain {
    [(Project, Text(ProjectName(project))), (Block, Get(p, Block)), (Lot, Get(p, Lot))]
  }

  /** The Balance fields a sale writes. */
  function SaleBalance(p: Row): Row {
    map[Name := ClientName(p),
        RemainingBalance := if IsLivingWater(p) then Get(p, NetContractPrice) else Get(p, TCP),
        Amount := if IsLivingWater(p) then Get(p, FirstMA) else Get(p, FirstMACaps),
        MonthsPaid := Text("0"),
        MonthsPaidCaps := Num(0.0)]
  }

  /** A row that already carries the sale's Balance fields reads them back. */
  lemma SaleBalanceFields(row: Row, p: Row)
    requires Merge(row, SaleBalance(p)) == row
    ensures Get(row, Name) == ClientName(p)
    ensures Get(row, RemainingBalance) == (if IsLivingWater(p) then Get(p, NetContractPrice) else Get(p, TCP))
    ensures Get(row, Amount) == (if IsLivingWater(p) then Get(p, FirstMA) else Get(p, FirstMACaps))
    ensures Get(row, MonthsPaid) == Text("0") && Get(row, MonthsPaidCaps) == Num(0.0)
  {
    var sb := SaleBalance(p);
    assert Name in sb && RemainingBalance in sb && Amount in sb && MonthsPaid in sb && MonthsPaidCaps in sb;
  }

  /** The Clients rows carrying a name. */
  function ClientsNamed(st: Store, name: Value): seq<Row> {
    Select(Rows(st, Clients), [(Name, name)])
  }

  /** Insert a client only when no client has that name. */
  function AddClientIfAbsent(st: Store, name: Value): (r: Store)
    ensures forall t :: t != Clients ==> Rows(r, t) == Rows(st, t)
    ensures name != Null && name != NaN ==>
      |ClientsNamed(r, name)| == if |ClientsNamed(st, name)| == 0 then 1 else |ClientsNamed(st, name)|
  {
    if |ClientsNamed(st, name)| == 0 then
      SelectAppend(Rows(st, Clients), map[Name := name], [(Name, name)]);
      Insert(st, Clients, map[Name := name])
    else st
  }

  /** The Balance row a sale inserts when `.single()` finds no row. */
  function NewBalance(project: Project, p: Row): Row {
    SaleBalance(p) + map[Project := Text(ProjectName(project)), Block := Get(p, Block), Lot := Get(p, Lot)]
  }

  /** The Balance rows after a sale: the one row `.single()` found is updated,
      otherwise a new row is appended. */
  function UpsertRows(t: seq<Row>, project: Project, p: Row): (r: seq<Row>)
    ensures |r| == if SingleFound(t, BalanceKey(project, p)) then |t| else |t| + 1
  {
    var key := BalanceKey(project, p);
    if SingleFound(t, key) then Update(t, key, SaleBalance(p)) else t + [NewBalance(project, p)]
  }

  function UpsertBalance(st: Store, project: Project, p: Row): (r: Store)
    ensures Rows(r, Balance) == UpsertRows(Rows(st, Balance), project, p)
    ensures forall t :: t != Balance ==> Rows(r, t) == Rows(st, t)
  {
    WithRows(st, Balance, UpsertRows(Rows(st, Balance), project, p))
  }

  /** After the upsert exactly one more row matches the lot's key, unless
      exactly one matched already, and some matching row holds the sale's
      balance fields. */
  lemma UpsertRecordsSale(t: seq<Row>, project: Project, p: Row)
    requires KeyDefined(p)
    ensures var key := BalanceKey(project, p);
            var n := |Select(t, key)|;
            var after := UpsertRows(t, project, p);
            && |Select(after, key)| == (if n == 1 then 1 else n + 1)
            && exists i :: 0 <= i < |after| && MatchesAll(after[i], key) && Merge(after[i], SaleBalance(p)) == after[i]
  {
    if SingleFound(t, BalanceKey(project, p)) {
      UpsertUpdatesSingle(t, project, p);
    } else {
      UpsertAppendsNew(t, project, p);
    }
  }

  /** When `.single()` found the lot's row, that row is updated in place. */
  lemma UpsertUpdatesSingle(t: seq<Row>, project: Project, p: Row)
    requires SingleFound(t, BalanceKey(project, p))
    ensures var key := BalanceKey(project, p);
            var after := UpsertRows(t, project, p);
            && |Select(after, key)| == 1
            && exists i :: 0 <= i < |after| && MatchesAll(after[i], key) && Merge(after[i], SaleBalance(p)) == after[i]
  {
    UpdateSingleRow(t, BalanceKey(project, p), SaleBalance(p));
  }

  /** Otherwise a new row carrying the project, block and lot is appended. */
  lemma UpsertAppendsNew(t: seq<Row>, project: Project, p: Row)
    requires KeyDefined(p) && !SingleFound(t, BalanceKey(project, p))
    ensures var key := BalanceKey(project, p);
            var after := UpsertRows(t, project, p);
            && |Select(after, key)| == |Select(t, key)| + 1
            && MatchesAll(after[|t|], key) && Merge(after[|t|], SaleBalance(p)) == after[|t|]
  {
    var key := BalanceKey(project, p);
    var row := NewBalance(project, p);
    NewBalanceMatchesKey(project, p);
    SelectAppend(t, row, key);
    NewBalanceHoldsSale(project, p);
    assert UpsertRows(t, project, p) == t + [row];
  }

  /** The appended row already carries the sale's Balance fields. */
  lemma NewBalanceHoldsSale(project: Project, p: Row)
    ensures Merge(NewBalance(project, p), SaleBalance(p)) == NewBalance(project, p)
  {
  }

  /** The appended row matches the lot's key when Block and Lot are defined. */
  lemma NewBalanceMatchesKey(project: Project, p: Row)
    requires KeyDefined(p)
    ensures MatchesAll(NewBalance(project, p), BalanceKey(project, p))
  {
    var row := NewBalance(project, p);
    var key := BalanceKey(project, p);
    forall k | 0 <= k < |key| ensures SqlEq(Get(row, key[k].0), key[k].1) {
      StrictEqIsEqualityButNaN(Get(row, key[k].0), key[k].1);
    }
  }

  /** The client and Balance writes that follow a successful lot write: both
      are skipped when the lot has no buyer name. */
  function RecordBuyer(st: Store, project: Project, p: Row): (r: Store)
    ensures !Truthy(ClientName(p)) ==> r == st
    ensures Truthy(ClientName(p)) ==> Rows(r, Clients) == Rows(AddClientIfAbsent(st, ClientName(p)), Clients)
    ensures Truthy(ClientName(p)) ==> Rows(r, Balance) == UpsertRows(Rows(st, Balance), project, p)
    ensures forall t :: t != Clients && t != Balance ==> Rows(r, t) == Rows(st, t)
  {
    var name := ClientName(p);
    if !Truthy(name) then st
    else
      var st1 := AddClientIfAbsent(st, name);
      assert Rows(st1, Balance) == Rows(st, Balance);
      UpsertBalance(st1, project, p)
  }

  /** `confirmSell`: write the lot, then (when there is a buyer name) the client
      and the Balance row. A failed lot write throws before anything else. */
  function Sell(st: Store, project: Project, p: Row, today: string, writeOk: bool): (r: Store)
    ensures !writeOk ==> r == st
    ensures forall t :: t != PropertyTable(project) && t != Clients && t != Balance ==> Rows(r, t) == Rows(st, t)
    ensures writeOk ==> Rows(r, PropertyTable(project)) == Update(Rows(st, PropertyTable(project)), ById(Get(p, Id)), SellPatch(p, today))
    ensures !Truthy(ClientName(p)) ==> Rows(r, Clients) == Rows(st, Clients) && Rows(r, Balance) == Rows(st, Balance)
    ensures writeOk && Truthy(ClientName(p)) ==>
      && Rows(r, Clients) == Rows(AddClientIfAbsent(st, ClientName(p)), Clients)
      && Rows(r, Balance) == UpsertRows(Rows(st, Balance), project, p)
  {
    if !writeOk then st
    else
      var st1 := UpdateTable(st, PropertyTable(project), ById(Get(p, Id)), SellPatch(p, today));
      assert Rows(st1, Clients) == Rows(st, Clients) && Rows(st1, Balance) == Rows(st, Balance);
      RecordBuyer(st1, project, p)
  }

  /** Every lot row carrying the sold lot's id reads Sold afterwards, and no
      other lot row changes. */
  lemma SellMarksSold(st: Store, project: Project, p: Row, today: string)
    ensures var before := Rows(st, PropertyTable(project));
            var after := Rows(Sell(st, project, p, today, true), PropertyTable(project));
            && |after| == |before|
            && (forall i :: 0 <= i < |before| && SqlEq(Get(before[i], Id), Get(p, Id)) ==>
                  Get(after[i], Status) == Text("Sold") && Get(after[i], Block) == Get(p, Block))
            && (forall i :: 0 <= i < |before| && !SqlEq(Get(before[i], Id), Get(p, Id)) ==> after[i] == before[i])
  {
    var before := Rows(st, PropertyTable(project));
    var patch := SellPatch(p, today);
    var after := Rows(Sell(st, project, p, today, true), PropertyTable(project));
    assert after == Update(before, ById(Get(p, Id)), patch);
    SellPatchFixed(p, today);
    forall i | 0 <= i < |before|
      ensures SqlEq(Get(before[i], Id), Get(p, Id)) ==> Get(after[i], Status) == Text("Sold") && Get(after[i], Block) == Get(p, Block)
      ensures !SqlEq(Get(before[i], Id), Get(p, Id)) ==> after[i] == before[i]
    {
      MatchesOne(before[i], Id, Get(p, Id));
    }
  }

  /** A sale with a buyer name leaves exactly one client of that name when
      there was none, and adds nothing when there was one already. */
  lemma SellAddsClientOnlyIfAbsent(st: Store, project: Project, p: Row, today: string)
    requires Truthy(ClientName(p))
    ensures var n := |ClientsNamed(st, ClientName(p))|;
            |ClientsNamed(Sell(st, project, p, today, true), ClientName(p))| == if n == 0 then 1 else n
  {
    var st1 := UpdateTable(st, PropertyTable(project), ById(Get(p, Id)), SellPatch(p, today));
    assert Rows(st1, Clients) == Rows(st, Clients);
  }

  /** Selling the same lot twice adds no second client. */
  lemma SellTwiceAddsNoDuplicateClient(st: Store, project: Project, p: Row, today: string)
    requires Truthy(ClientName(p))
    ensures var once := Sell(st, project, p, today, true);
            |ClientsNamed(Sell(once, project, p, today, true), ClientName(p))| == |ClientsNamed(once, ClientName(p))|
  {
    var once := Sell(st, project, p, today, true);
    SellAddsClientOnlyIfAbsent(st, project, p, today);
    SellAddsClientOnlyIfAbsent(once, project, p, today);
  }

  /** A key whose values can match a stored row. */
  predicate KeyDefined(p: Row) {
    Get(p, Block) != Null && Get(p, Block) != NaN && Get(p, Lot) != Null && Get(p, Lot) != NaN
  }

  /** After a sale with a buyer name the lot has a Balance row carrying the
      buyer, the opening balance, the first amortization and zero months paid.
      When exactly one row matched before it is updated in place; otherwise one
      more row is inserted. */
  lemma SellRecordsBalance(st: Store, project: Project, p: Row, today: string)
    requires Truthy(ClientName(p)) && KeyDefined(p)
    ensures var key := BalanceKey(project, p);
            var n := |Select(Rows(st, Balance), key)|;
            var after := Rows(Sell(st, project, p, today, true), Balance);
            && |Select(after, key)| == (if n == 1 then 1 else n + 1)
            && exists i :: 0 <= i < |after| && MatchesAll(after[i], key)
                 && Get(after[i], Name) == ClientName(p)
                 && Get(after[i], RemainingBalance) == (if IsLivingWater(p) then Get(p, NetContractPrice) else Get(p, TCP))
                 && Get(after[i], Amount) == (if IsLivingWater(p) then Get(p, FirstMA) else Get(p, FirstMACaps))
                 && Get(after[i], MonthsPaid) == Text("0") && Get(after[i], MonthsPaidCaps) == Num(0.0)
  {
    var after := Rows(Sell(st, project, p, today, true), Balance);
    UpsertRecordsSale(Rows(st, Balance), project, p);
    var i :| 0 <= i < |after| && MatchesAll(after[i], BalanceKey(project, p)) && Merge(after[i], SaleBalance(p)) == after[i];
    SaleBalanceFields(after[i], p);
  }

  /** A Living Water lot shown by the page has no Term or Advance Payment
      field, so selling it writes an empty Term and a zero advance payment
      whatever the stored row held. */
  lemma SellAfterTransformBlanksTerm(item: Row, today: string)
    ensures var patch := SellPatch(TransformLivingWater(item), today);
            Get(patch, Term) == Text("") && Get(patch, AdvancePayment) == Num(0.0)
  {
    var shown := TransformLivingWater(item);
    TransformLivingWaterShape(item);
    TransformLivingWaterDrops(item);
    SellPatchText(shown, today, Term);
    SellPatchNumeric(shown, today, AdvancePayment);
  }

  // ----- reopen -----

  /** Living Water fields a reopen blanks. */
  predicate IsLwReopenBlank(c: Column) {
    c.Owner? || c.DueDate1530? || c.FirstDueMonth? || c.Realty? || c.DateOfReservation? || c.SellerName?
    || c.BrokerRealty?
  }

  /** Havahills fields a reopen blanks. */
  predicate IsHhReopenBlank(c: Column) {
    c.BuyersName? || c.Due? || c.FirstDue? || c.Realty? || c.DateOfReservation? || c.SellerName?
    || c.Broker? || c.SalesDirector? || c.ModeOfPayment?
  }

  predicate IsReopenBlank(p: Row, c: Column) {
    if IsLivingWater(p) then IsLwReopenBlank(c) else IsHhReopenBlank(c)
  }

  function ReopenField(c: Column): Value {
    if c == Status then Text("Available") else Text("")
  }

  /** The update object a reopen writes to the lot: the status plus the
      variant's buyer, people and date fields. */
  function ReopenPatch(p: Row): Row
  {
    map c: Column | IsReopenBlank(p, c) || c == Status :: ReopenField(c)
  }

  /** A reopen writes exactly the status and the variant's blanked fields. */
  lemma ReopenPatchKeys(p: Row, c: Column)
    ensures c in ReopenPatch(p) <==> IsReopenBlank(p, c) || c == Status
  {
  }

  /** A reopen writes Available. */
  lemma ReopenPatchStatus(p: Row)
    ensures Status in ReopenPatch(p) && ReopenPatch(p)[Status] == Text("Available")
  {
  }

  /** A reopen leaves the lot's id alone. */
  lemma ReopenPatchKeepsId(p: Row)
    ensures Id !in ReopenPatch(p)
  {
    assert !IsReopenBlank(p, Id);
  }

  /** A reopen blanks the sale's people and dates. */
  lemma ReopenPatchBlank(p: Row, c: Column)
    requires IsReopenBlank(p, c)
    ensures c in ReopenPatch(p) && ReopenPatch(p)[c] == Text("")
  {
  }

  /** After a reopen's merge the lot is still the same variant and has no buyer name. */
  lemma ReopenClearsBuyer(p: Row)
    ensures IsLivingWater(Merge(p, ReopenPatch(p))) == IsLivingWater(p)
    ensures ClientName(Merge(p, ReopenPatch(p))) == Text("")
  {
    if IsLivingWater(p) {
      ReopenPatchBlank(p, Owner);
    } else {
      ReopenPatchBlank(p, BuyersName);
      assert Owner !in ReopenPatch(p);
    }
  }

  /** What a reopen writes to the Balance rows carrying the buyer's name. */
  const BlankBalance: Row := map[Name := Text(""), RemainingBalance := Null, Amount := Null,
                                 MonthsPaid := Text(""), MonthsPaidCaps := Null]

  /** Which of a reopen's writes succeed: the Clients delete, the Documents
      delete and the Balance blank, whose failures are only logged, and the
      lot write, whose failure throws. */
  datatype ReopenWrites = ReopenWrites(clientsOk: bool, documentsOk: bool, balanceOk: bool, lotOk: bool)

  /** `confirmReopen`: with a buyer name, delete the buyer's clients and
      documents, blank the buyer's Balance rows, then write the lot. A failed
      clean-up write leaves its table as it was and the reopen carries on; a
      failed lot write throws after the clean-up writes took effect. */
  function Reopen(st: Store, project: Project, p: Row, w: ReopenWrites): (r: Store)
    ensures !Truthy(ClientName(p)) ==> r == st
    ensures forall t :: t !in {PropertyTable(project), Clients, Documents, Balance} ==> Rows(r, t) == Rows(st, t)
    ensures |Rows(r, Balance)| == |Rows(st, Balance)|
    ensures w.lotOk && Truthy(ClientName(p)) ==>
      Rows(r, PropertyTable(project)) == Update(Rows(st, PropertyTable(project)), ById(Get(p, Id)), ReopenPatch(p))
    ensures !w.lotOk ==> Rows(r, PropertyTable(project)) == Rows(st, PropertyTable(project))
    ensures Truthy(ClientName(p)) ==>
      && Rows(r, Clients) == (if w.clientsOk then Delete(Rows(st, Clients), [(Name, ClientName(p))]) else Rows(st, Clients))
      && Rows(r, Documents) == (if w.documentsOk then Delete(Rows(st, Documents), [(Name, ClientName(p))]) else Rows(st, Documents))
      && Rows(r, Balance) == (if w.balanceOk then Update(Rows(st, Balance), [(Name, ClientName(p))], BlankBalance) else Rows(st, Balance))
  {
    var name := ClientName(p);
    if !Truthy(name) then st
    else
      var st1 := if w.clientsOk then DeleteTable(st, Clients, [(Name, name)]) else st;
      var st2 := if w.documentsOk then DeleteTable(st1, Documents, [(Name, name)]) else st1;
      var st3 := if w.balanceOk then UpdateTable(st2, Balance, [(Name, name)], BlankBalance) else st2;
      if w.lotOk then UpdateTable(st3, PropertyTable(project), ById(Get(p, Id)), ReopenPatch(p)) else st3
  }

  /** After a reopen with a buyer name, no client, document or Balance row
      carries that name once its own write succeeded, whether or not the lot
      write did. */
  lemma ReopenForgetsBuyer(st: Store, project: Project, p: Row, w: ReopenWrites)
    requires Truthy(ClientName(p))
    ensures var r := Reopen(st, project, p, w);
            var f := [(Name, ClientName(p))];
            && (w.clientsOk ==> Select(Rows(r, Clients), f) == [])
            && (w.documentsOk ==> Select(Rows(r, Documents), f) == [])
            && (w.balanceOk ==> Select(Rows(r, Balance), f) == [])
  {
    var f := [(Name, ClientName(p))];
    DeleteLeavesNoMatch(Rows(st, Clients), f);
    DeleteLeavesNoMatch(Rows(st, Documents), f);
    BlankingForgetsName(Rows(st, Balance), ClientName(p));
  }

  /** A failed client delete does not stop the reopen: when the lot write
      succeeds the buyer's client rows are all still there while the lot reads
      Available. */
  lemma ReopenKeepsClientOnFailedDelete(st: Store, project: Project, p: Row, w: ReopenWrites)
    requires Truthy(ClientName(p)) && !w.clientsOk && w.lotOk
    ensures var r := Reopen(st, project, p, w);
            var f := [(Name, ClientName(p))];
            var lots := Rows(r, PropertyTable(project));
            && Select(Rows(r, Clients), f) == Select(Rows(st, Clients), f)
            && forall i :: 0 <= i < |lots| && SqlEq(Get(lots[i], Id), Get(p, Id)) ==> Get(lots[i], Status) == Text("Available")
  {
    ReopenMarksAvailable(st, project, p, w);
    var before := Rows(st, PropertyTable(project));
    var lots := Rows(Reopen(st, project, p, w), PropertyTable(project));
    forall i | 0 <= i < |lots| && SqlEq(Get(lots[i], Id), Get(p, Id)) ensures Get(lots[i], Status) == Text("Available") {
      assert SqlEq(Get(before[i], Id), Get(p, Id));
    }
  }

  /** Blanking the rows that carry a name leaves no row carrying it. */
  lemma BlankingForgetsName(t: seq<Row>, name: Value)
    requires Truthy(name)
    ensures Select(Update(t, [(Name, name)], BlankBalance), [(Name, name)]) == []
  {
    var f := [(Name, name)];
    var b := Update(t, f, BlankBalance);
    forall i | 0 <= i < |b| ensures !MatchesAll(b[i], f) {
      MatchesOne(b[i], Name, name);
      MatchesOne(t[i], Name, name);
    }
    FilterKeepsNone(b, row => MatchesAll(row, f));
  }

  /** With a buyer name and a successful lot write, every lot row carrying the
      lot's id reads Available afterwards, and no other lot row changes. */
  lemma ReopenMarksAvailable(st: Store, project: Project, p: Row, w: ReopenWrites)
    requires Truthy(ClientName(p)) && w.lotOk
    ensures var before := Rows(st, PropertyTable(project));
            var after := Rows(Reopen(st, project, p, w), PropertyTable(project));
            && |after| == |before|
            && (forall i :: 0 <= i < |before| && SqlEq(Get(before[i], Id), Get(p, Id)) ==>
                  Get(after[i], Status) == Text("Available") && Get(after[i], Id) == Get(before[i], Id))
            && (forall i :: 0 <= i < |before| && !SqlEq(Get(before[i], Id), Get(p, Id)) ==> after[i] == before[i])
  {
    var before := Rows(st, PropertyTable(project));
    var after := Rows(Reopen(st, project, p, w), PropertyTable(project));
    assert after == Update(before, ById(Get(p, Id)), ReopenPatch(p));
    ReopenPatchStatus(p);
    ReopenPatchKeepsId(p);
    UpdateByIdSetsStatus(before, Get(p, Id), ReopenPatch(p));
  }

  /** An update by id with a patch that sets Status and leaves Id alone sets
      that status on the rows with the id and changes no other row. */
  lemma UpdateByIdSetsStatus(before: seq<Row>, id: Value, patch: Row)
    requires Status in patch && Id !in patch
    ensures var after := Update(before, ById(id), patch);
            && |after| == |before|
            && (forall i :: 0 <= i < |before| && SqlEq(Get(before[i], Id), id) ==>
                  Get(after[i], Status) == patch[Status] && Get(after[i], Id) == Get(before[i], Id))
            && (forall i :: 0 <= i < |before| && !SqlEq(Get(before[i], Id), id) ==> after[i] == before[i])
  {
    var after := Update(before, ById(id), patch);
    forall i | 0 <= i < |before|
      ensures SqlEq(Get(before[i], Id), id) ==> Get(after[i], Status) == patch[Status] && Get(after[i], Id) == Get(before[i], Id)
      ensures !SqlEq(Get(before[i], Id), id) ==> after[i] == before[i]
    {
      UpdateByIdRow(before, id, patch, i);
    }
  }

  /** Selling a lot and then reopening the row the page shows afterwards
      leaves no client, document or Balance row with the buyer's name, each
      once its clean-up write succeeded, and the lot reads Available again once
      the lot write succeeded. */
  lemma SellThenReopen(st: Store, project: Project, p: Row, today: string, w: ReopenWrites)
    requires Truthy(ClientName(p))
    ensures var shown := Merge(p, SellPatch(p, today));
            var r := Reopen(Sell(st, project, p, today, true), project, shown, w);
            var f := [(Name, ClientName(p))];
            var lots := Rows(r, PropertyTable(project));
            && ClientName(shown) == ClientName(p)
            && (w.clientsOk ==> Select(Rows(r, Clients), f) == [])
            && (w.documentsOk ==> Select(Rows(r, Documents), f) == [])
            && (w.balanceOk ==> Select(Rows(r, Balance), f) == [])
            && (w.lotOk ==> forall i :: 0 <= i < |lots| && SqlEq(Get(lots[i], Id), Get(p, Id)) ==> Get(lots[i], Status) == Text("Available"))
  {
    SellKeepsBuyer(p, today);
    ReopenSameBuyer(Sell(st, project, p, today, true), project, Merge(p, SellPatch(p, today)), p, w);
  }

  /** Reopening a row that names the same buyer and carries the same id as `p`
      forgets that buyer wherever the clean-up write succeeded, and marks the
      lot Available when the lot write succeeded. */
  lemma ReopenSameBuyer(st: Store, project: Project, shown: Row, p: Row, w: ReopenWrites)
    requires Truthy(ClientName(p)) && ClientName(shown) == ClientName(p) && Get(shown, Id) == Get(p, Id)
    ensures var r := Reopen(st, project, shown, w);
            var f := [(Name, ClientName(p))];
            var lots := Rows(r, PropertyTable(project));
            && (w.clientsOk ==> Select(Rows(r, Clients), f) == [])
            && (w.documentsOk ==> Select(Rows(r, Documents), f) == [])
            && (w.balanceOk ==> Select(Rows(r, Balance), f) == [])
            && (w.lotOk ==> forall i :: 0 <= i < |lots| && SqlEq(Get(lots[i], Id), Get(p, Id)) ==> Get(lots[i], Status) == Text("Available"))
  {
    ReopenForgetsBuyer(st, project, shown, w);
    if w.lotOk {
      ReopenMarksAvailable(st, project, shown, w);
      var before := Rows(st, PropertyTable(project));
      var lots := Rows(Reopen(st, project, shown, w), PropertyTable(project));
      forall i | 0 <= i < |lots| && SqlEq(Get(lots[i], Id), Get(p, Id)) ensures Get(lots[i], Status) == Text("Available") {
        assert SqlEq(Get(before[i], Id), Get(p, Id));
      }
    }
  }

  // ----- the page's own list -----

  /** `prevProperties.map(prop => prop.id === id ? {...prop, ...patch} : prop)`. */
  function MergeById(props: seq<Row>, id: Value, patch: Row): (r: seq<Row>)
    ensures |r| == |props|
    ensures forall i :: 0 <= i < |props| && StrictEq(Get(props[i], Id), id) ==> r[i] == Merge(props[i], patch)
    ensures forall i :: 0 <= i < |props| && !StrictEq(Get(props[i], Id), id) ==> r[i] == props[i]
  {
    MapSeq(props, (prop: Row) => if StrictEq(Get(prop, Id), id) then prop + patch else prop)
  }

  /** The list after a sale; unchanged when the lot write failed. */
  function SellLocal(props: seq<Row>, p: Row, today: string, writeOk: bool): seq<Row> {
    if writeOk then MergeById(props, Get(p, Id), SellPatch(p, today)) else props
  }

  /** The list after a reopen; unchanged without a buyer name or when the lot write failed. */
  function ReopenLocal(props: seq<Row>, p: Row, writeOk: bool): seq<Row> {
    if writeOk && Truthy(ClientName(p)) then MergeById(props, Get(p, Id), ReopenPatch(p)) else props
  }

  /** With an id that can match, merging by `===` on the page's list does what
      the database update by `.eq('id', id)` does to the table. */
  lemma MergeByIdIsUpdate(t: seq<Row>, id: Value, patch: Row)
    requires id != Null && id != NaN
    ensures MergeById(t, id, patch) == Update(t, ById(id), patch)
  {
    forall i | 0 <= i < |t| ensures StrictEq(Get(t[i], Id), id) == MatchesAll(t[i], ById(id)) {
      MatchesOne(t[i], Id, id);
    }
  }

  /** When the lot has an id, the page's list after a sale equals what the lot
      table holds afterwards (starting from the same rows). */
  lemma SellLocalMirrorsStore(st: Store, project: Project, p: Row, today: string, writeOk: bool)
    requires Get(p, Id) != Null && Get(p, Id) != NaN
    ensures SellLocal(Rows(st, PropertyTable(project)), p, today, writeOk)
            == Rows(Sell(st, project, p, today, writeOk), PropertyTable(project))
  {
    MergeByIdIsUpdate(Rows(st, PropertyTable(project)), Get(p, Id), SellPatch(p, today));
  }

  /** The same for a reopen, including failed writes and a lot with no buyer. */
  lemma ReopenLocalMirrorsStore(st: Store, project: Project, p: Row, w: ReopenWrites)
    requires Get(p, Id) != Null && Get(p, Id) != NaN
    ensures ReopenLocal(Rows(st, PropertyTable(project)), p, w.lotOk)
            == Rows(Reopen(st, project, p, w), PropertyTable(project))
  {
    MergeByIdIsUpdate(Rows(st, PropertyTable(project)), Get(p, Id), ReopenPatch(p));
  }
}
