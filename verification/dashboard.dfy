/** The admin dashboard's counters: lots available, sold and in total per
    development and overall, active client accounts, and the occupied and
    reserved counts behind the property metrics. */
module Dashboard {
  import opened Js
  import opened Seqs
  import opened Tables

  /** A table read: the request failed, or it returned rows. */
  datatype Fetch = FetchError | Fetched(rows: seq<Row>)

  datatype Option<T> = None | Some(value: T)

  datatype LotStats = LotStats(available: nat, sold: nat, total: nat)

  const NoLots := LotStats(0, 0, 0)

  /** The counters `fetchLotData` sets. */
  datatype LotCounts = LotCounts(livingWater: LotStats, havahills: LotStats, available: nat, sold: nat, total: nat)

  const NoCounts := LotCounts(NoLots, NoLots, 0, 0, 0)

  predicate IsAvailableLot(row: Row) {
    StatusLower(row) == "available"
  }

  predicate IsSoldLot(row: Row) {
    StatusLower(row) == "sold"
  }

  predicate IsReservedLot(row: Row) {
    StatusLower(row) == "reserved"
  }

  /** `Status?.toLowerCase()` throws on a Status that is present but not
      text. */
  predicate StatusThrows(row: Row) {
    Get(row, Status) != Null && !Get(row, Status).Text?
  }

  /** Some row of a successful read has a Status that makes the count throw. */
  predicate FetchThrows(f: Fetch) {
    f.Fetched? && exists i :: 0 <= i < |f.rows| && StatusThrows(f.rows[i])
  }

  /** One development's counts; a failed read counts nothing. */
  function StatsOf(f: Fetch): (r: LotStats)
    ensures f.FetchError? ==> r == NoLots
  {
    match f
    case FetchError => NoLots
    case Fetched(rows) => LotStats(Count(rows, IsAvailableLot), Count(rows, IsSoldLot), |rows|)
  }

  /** `fetchLotData`: per-development counts and their sums; a throw while
      counting resets every counter. */
  function FetchLotData(lw: Fetch, hh: Fetch): (r: LotCounts)
    ensures FetchThrows(lw) || FetchThrows(hh) ==> r == NoCounts
    ensures !FetchThrows(lw) && !FetchThrows(hh) ==> r.livingWater == StatsOf(lw) && r.havahills == StatsOf(hh)
    ensures r.available == r.livingWater.available + r.havahills.available
    ensures r.sold == r.livingWater.sold + r.havahills.sold
    ensures r.total == r.livingWater.total + r.havahills.total
  {
    if FetchThrows(lw) || FetchThrows(hh) then NoCounts
    else
      var a := StatsOf(lw);
      var b := StatsOf(hh);
      LotCounts(a, b, a.available + b.available, a.sold + b.sold, a.total + b.total)
  }

  /** A lot is never both available and sold, so a development's available
      and sold lots together are at most its lots. */
  lemma StatsBounded(f: Fetch)
    ensures StatsOf(f).available + StatsOf(f).sold <= StatsOf(f).total
  {
    if f.Fetched? {
      CountDisjoint(f.rows, IsAvailableLot, IsSoldLot);
    }
  }

  /** The overall counters keep that bound. */
  lemma CountsBounded(lw: Fetch, hh: Fetch)
    ensures FetchLotData(lw, hh).available + FetchLotData(lw, hh).sold <= FetchLotData(lw, hh).total
  {
    StatsBounded(lw);
    StatsBounded(hh);
  }

  /** A development whose read failed shows zeros and the totals are the
      other development's counts. */
  lemma FailedReadCountsNothing(lw: Fetch, hh: Fetch)
    requires lw.FetchError? && !FetchThrows(hh)
    ensures FetchLotData(lw, hh).livingWater == NoLots
    ensures FetchLotData(lw, hh).available == StatsOf(hh).available
    ensures FetchLotData(lw, hh).sold == StatsOf(hh).sold
    ensures FetchLotData(lw, hh).total == StatsOf(hh).total
  {
  }

  /** Counting ignores case: rows whose statuses agree once lower-cased are
      counted alike. */
  lemma CountIgnoresCase(a: seq<Row>, b: seq<Row>)
    requires |a| == |b|
    requires forall i :: 0 <= i < |a| ==> StatusLower(a[i]) == StatusLower(b[i])
    ensures StatsOf(Fetched(a)) == StatsOf(Fetched(b))
  {
    CountPointwise(a, IsAvailableLot, b, IsAvailableLot);
    CountPointwise(a, IsSoldLot, b, IsSoldLot);
  }

  // ----- active accounts -----

  /** `client.Email && client.Email.trim() !== ''`. */
  predicate HasEmail(row: Row) {
    var e := Get(row, Email);
    Truthy(e) && e.Text? && Trim(e.s) != ""
  }

  /** `Email.trim()` throws on an Email that is truthy but not text. */
  predicate EmailThrows(row: Row) {
    Truthy(Get(row, Email)) && !Get(row, Email).Text?
  }

  predicate EmailsThrow(rows: seq<Row>) {
    exists i :: 0 <= i < |rows| && EmailThrows(rows[i])
  }

  /** `fetchActiveAccounts`: the number of clients with an email; a failed
      read or a throw leaves the counter as it was. */
  function ActiveAccounts(previous: nat, f: Fetch): (r: nat)
    ensures f.FetchError? ==> r == previous
    ensures f.Fetched? && !EmailsThrow(f.rows) ==> r <= |f.rows|
  {
    match f
    case FetchError => previous
    case Fetched(rows) =>
      if EmailsThrow(rows) then previous else Count(rows, HasEmail)
  }

  /** A client counts exactly when its Email is text holding a non-blank
      character. */
  lemma HasEmailIff(row: Row)
    ensures HasEmail(row) <==> Get(row, Email).Text? && HasNonSpace(Get(row, Email).s)
  {
    if Get(row, Email).Text? {
      TrimmedIff(Get(row, Email).s);
    }
  }

  // ----- property metrics -----

  datatype Occupancy = Occupancy(occupied: nat, reserved: nat, properties: nat)

  /** The counts `fetchPropertyMetrics` computes from both developments'
      lots; `None` when either read failed or the count threw, and the
      metrics stay as they were. */
  function PropertyCounts(lw: Fetch, hh: Fetch): (r: Option<Occupancy>)
    ensures r.Some? <==> lw.Fetched? && hh.Fetched? && !FetchThrows(lw) && !FetchThrows(hh)
  {
    if lw.FetchError? || hh.FetchError? || FetchThrows(lw) || FetchThrows(hh) then None
    else
      var all := lw.rows + hh.rows;
      Some(Occupancy(Count(all, IsSoldLot), Count(all, IsReservedLot), |all|))
  }

  /** The occupied count agrees with the sold lots `fetchLotData` reports,
      and occupied and reserved lots are at most all lots. */
  lemma OccupancyAgreesWithLotCounts(lw: Fetch, hh: Fetch)
    requires PropertyCounts(lw, hh).Some?
    ensures PropertyCounts(lw, hh).value.occupied == FetchLotData(lw, hh).sold
    ensures PropertyCounts(lw, hh).value.properties == FetchLotData(lw, hh).total
    ensures PropertyCounts(lw, hh).value.occupied + PropertyCounts(lw, hh).value.reserved
            <= PropertyCounts(lw, hh).value.properties
  {
    var all := lw.rows + hh.rows;
    CountAppend(lw.rows, hh.rows, IsSoldLot);
    CountDisjoint(all, IsSoldLot, IsReservedLot);
  }
}
