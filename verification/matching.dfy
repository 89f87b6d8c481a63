/**
 * The deposit matcher `_findMatchingElement`: the first deposit, in the order the
 * exchange lists them, whose status is 'ok' and whose amount lies in the tolerance band
 * around the expected amount.
 */
module Matching {
  import opened Wrappers

  /** `PERCENTAGE_GAP`: the band is [t * P/100, t * (2 - P/100)]. */
  const PERCENTAGE_GAP: real := 98.0

  /** A deposit as the exchange client reports it (only the fields the matcher reads). */
  datatype DepositRecord = DepositRecord(amount: real, status: string)

  function LowerBound(target: real): real {
    target * (PERCENTAGE_GAP / 100.0)
  }

  function UpperBound(target: real): real {
    target * (2.0 - PERCENTAGE_GAP / 100.0)
  }

  /** The predicate passed to `Array.find`. */
  predicate Qualifies(d: DepositRecord, target: real) {
    d.status == "ok" && LowerBound(target) <= d.amount <= UpperBound(target)
  }

  /** The index at which `Array.find` stops: the first qualifying record, or |records|. */
  function FirstQualifying(records: seq<DepositRecord>, target: real): (k: nat)
    ensures k <= |records|
    ensures k < |records| ==> Qualifies(records[k], target)
    ensures forall j :: 0 <= j < k ==> !Qualifies(records[j], target)
  {
    if records == [] || Qualifies(records[0], target) then 0
    else 1 + FirstQualifying(records[1..], target)
  }

  /**
   * `_findMatchingElement(array, targetAmount)`: the first qualifying record, by list
   * position and not by closeness to the target; none when no record qualifies.
   */
  function FindMatchingElement(records: seq<DepositRecord>, target: real): (r: Option<DepositRecord>)
    ensures r.Some? ==> Qualifies(r.value, target) && r.value.status == "ok"
    ensures r.Some? ==> exists k :: 0 <= k < |records| && records[k] == r.value
                           && forall j :: 0 <= j < k ==> !Qualifies(records[j], target)
    ensures r.None? <==> forall j :: 0 <= j < |records| ==> !Qualifies(records[j], target)
  {
    var k := FirstQualifying(records, target);
    if k < |records| then Some(records[k]) else None
  }

  /** For a positive target the band contains the target itself and lies within (0.97t, 1.03t). */
  lemma BandAroundTarget(target: real)
    requires target > 0.0
    ensures LowerBound(target) <= target <= UpperBound(target)
    ensures Qualifies(DepositRecord(target, "ok"), target)
    ensures Qualifies(DepositRecord(target * 0.99, "ok"), target)
    ensures !Qualifies(DepositRecord(target * 0.97, "ok"), target)
    ensures !Qualifies(DepositRecord(target * 1.03, "ok"), target)
  {
  }

  /** A record that is not 'ok' is never matched, whatever its amount. */
  lemma NonOkNeverMatched(records: seq<DepositRecord>, target: real, j: nat)
    requires j < |records| && records[j].status != "ok"
    ensures !Qualifies(records[j], target)
    ensures FindMatchingElement(records, target) != Some(records[j])
  {
  }

  /**
   * A matched record has a non-zero amount only when the target is positive, and then
   * its amount is positive: a target of 0 (a null converted value) can only match a
   * zero amount, which `if (amount)` rejects.
   */
  lemma TruthyMatchNeedsPositiveTarget(d: DepositRecord, target: real)
    requires Qualifies(d, target)
    ensures d.amount != 0.0 ==> target > 0.0
    ensures target > 0.0 ==> d.amount > 0.0
  {
  }

  /** Ties go by order: of two qualifying deposits the earlier wins even when the later is exact. */
  lemma FirstNotClosest()
    ensures FindMatchingElement([DepositRecord(99.0, "ok"), DepositRecord(100.0, "ok")], 100.0)
              == Some(DepositRecord(99.0, "ok"))
    ensures FindMatchingElement([DepositRecord(100.0, "pending"), DepositRecord(101.5, "ok")], 100.0)
              == Some(DepositRecord(101.5, "ok"))
  {
  }
}
