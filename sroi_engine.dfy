/**
 * The valuation engine as the program runs it: nested loops over the
 * outcome records and the years, running accumulators for the decayed
 * impact and the record's total, and a per-year totals buffer updated in
 * place. Each result is proved equal to its closed form in SroiSpec.
 */
module SroiEngine {
  import opened SroiSpec

  lemma YearTotalSnoc(os: seq<Outcome>, k: nat, rate: real, n: nat)
    requires k < |os| && RateDefined(rate) && n >= 1
    ensures YearTotal(os[..k + 1], rate, n) ==
      YearTotal(os[..k], rate, n) + (if os[k].stakeholder != "" then Pv(os[k], rate, n) else 0.0)
  {
    IncludedSnoc(os, k);
    var ks := Included(os[..k]);
    if os[k].stakeholder != "" {
      assert (ks + [os[k]])[..|ks|] == ks;
      assert ColumnPv(ks + [os[k]], rate, n) == ColumnPv(ks, rate, n) + Pv(os[k], rate, n);
    } else {
      assert Included(os[..k + 1]) == ks;
    }
  }

  lemma YearTotalsSnoc(os: seq<Outcome>, k: nat, rate: real)
    requires k < |os| && RateDefined(rate)
    ensures forall n :: n >= 1 ==>
      (YearTotal(os[..k + 1], rate, n) ==
       YearTotal(os[..k], rate, n) + (if os[k].stakeholder != "" then Pv(os[k], rate, n) else 0.0))
  {
    forall n | n >= 1
      ensures YearTotal(os[..k + 1], rate, n) ==
        YearTotal(os[..k], rate, n) + (if os[k].stakeholder != "" then Pv(os[k], rate, n) else 0.0)
    {
      YearTotalSnoc(os, k, rate, n);
    }
  }

  lemma RowsSnoc(os: seq<Outcome>, k: nat, rate: real, h: nat)
    requires k < |os| && RateDefined(rate)
    ensures Rows(os[..k + 1], rate, h) ==
      Rows(os[..k], rate, h) + (if os[k].stakeholder != "" then [RowOf(os[k], rate, h)] else [])
  {
    IncludedSnoc(os, k);
    var ks := Included(os[..k]);
    assert (ks + [os[k]])[..|ks|] == ks;
  }

  /** The year loop for one record: starting from the first-year impact,
      decays it once per year after the first, discounts each year, and adds
      each year's present value into the per-year totals buffer in place.
      Returns the record's yearly present values and their total. */
  method AccumulateRecord(item: Outcome, discountRate: real, yearlyTotals: array<real>)
    returns (itemPvs: seq<real>, itemTotalPv: real)
    requires RateDefined(discountRate)
    modifies yearlyTotals
    ensures itemPvs == YearPvs(item, discountRate, yearlyTotals.Length)
    ensures itemTotalPv == Sum(itemPvs)
    ensures forall y :: 0 <= y < yearlyTotals.Length ==>
      yearlyTotals[y] == old(yearlyTotals[y]) + Pv(item, discountRate, y + 1)
  {
    var initialImpact := (item.proxy * item.qty) * (1.0 - item.dw) * (1.0 - item.disp) * (1.0 - item.attr);
    var currentImpact := initialImpact;
    itemPvs := [];
    itemTotalPv := 0.0;
    var yearIdx := 0;
    ImpactRecurrence(item, 1);
    while yearIdx < yearlyTotals.Length
      invariant 0 <= yearIdx <= yearlyTotals.Length
      invariant currentImpact == Impact(item, if yearIdx == 0 then 1 else yearIdx)
      invariant itemPvs == YearPvs(item, discountRate, yearIdx)
      invariant itemTotalPv == Sum(itemPvs)
      invariant forall y :: 0 <= y < yearIdx ==>
        yearlyTotals[y] == old(yearlyTotals[y]) + Pv(item, discountRate, y + 1)
      invariant forall y :: yearIdx <= y < yearlyTotals.Length ==> yearlyTotals[y] == old(yearlyTotals[y])
    {
      var yearNum := yearIdx + 1;
      if yearNum > 1 {
        ImpactRecurrence(item, yearIdx);
        currentImpact := currentImpact * (1.0 - item.dropOff);
      }
      var pv := currentImpact / Pow(1.0 + discountRate / 100.0, yearNum);
      SumSnoc(itemPvs, pv);
      itemPvs := itemPvs + [pv];
      itemTotalPv := itemTotalPv + pv;
      yearlyTotals[yearIdx] := yearlyTotals[yearIdx] + pv;
      yearIdx := yearIdx + 1;
    }
  }

  /** Computes the SROI ratio, the total present value, the per-record
      breakdown and the per-year totals for an investment, an annual
      discount rate in percent, a duration in years and a list of records. */
  method CalculateAdvancedSroi(totalInput: real, discountRate: real, duration: int, outcomes: seq<Outcome>)
    returns (ratio: real, totalPv: real, details: seq<Row>, yearlyTotals: seq<real>)
    requires RateDefined(discountRate)
    ensures Report(ratio, totalPv, details, yearlyTotals) == Calculate(totalInput, discountRate, duration, outcomes)
    ensures |yearlyTotals| == Horizon(duration)
    ensures totalPv == SumTotals(details)
  {
    var h := Horizon(duration);
    var totals := new real[h](_ => 0.0);
    details := [];
    var k := 0;
    while k < |outcomes|
      invariant 0 <= k <= |outcomes|
      invariant totals.Length == h
      invariant details == Rows(outcomes[..k], discountRate, h)
      invariant forall y :: 0 <= y < h ==> totals[y] == YearTotal(outcomes[..k], discountRate, y + 1)
    {
      var item := outcomes[k];
      RowsSnoc(outcomes, k, discountRate, h);
      YearTotalsSnoc(outcomes, k, discountRate);
      if item.stakeholder != "" {
        var itemPvs, itemTotalPv := AccumulateRecord(item, discountRate, totals);
        details := details + [Row(item.stakeholder, itemTotalPv, itemPvs)];
      }
      k := k + 1;
    }
    assert outcomes[..k] == outcomes;
    yearlyTotals := totals[..];
    assert yearlyTotals == YearlyTotals(outcomes, discountRate, h);
    totalPv := Sum(yearlyTotals);
    ratio := if totalInput > 0.0 then totalPv / totalInput else 0.0;
    TotalPvIsSumOfRowTotals(outcomes, discountRate, h);
  }
}
