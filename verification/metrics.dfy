/** The metrics engine of the dashboard: stateless formulas over department,
    treatment and claim records (src/utils/healthcareCalculations.js).

    Division follows the source's own guards, which differ from formula to
    formula (`=== 0`, `> 0`, or none). Where the source has no guard and
    JavaScript would produce a non-finite number, the model returns `None`. */
module Metrics {
  import opened Wrappers
  import opened Records

  // ---------------------------------------------------------------------
  // Left-fold sums, the shape of `Array.prototype.reduce` from 0
  // ---------------------------------------------------------------------

  /** `f(xs[0]) + ... + f(xs[|xs|-1])`, accumulated from the left. */
  function SumOf<T>(xs: seq<T>, f: T -> real): real
  {
    if |xs| == 0 then 0.0 else SumOf(xs[..|xs| - 1], f) + f(xs[|xs| - 1])
  }

  /** A sum of terms that are each at least `lo` is at least `|xs| * lo`. */
  lemma {:induction false} SumOfAtLeast<T>(xs: seq<T>, f: T -> real, lo: real)
    requires forall i :: 0 <= i < |xs| ==> lo <= f(xs[i])
    ensures (|xs| as real) * lo <= SumOf(xs, f)
  {
    if |xs| > 0 {
      var init := xs[..|xs| - 1];
      assert forall i :: 0 <= i < |init| ==> init[i] == xs[i];
      SumOfAtLeast(init, f, lo);
    }
  }

  /** A sum of terms that are each at most `hi` is at most `|xs| * hi`. */
  lemma {:induction false} SumOfAtMost<T>(xs: seq<T>, f: T -> real, hi: real)
    requires forall i :: 0 <= i < |xs| ==> f(xs[i]) <= hi
    ensures SumOf(xs, f) <= (|xs| as real) * hi
  {
    if |xs| > 0 {
      var init := xs[..|xs| - 1];
      assert forall i :: 0 <= i < |init| ==> init[i] == xs[i];
      SumOfAtMost(init, f, hi);
    }
  }

  /** A non-zero factor can be cancelled from both sides of an equation. */
  lemma CancelFactor(x: real, y: real, t: real)
    requires t != 0.0 && x * t == y * t
    ensures x == y
  {
    assert (x - y) * t == 0.0;
  }

  /** Bounds on `s` that scale with a positive `w` carry over to `s / w`. */
  lemma QuotientBounds(s: real, w: real, lo: real, hi: real)
    requires w > 0.0 && lo * w <= s <= hi * w
    ensures lo <= s / w <= hi
  {
    var q := s / w;
    assert q * w == s;
    assert (q - lo) * w >= 0.0;
    assert (hi - q) * w >= 0.0;
  }

  /** Dividing a product by one of its non-zero factors leaves the other. */
  lemma DivideProduct(b: real, y: real)
    requires b != 0.0
    ensures (b * y) / b == y
  {
  }

  // ---------------------------------------------------------------------
  // Per-department formulas
  // ---------------------------------------------------------------------

  /** Return on budget, in percent (calculateDepartmentEfficiency). A zero
      budget yields 0; otherwise the result is the unique `r` with
      `r * budget == 100 * (revenue - budget)`. */
  function Efficiency(revenue: real, budget: real): (r: real)
    ensures budget == 0.0 ==> r == 0.0
    ensures budget != 0.0 ==> r * budget == (revenue - budget) * 100.0
    ensures budget > 0.0 ==> (r > 0.0 <==> revenue > budget)
    ensures budget > 0.0 ==> (r == 0.0 <==> revenue == budget)
  {
    if budget == 0.0 then 0.0 else ((revenue - budget) / budget) * 100.0
  }

  /** Revenue can be recovered from budget and efficiency when the budget is
      non-zero: efficiency is a percentage markup on the budget. */
  lemma EfficiencyRecoversRevenue(revenue: real, budget: real)
    requires budget != 0.0
    ensures revenue == budget + budget * Efficiency(revenue, budget) / 100.0
  {
    var e := Efficiency(revenue, budget);
    assert e * budget == (revenue - budget) * 100.0;
  }

  /** Profit margin on revenue, in percent (calculateProfitability). A zero
      revenue yields 0 whatever the budget. */
  function Profitability(revenue: real, budget: real): (r: real)
    ensures revenue == 0.0 ==> r == 0.0
    ensures revenue != 0.0 ==> r * revenue == (revenue - budget) * 100.0
    ensures revenue > 0.0 ==> (r > 0.0 <==> revenue > budget)
    ensures revenue > 0.0 && budget >= 0.0 ==> r <= 100.0
  {
    if revenue == 0.0 then 0.0 else ((revenue - budget) / revenue) * 100.0
  }

  /** For positive revenue and budget, markup and margin are tied together:
      (100 + efficiency) * (100 - profitability) == 100 * 100. */
  lemma EfficiencyProfitabilityDuality(revenue: real, budget: real)
    requires revenue > 0.0 && budget > 0.0
    ensures (100.0 + Efficiency(revenue, budget)) * (100.0 - Profitability(revenue, budget))
         == 10000.0
  {
    var e := Efficiency(revenue, budget);
    var p := Profitability(revenue, budget);
    assert (100.0 + e) * budget == 100.0 * revenue;
    assert (100.0 - p) * revenue == 100.0 * budget;
    calc {
      (100.0 + e) * (100.0 - p) * budget * revenue;
      ((100.0 + e) * budget) * ((100.0 - p) * revenue);
      (100.0 * revenue) * (100.0 * budget);
      10000.0 * budget * revenue;
    }
  }

  /** An amount divided among the patients (calculateCostPerPatient with the
      budget, calculateRevenuePerPatient with the revenue: the two source
      functions have the same body). No patients yields 0. */
  function PerPatient(amount: real, patientLoad: real): (r: real)
    ensures patientLoad == 0.0 ==> r == 0.0
    ensures patientLoad != 0.0 ==> r * patientLoad == amount
  {
    if patientLoad == 0.0 then 0.0 else amount / patientLoad
  }

  /** Claim approval rate in percent (calculateApprovalRate). */
  function ApprovalRate(approved: real, total: real): (r: real)
    ensures total == 0.0 ==> r == 0.0
    ensures total != 0.0 ==> r * total == approved * 100.0
    ensures 0.0 <= approved <= total && total > 0.0 ==> 0.0 <= r <= 100.0
  {
    if total == 0.0 then 0.0 else (approved / total) * 100.0
  }

  /** When the claim counts partition the total, the approved, pending and
      rejected rates add up to 100 percent. */
  lemma ClaimRatesPartition(s: ClaimStats)
    requires ConsistentClaims(s) && s.total > 0.0
    ensures ApprovalRate(s.approved, s.total) + ApprovalRate(s.pending, s.total)
          + ApprovalRate(s.rejected, s.total) == 100.0
  {
    var a := ApprovalRate(s.approved, s.total);
    var p := ApprovalRate(s.pending, s.total);
    var j := ApprovalRate(s.rejected, s.total);
    assert (a + p + j) * s.total == (s.approved + s.pending + s.rejected) * 100.0;
    CancelFactor(a + p + j, 100.0, s.total);
  }

  /** Actual spending, the budget adjusted by the overrun percentage. */
  function ActualSpending(budget: real, costOverrun: real): real
  {
    budget * (1.0 + costOverrun / 100.0)
  }

  /** Cost efficiency ratio (calculateCostEfficiency): the share of the budget
      left after subtracting the overspend. The source divides by the budget
      without a guard, so a zero budget gives `None` (JavaScript's NaN). */
  function CostEfficiency(budget: real, costOverrun: real): (r: Option<real>)
    ensures budget == 0.0 <==> r.None?
    ensures budget != 0.0 ==> r == Some(100.0 - costOverrun)
  {
    if budget == 0.0 then None
    else
      var actual := ActualSpending(budget, costOverrun);
      var remaining := budget - (actual - budget);
      var share := 1.0 - costOverrun / 100.0;
      assert remaining == budget * share;
      DivideProduct(budget, share);
      assert remaining / budget == share;
      Some((remaining / budget) * 100.0)
  }

  /** Budget utilisation (calculateBudgetUtilization): actual spending as a
      percentage of the budget; 100 means on budget. A zero budget gives
      `None` (JavaScript's NaN). */
  function BudgetUtilization(budget: real, costOverrun: real): (r: Option<real>)
    ensures budget == 0.0 <==> r.None?
    ensures budget != 0.0 ==> r == Some(100.0 + costOverrun)
  {
    if budget == 0.0 then None
    else
      var actual := ActualSpending(budget, costOverrun);
      var share := 1.0 + costOverrun / 100.0;
      DivideProduct(budget, share);
      assert actual / budget == share;
      Some((actual / budget) * 100.0)
  }

  /** Utilisation and cost efficiency mirror each other around 100 percent. */
  lemma UtilizationEfficiencySum(budget: real, costOverrun: real)
    requires budget != 0.0
    ensures BudgetUtilization(budget, costOverrun).value
          + CostEfficiency(budget, costOverrun).value == 200.0
  {
  }

  // ---------------------------------------------------------------------
  // Weighted average treatment cost
  // ---------------------------------------------------------------------

  /** The weight a treatment contributes: `weight || 1`, so an absent or zero
      weight counts as 1. Never zero. */
  function EffectiveWeight(t: Treatment): (w: real)
    ensures w != 0.0
    ensures t.weight.Some? && t.weight.value != 0.0 ==> w == t.weight.value
    ensures t.weight.None? || t.weight.value == 0.0 ==> w == 1.0
  {
    match t.weight
    case None => 1.0
    case Some(v) => if v == 0.0 then 1.0 else v
  }

  /** The cost of a treatment scaled by its effective weight. */
  function WeightedCost(t: Treatment): real
  {
    t.cost * EffectiveWeight(t)
  }

  /** Weighted average cost (calculateWeightedAverageCost). An empty list
      gives 0; so does a non-empty list whose weights cancel out. */
  function WeightedAverageCost(ts: seq<Treatment>): (r: real)
    ensures |ts| == 0 ==> r == 0.0
    ensures SumOf(ts, EffectiveWeight) == 0.0 ==> r == 0.0
    ensures |ts| > 0 && SumOf(ts, EffectiveWeight) != 0.0 ==>
      r * SumOf(ts, EffectiveWeight) == SumOf(ts, WeightedCost)
  {
    if |ts| == 0 then 0.0
    else
      var totalWeightedCost := SumOf(ts, WeightedCost);
      var totalWeight := SumOf(ts, EffectiveWeight);
      if totalWeight == 0.0 then 0.0 else totalWeightedCost / totalWeight
  }

  /** A single treatment's weighted average is its own cost, whatever its
      weight. */
  lemma WeightedAverageSingle(t: Treatment)
    ensures WeightedAverageCost([t]) == t.cost
  {
    assert [t][..0] == [];
    assert SumOf([t], WeightedCost) == t.cost * EffectiveWeight(t);
    assert SumOf([t], EffectiveWeight) == EffectiveWeight(t);
  }

  /** Scaling both sides of `a <= b` by a positive factor keeps the order. */
  lemma ScaleLe(a: real, b: real, w: real)
    requires a <= b && w > 0.0
    ensures a * w <= b * w
  {
    assert (b - a) * w >= 0.0;
  }

  /** Summing keeps a termwise lower bound `k * w <= cost * w`. */
  lemma {:induction false} ScaledSumBelow(ts: seq<Treatment>, k: real)
    requires forall i :: 0 <= i < |ts| ==> k * EffectiveWeight(ts[i]) <= WeightedCost(ts[i])
    ensures k * SumOf(ts, EffectiveWeight) <= SumOf(ts, WeightedCost)
  {
    if |ts| > 0 {
      var init := ts[..|ts| - 1];
      assert forall i :: 0 <= i < |init| ==> init[i] == ts[i];
      ScaledSumBelow(init, k);
      assert k * SumOf(ts, EffectiveWeight) == k * SumOf(init, EffectiveWeight) + k * EffectiveWeight(ts[|ts| - 1]);
    }
  }

  /** Summing keeps a termwise upper bound `cost * w <= k * w`. */
  lemma {:induction false} ScaledSumAbove(ts: seq<Treatment>, k: real)
    requires forall i :: 0 <= i < |ts| ==> WeightedCost(ts[i]) <= k * EffectiveWeight(ts[i])
    ensures SumOf(ts, WeightedCost) <= k * SumOf(ts, EffectiveWeight)
  {
    if |ts| > 0 {
      var init := ts[..|ts| - 1];
      assert forall i :: 0 <= i < |init| ==> init[i] == ts[i];
      ScaledSumAbove(init, k);
      assert k * SumOf(ts, EffectiveWeight) == k * SumOf(init, EffectiveWeight) + k * EffectiveWeight(ts[|ts| - 1]);
    }
  }

  /** Termwise lower bound: each treatment's weighted cost is at least `lo`
      times its weight. */
  lemma WeightedCostsAtLeast(ts: seq<Treatment>, lo: real)
    requires forall i :: 0 <= i < |ts| ==> EffectiveWeight(ts[i]) > 0.0
    requires forall i :: 0 <= i < |ts| ==> lo <= ts[i].cost
    ensures forall i :: 0 <= i < |ts| ==> lo * EffectiveWeight(ts[i]) <= WeightedCost(ts[i])
  {
    forall i | 0 <= i < |ts|
      ensures lo * EffectiveWeight(ts[i]) <= WeightedCost(ts[i])
    {
      ScaleLe(lo, ts[i].cost, EffectiveWeight(ts[i]));
    }
  }

  /** Termwise upper bound: each treatment's weighted cost is at most `hi`
      times its weight. */
  lemma WeightedCostsAtMost(ts: seq<Treatment>, hi: real)
    requires forall i :: 0 <= i < |ts| ==> EffectiveWeight(ts[i]) > 0.0
    requires forall i :: 0 <= i < |ts| ==> ts[i].cost <= hi
    ensures forall i :: 0 <= i < |ts| ==> WeightedCost(ts[i]) <= hi * EffectiveWeight(ts[i])
  {
    forall i | 0 <= i < |ts|
      ensures WeightedCost(ts[i]) <= hi * EffectiveWeight(ts[i])
    {
      ScaleLe(ts[i].cost, hi, EffectiveWeight(ts[i]));
    }
  }

  /** With positive weights and every cost at least `lo`, the weighted sum of
      costs is at least `lo` times the total weight. */
  lemma WeightedSumAtLeast(ts: seq<Treatment>, lo: real)
    requires forall i :: 0 <= i < |ts| ==> EffectiveWeight(ts[i]) > 0.0
    requires forall i :: 0 <= i < |ts| ==> lo <= ts[i].cost
    ensures lo * SumOf(ts, EffectiveWeight) <= SumOf(ts, WeightedCost)
  {
    WeightedCostsAtLeast(ts, lo);
    ScaledSumBelow(ts, lo);
  }

  /** With positive weights and every cost at most `hi`, the weighted sum of
      costs is at most `hi` times the total weight. */
  lemma WeightedSumAtMost(ts: seq<Treatment>, hi: real)
    requires forall i :: 0 <= i < |ts| ==> EffectiveWeight(ts[i]) > 0.0
    requires forall i :: 0 <= i < |ts| ==> ts[i].cost <= hi
    ensures SumOf(ts, WeightedCost) <= hi * SumOf(ts, EffectiveWeight)
  {
    WeightedCostsAtMost(ts, hi);
    ScaledSumAbove(ts, hi);
  }

  /** When every effective weight is positive, the weighted average lies
      between any lower and any upper bound of the costs (in particular
      between the cheapest and the dearest treatment). */
  lemma WeightedAverageWithinBounds(ts: seq<Treatment>, lo: real, hi: real)
    requires |ts| > 0
    requires forall i :: 0 <= i < |ts| ==> EffectiveWeight(ts[i]) > 0.0
    requires forall i :: 0 <= i < |ts| ==> lo <= ts[i].cost <= hi
    ensures lo <= WeightedAverageCost(ts) <= hi
  {
    WeightedSumAtLeast(ts, lo);
    WeightedSumAtMost(ts, hi);
    SumOfAtLeast(ts, EffectiveWeight, 0.0);
    var w := SumOf(ts, EffectiveWeight);
    var s := SumOf(ts, WeightedCost);
    var r := WeightedAverageCost(ts);
    SumOfAtLeastOne(ts, EffectiveWeight, 0);
    assert r == s / w;
    QuotientBounds(s, w, lo, hi);
  }

  /** A sum of positive terms is at least any one of them. */
  lemma {:induction false} SumOfAtLeastOne<T>(xs: seq<T>, f: T -> real, k: nat)
    requires k < |xs|
    requires forall i :: 0 <= i < |xs| ==> f(xs[i]) > 0.0
    ensures f(xs[k]) <= SumOf(xs, f)
  {
    var init := xs[..|xs| - 1];
    assert forall i :: 0 <= i < |init| ==> init[i] == xs[i];
    SumOfAtLeast(init, f, 0.0);
    if k < |xs| - 1 {
      SumOfAtLeastOne(init, f, k);
    }
  }

  // ---------------------------------------------------------------------
  // Hospital-wide aggregation
  // ---------------------------------------------------------------------

  /** The four figures calculateHospitalMetrics returns. */
  datatype HospitalSummary = HospitalSummary(
    avgCostPerPatient: real,
    avgRevenuePerPatient: real,
    avgEfficiency: real,
    avgProfitability: real)

  function BudgetOf(d: Department): real { d.budget }
  function RevenueOf(d: Department): real { d.revenueGenerated }
  function PatientsOf(d: Department): real { d.patientLoad }
  function EfficiencyOf(d: Department): real { Efficiency(d.revenueGenerated, d.budget) }
  function ProfitabilityOf(d: Department): real { Profitability(d.revenueGenerated, d.budget) }

  /** Hospital-wide averages (calculateHospitalMetrics). The per-patient
      figures pool all departments and are guarded by `totalPatients > 0`;
      efficiency and profitability are plain means over departments. */
  function HospitalMetrics(ds: seq<Department>): (m: HospitalSummary)
    ensures |ds| == 0 ==> m == HospitalSummary(0.0, 0.0, 0.0, 0.0)
    ensures |ds| > 0 && SumOf(ds, PatientsOf) > 0.0 ==>
      && m.avgCostPerPatient * SumOf(ds, PatientsOf) == SumOf(ds, BudgetOf)
      && m.avgRevenuePerPatient * SumOf(ds, PatientsOf) == SumOf(ds, RevenueOf)
    ensures SumOf(ds, PatientsOf) <= 0.0 ==>
      m.avgCostPerPatient == 0.0 && m.avgRevenuePerPatient == 0.0
    ensures m.avgEfficiency * (|ds| as real) == SumOf(ds, EfficiencyOf)
    ensures m.avgProfitability * (|ds| as real) == SumOf(ds, ProfitabilityOf)
  {
    if |ds| == 0 then HospitalSummary(0.0, 0.0, 0.0, 0.0)
    else
      var totalBudget := SumOf(ds, BudgetOf);
      var totalRevenue := SumOf(ds, RevenueOf);
      var totalPatients := SumOf(ds, PatientsOf);
      var n := |ds| as real;
      HospitalSummary(
        if totalPatients > 0.0 then totalBudget / totalPatients else 0.0,
        if totalPatients > 0.0 then totalRevenue / totalPatients else 0.0,
        SumOf(ds, EfficiencyOf) / n,
        SumOf(ds, ProfitabilityOf) / n)
  }

  /** For a single department with a non-negative patient load, the
      hospital-wide figures are that department's own figures. (With a
      negative load they differ: the aggregate guards with `> 0`, the
      per-department formula only with `=== 0`.) */
  lemma SingleDepartmentSummary(d: Department)
    requires d.patientLoad >= 0.0
    ensures HospitalMetrics([d]) == HospitalSummary(
      PerPatient(d.budget, d.patientLoad),
      PerPatient(d.revenueGenerated, d.patientLoad),
      Efficiency(d.revenueGenerated, d.budget),
      Profitability(d.revenueGenerated, d.budget))
  {
    assert [d][..0] == [];
    assert SumOf([d], BudgetOf) == d.budget;
    assert SumOf([d], RevenueOf) == d.revenueGenerated;
    assert SumOf([d], PatientsOf) == d.patientLoad;
    assert SumOf([d], EfficiencyOf) == Efficiency(d.revenueGenerated, d.budget);
    assert SumOf([d], ProfitabilityOf) == Profitability(d.revenueGenerated, d.budget);
  }

  /** The average efficiency lies within any bounds that hold for every
      department's efficiency. */
  lemma AverageEfficiencyWithinBounds(ds: seq<Department>, lo: real, hi: real)
    requires |ds| > 0
    requires forall i :: 0 <= i < |ds| ==> lo <= EfficiencyOf(ds[i]) <= hi
    ensures lo <= HospitalMetrics(ds).avgEfficiency <= hi
  {
    SumOfAtLeast(ds, EfficiencyOf, lo);
    SumOfAtMost(ds, EfficiencyOf, hi);
    var n, total := |ds| as real, SumOf(ds, EfficiencyOf);
    QuotientBounds(total, n, lo, hi);
    assert HospitalMetrics(ds).avgEfficiency == total / n;
  }

  /** The average profitability lies within any bounds that hold for every
      department's profitability. */
  lemma AverageProfitabilityWithinBounds(ds: seq<Department>, lo: real, hi: real)
    requires |ds| > 0
    requires forall i :: 0 <= i < |ds| ==> lo <= ProfitabilityOf(ds[i]) <= hi
    ensures lo <= HospitalMetrics(ds).avgProfitability <= hi
  {
    SumOfAtLeast(ds, ProfitabilityOf, lo);
    SumOfAtMost(ds, ProfitabilityOf, hi);
    var n, total := |ds| as real, SumOf(ds, ProfitabilityOf);
    QuotientBounds(total, n, lo, hi);
    assert HospitalMetrics(ds).avgProfitability == total / n;
  }

  // ---------------------------------------------------------------------
  // Savings and coverage
  // ---------------------------------------------------------------------

  /** What calculateTreatmentSavings returns. `costRatio` is `None` when the
      private cost is 0: the source divides without a guard there. */
  datatype Savings = Savings(
    absoluteSavings: real,
    percentageSavings: real,
    costRatio: Option<real>)

  /** Savings of the government price over the private price. */
  function TreatmentSavings(privateCost: real, govCost: real): (s: Savings)
    ensures s.absoluteSavings + govCost == privateCost
    ensures privateCost > 0.0 ==> s.percentageSavings * privateCost == s.absoluteSavings * 100.0
    ensures privateCost <= 0.0 ==> s.percentageSavings == 0.0
    ensures privateCost == 0.0 <==> s.costRatio.None?
    ensures privateCost != 0.0 ==> s.costRatio.value * privateCost == govCost
  {
    var savings := privateCost - govCost;
    var savingsPercent := if privateCost > 0.0 then (savings / privateCost) * 100.0 else 0.0;
    Savings(savings, savingsPercent,
            if privateCost == 0.0 then None else Some(govCost / privateCost))
  }

  /** For a positive private price the saved share and the cost ratio are
      complementary: percentage savings == 100 * (1 - costRatio). */
  lemma SavingsComplementRatio(privateCost: real, govCost: real)
    requires privateCost > 0.0
    ensures TreatmentSavings(privateCost, govCost).percentageSavings
         == 100.0 * (1.0 - TreatmentSavings(privateCost, govCost).costRatio.value)
  {
    var s := TreatmentSavings(privateCost, govCost);
    assert (100.0 * (1.0 - s.costRatio.value)) * privateCost == (privateCost - govCost) * 100.0;
    CancelFactor(s.percentageSavings, 100.0 * (1.0 - s.costRatio.value), privateCost);
  }

  /** What calculateCoverageImpact returns. */
  datatype CoverageImpactRecord = CoverageImpactRecord(
    coveredAmount: real,
    outOfPocket: real,
    effectiveCost: real,
    coveragePercent: real,
    savings: real)

  /** Split a treatment cost into the insured part and the patient's part. */
  function CoverageImpact(treatmentCost: real, coveragePercent: real): (c: CoverageImpactRecord)
    ensures c.coveredAmount + c.outOfPocket == treatmentCost
    ensures c.coveredAmount * 100.0 == treatmentCost * coveragePercent
    ensures c.effectiveCost == c.outOfPocket && c.savings == c.coveredAmount
    ensures c.coveragePercent == coveragePercent
  {
    var coveredAmount := (treatmentCost * coveragePercent) / 100.0;
    var outOfPocket := treatmentCost - coveredAmount;
    CoverageImpactRecord(coveredAmount, outOfPocket, outOfPocket, coveragePercent, coveredAmount)
  }

  /** A coverage percentage within [0, 100] on a non-negative cost keeps both
      parts between 0 and the cost. */
  lemma CoverageWithinCost(treatmentCost: real, coveragePercent: real)
    requires treatmentCost >= 0.0 && 0.0 <= coveragePercent <= 100.0
    ensures 0.0 <= CoverageImpact(treatmentCost, coveragePercent).coveredAmount <= treatmentCost
    ensures 0.0 <= CoverageImpact(treatmentCost, coveragePercent).outOfPocket <= treatmentCost
  {
    var c := CoverageImpact(treatmentCost, coveragePercent);
    assert 0.0 <= treatmentCost * coveragePercent <= treatmentCost * 100.0;
  }
}
