/** The coverage estimator of the insurance page (`calculateCoverage` in
    src/pages/Insurance.jsx): for the treatment picked by name, look up the
    insurer's coverage percentage and split the treatment's cost into the
    covered part and the patient's part. */
module Coverage {
  import opened Wrappers
  import opened Records
  import Metrics

  /** The part of the insurance dataset the estimator reads: coverage
      percentages keyed by treatment name. */
  datatype InsuranceData = InsuranceData(claimCoverage: map<string, real>)

  /** The estimate the page stores. */
  datatype CoverageState = CoverageState(
    percent: real,
    coveredAmount: real,
    outOfPocket: real,
    treatmentCost: real)

  /** `claimCoverage[name] || 0`: the stored percentage, or 0 when the name
      has none (a stored 0 also reads as 0). */
  function CoveragePercent(claimCoverage: map<string, real>, name: string): (p: real)
    ensures name in claimCoverage ==> p == claimCoverage[name]
    ensures name !in claimCoverage ==> p == 0.0
  {
    if name in claimCoverage && claimCoverage[name] != 0.0 then claimCoverage[name] else 0.0
  }

  /** `treatments.find(t => t.name === name)`, as the index of the first
      treatment with that name. */
  function FindTreatment(ts: seq<Treatment>, name: string): (r: Option<nat>)
    ensures r.Some? ==> r.value < |ts| && ts[r.value].name == name
    ensures r.Some? ==> forall j :: 0 <= j < r.value ==> ts[j].name != name
    ensures r.None? <==> forall j :: 0 <= j < |ts| ==> ts[j].name != name
  {
    if |ts| == 0 then None
    else if ts[0].name == name then Some(0)
    else
      match FindTreatment(ts[1..], name)
      case None => None
      case Some(i) => Some(i + 1)
  }

  /** `calculateCoverage`: returns the coverage state after the call. With no
      treatment selected (the empty name), no insurance data yet, or no
      treatment of that name, the state is left as it was. */
  function CalculateCoverage(
    selected: string,
    insurance: Option<InsuranceData>,
    treatments: seq<Treatment>,
    coverage: Option<CoverageState>): (r: Option<CoverageState>)
    ensures selected == "" || insurance.None? ==> r == coverage
    ensures (forall j :: 0 <= j < |treatments| ==> treatments[j].name != selected) ==> r == coverage
    ensures selected != "" && insurance.Some? && FindTreatment(treatments, selected).Some? ==>
      var t := treatments[FindTreatment(treatments, selected).value];
      && r.Some?
      && r.value.treatmentCost == t.cost
      && r.value.percent == CoveragePercent(insurance.value.claimCoverage, selected)
      && r.value.coveredAmount + r.value.outOfPocket == t.cost
      && r.value.coveredAmount * 100.0 == t.cost * r.value.percent
  {
    if selected == "" || insurance.None? then coverage
    else
      var coveragePercent := CoveragePercent(insurance.value.claimCoverage, selected);
      match FindTreatment(treatments, selected)
      case None => coverage
      case Some(i) =>
        var cost := treatments[i].cost;
        var coveredAmount := (cost * coveragePercent) / 100.0;
        var outOfPocket := cost - coveredAmount;
        Some(CoverageState(coveragePercent, coveredAmount, outOfPocket, cost))
  }

  /** The page's inline split agrees with the engine's calculateCoverageImpact
      for the same cost and percentage. */
  lemma AgreesWithCoverageImpact(
    selected: string,
    insurance: Option<InsuranceData>,
    treatments: seq<Treatment>,
    coverage: Option<CoverageState>)
    requires selected != "" && insurance.Some?
    requires FindTreatment(treatments, selected).Some?
    ensures
      var c := CalculateCoverage(selected, insurance, treatments, coverage).value;
      var impact := Metrics.CoverageImpact(c.treatmentCost, c.percent);
      c.coveredAmount == impact.coveredAmount && c.outOfPocket == impact.outOfPocket
  {
    var c := CalculateCoverage(selected, insurance, treatments, coverage).value;
    var impact := Metrics.CoverageImpact(c.treatmentCost, c.percent);
    assert c.coveredAmount * 100.0 == impact.coveredAmount * 100.0;
  }
}
