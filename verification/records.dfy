/** The value records the dashboard loads from its static datasets and hands
    to the metrics engine. Every amount is a JavaScript number, modelled
    exactly as a `real`. */
module Records {
  import opened Wrappers

  /** One hospital department. `costOverruns` is a percentage that may be
      negative (under budget). */
  datatype Department = Department(
    name: string,
    budget: real,
    costOverruns: real,
    patientLoad: real,
    revenueGenerated: real)

  /** One treatment. `cost` is the private price and `govCost` the government
      price; `weight` is an optional relative frequency. */
  datatype Treatment = Treatment(
    id: int,
    name: string,
    cost: real,
    govCost: real,
    weight: Option<real>)

  /** Aggregate insurance-claim counts. The dataset is expected (but not
      forced) to satisfy approved + pending + rejected == total. */
  datatype ClaimStats = ClaimStats(
    total: real,
    approved: real,
    pending: real,
    rejected: real,
    averageAmount: real,
    fraudScore: real)

  /** The counts of `s` are non-negative and partition the total. */
  predicate ConsistentClaims(s: ClaimStats)
  {
    && 0.0 <= s.approved && 0.0 <= s.pending && 0.0 <= s.rejected
    && s.approved + s.pending + s.rejected == s.total
  }
}
