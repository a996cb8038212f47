# Hospital-finance dashboard: a Dafny model of its calculation core

The dashboard loads static department, treatment and insurance datasets and
renders them as cards, tables and charts. The logic beneath it is modelled here:

- **Metrics engine** (`metrics.dfy`, `rankings.dfy`). These are the formulas of
  `src/utils/healthcareCalculations.js`:
  - efficiency (return on budget) and profitability (margin on revenue);
  - cost and revenue per patient;
  - claim approval rate;
  - cost efficiency and budget utilisation;
  - weighted average treatment cost;
  - hospital-wide averages;
  - treatment savings and coverage impact;
  - department rankings, as a stable sort by efficiency, highest first.
- **Compact rupee formatter** (`format.dfy`). This is the band selection of
  `formatNumber` (B, Cr, L, K, unscaled) and `formatPercentage`.
- **Contact form** (`contact.dfy`). This covers `handleChange`, `validate`
  with its trim checks and email pattern, and the reset after a successful
  submit.
- **Coverage estimator** (`coverage.dfy`). This is `calculateCoverage` of the
  insurance page.
- **Records** (`records.dfy`, `wrappers.dfy`). These are the department,
  treatment and claim records, plus an `Option` type.

JavaScript numbers are modelled as Dafny `real`, which is exact arithmetic.
Each division keeps the guard the source gives it:
- `=== 0` for efficiency, profitability, per-patient figures, approval rate
  and total weight;
- `> 0` for the hospital-wide per-patient figures and for percentage savings;
- no guard for cost efficiency, budget utilisation and the savings cost ratio.

Where the source has no guard, the value JavaScript would produce for a zero
divisor is not a finite number. The model returns `None` for it. It does not
narrow the inputs with a precondition.

The formatter's digit rendering is not modelled. `fix1` stands for
`x.toFixed(1)` and `show` for the default number-to-string conversion. Both
are parameters of the formatting functions.

JavaScript's `Array.prototype.sort` is stable (ECMA-262, 2019 edition and
later). The rankings are modelled as a stable insertion sort on sequences.
"Stable" is stated as: for every efficiency value `k`, the departments with
efficiency `k` keep their input order. `Rankings.StableSortIsUnique` shows
that sortedness and stability together fix the order, so any stable sort
gives the model's result.

`String.prototype.trim` and the regular-expression class `\s` use the same
set of characters: the WhiteSpace and LineTerminator code points of
ECMA-262. The email pattern `/^[^\s@]+@[^\s@]+\.[^\s@]+$/` is modelled as a
split of the whole string into three segments (`MatchesEmailPattern`). It is
proved equivalent to a plain description (`WellFormedEmail`): no whitespace,
exactly one `@`, a non-empty part before it, and a dot that is neither the
first nor the last character after it.

## Model

| member | source | states |
|---|---|---|
| `Metrics.Efficiency` | src/utils/healthcareCalculations.js:9-12 | 0 when the budget is 0. Otherwise the result times the budget is 100 × (revenue − budget). For a positive budget it is positive iff revenue exceeds budget, and zero iff they are equal. |
| `Metrics.EfficiencyRecoversRevenue` | src/utils/healthcareCalculations.js:9-12 | With a non-zero budget, revenue = budget + budget × efficiency / 100, so efficiency is a percentage markup that can be inverted. |
| `Metrics.Profitability` | src/utils/healthcareCalculations.js:42-45 | 0 when revenue is 0, whatever the budget. Otherwise the result times revenue is 100 × (revenue − budget). For positive revenue it is positive iff revenue exceeds budget, and at most 100 when the budget is non-negative. |
| `Metrics.EfficiencyProfitabilityDuality` | src/utils/healthcareCalculations.js:9-45 | For positive revenue and budget, (100 + efficiency) × (100 − profitability) = 10000, which ties markup to margin. |
| `Metrics.PerPatient` | src/utils/healthcareCalculations.js:20-34 | Cost or revenue per patient. 0 with no patients; otherwise the result times the patient load gives back the amount. |
| `Metrics.ApprovalRate` | src/utils/healthcareCalculations.js:72-75 | 0 when the total is 0. Otherwise the result times the total is 100 × approved. It lies in [0, 100] when 0 ≤ approved ≤ total and total > 0. |
| `Metrics.ClaimRatesPartition` | src/utils/healthcareCalculations.js:72-75 | When approved + pending + rejected = total, with non-negative counts and a positive total, the three rates add up to 100. |
| `Metrics.CostEfficiency` | src/utils/healthcareCalculations.js:83-86 | Undefined (`None`) exactly when the budget is 0; otherwise 100 − overrun percentage. |
| `Metrics.BudgetUtilization` | src/utils/healthcareCalculations.js:214-217 | Undefined (`None`) exactly when the budget is 0; otherwise 100 + overrun percentage. |
| `Metrics.UtilizationEfficiencySum` | src/utils/healthcareCalculations.js:214-217 | For a non-zero budget, utilisation and cost efficiency add up to 200. |
| `Metrics.EffectiveWeight` | src/utils/healthcareCalculations.js:55-61 | The logical-or default to 1: a present non-zero weight is used as is, and an absent or zero weight counts as 1. The result is never 0. |
| `Metrics.WeightedAverageCost` | src/utils/healthcareCalculations.js:52-64 | 0 for an empty list or a total weight of 0. Otherwise the result times the total effective weight is the weighted sum of costs. |
| `Metrics.WeightedAverageSingle` | src/utils/healthcareCalculations.js:52-64 | A one-item list averages to that item's cost, whatever its weight. |
| `Metrics.WeightedSumAtLeast` | src/utils/healthcareCalculations.js:52-64 | With positive weights and every cost at least `lo`, the weighted sum of costs is at least `lo` times the total weight. |
| `Metrics.WeightedSumAtMost` | src/utils/healthcareCalculations.js:52-64 | With positive weights and every cost at most `hi`, the weighted sum of costs is at most `hi` times the total weight. |
| `Metrics.WeightedAverageWithinBounds` | src/utils/healthcareCalculations.js:52-64 | When every effective weight is positive, the average lies between any lower and upper bound of the costs, so between the cheapest and the dearest item. |
| `Metrics.HospitalMetrics` | src/utils/healthcareCalculations.js:93-137 | An empty list gives four zeros. The per-patient averages are total budget and total revenue over total patients, and 0 unless total patients > 0. Average efficiency and profitability are the means of the per-department values. |
| `Metrics.SingleDepartmentSummary` | src/utils/healthcareCalculations.js:93-137 | For one department with a non-negative patient load, the hospital figures equal that department's own four figures. |
| `Metrics.AverageEfficiencyWithinBounds` | src/utils/healthcareCalculations.js:134 | The average efficiency stays within any bounds that every department's efficiency respects. |
| `Metrics.AverageProfitabilityWithinBounds` | src/utils/healthcareCalculations.js:135 | The average profitability stays within any bounds that every department's profitability respects. |
| `Metrics.TreatmentSavings` | src/utils/healthcareCalculations.js:145-154 | Savings + government price = private price. Percentage savings is 0 when the private price is ≤ 0; otherwise it is savings × 100 / private price. The cost ratio is undefined exactly when the private price is 0; otherwise it times the private price is the government price. |
| `Metrics.SavingsComplementRatio` | src/utils/healthcareCalculations.js:145-154 | For a positive private price, percentage savings = 100 × (1 − cost ratio). |
| `Metrics.CoverageImpact` | src/utils/healthcareCalculations.js:162-174 | Covered + out of pocket = treatment cost, and covered × 100 = cost × percent. The effective cost is the out-of-pocket part, the savings are the covered part, and the percentage is echoed back. |
| `Metrics.CoverageWithinCost` | src/utils/healthcareCalculations.js:162-174 | With a percentage in [0, 100] and a non-negative cost, both parts lie between 0 and the cost. |
| `Rankings.Score` | src/utils/healthcareCalculations.js:185-200 | The first `map`: each entry keeps its department unchanged, with efficiency 0 for a zero budget and otherwise efficiency × budget = 100 × (revenue − budget). Profitability is 0 for zero revenue and otherwise profitability × revenue = 100 × (revenue − budget). Both per-patient figures are 0 with no patients, and otherwise each times the patient load gives back budget or revenue. |
| `Rankings.Insert` | src/utils/healthcareCalculations.js:201 | One step of the stable sort. Inserting into a sorted list keeps it sorted, and adds exactly the new entry to the multiset. |
| `Rankings.SortByEfficiency` | src/utils/healthcareCalculations.js:201 | `.sort((a, b) => b.efficiency - a.efficiency)`: a permutation of the input with efficiency non-increasing. |
| `Rankings.InsertTied` | src/utils/healthcareCalculations.js:201 | An inserted entry goes after every earlier entry that has its efficiency. |
| `Rankings.SortKeepsTies` | src/utils/healthcareCalculations.js:201 | Stability: for every efficiency value, the entries with that value appear in input order. |
| `Rankings.StableSortIsUnique` | src/utils/healthcareCalculations.js:201 | Two lists sorted by efficiency with the same tie subsequences are equal. |
| `Rankings.StableSortAgrees` | src/utils/healthcareCalculations.js:201 | Any sorted list that keeps the input's tie order is the model's sort result. This is the agreement with any stable sort. |
| `Rankings.SortIdempotent` | src/utils/healthcareCalculations.js:201 | Sorting a sorted result changes nothing. |
| `Rankings.PermutationKeepsScores` | src/utils/healthcareCalculations.js:185-200 | Every entry of a permutation of the scored departments carries exactly its own department's four figures. |
| `Rankings.DepartmentRankings` | src/utils/healthcareCalculations.js:181-206 | Output length equals input length, so an empty input gives an empty output. Rank at index i is i + 1. Efficiency does not increase along the output. The output is a permutation of the scored inputs, and tied entries keep input order. Each entry holds its department unchanged with its own efficiency, profitability and per-patient figures. |
| `Format.BandOf` | src/utils/formatNumber.js:1-15 | First match wins: the chosen band's range contains the number, and no other band's range does. |
| `Format.FormatNumber` | src/utils/formatNumber.js:1-15 | Starts with ₹. ≥ 1e9 gives fix1(n/1e9)+"B". [1e7, 1e9) gives fix1(n/1e7)+"Cr". [1e5, 1e7) gives fix1(n/1e5)+"L". [1e3, 1e5) gives fix1(n/1e3)+"K". Below 1000, negatives included, the number is shown unscaled. |
| `Format.ScaledValueRange` | src/utils/formatNumber.js:2-13 | The scaled value passed to `toFixed` is at least 1, and below 100 in every scaled band except B. |
| `Format.BandReadBack` | src/utils/formatNumber.js:1-15 | If the digit renderings only produce numeral characters, the band can be read back from the output's suffix. |
| `Format.FormatPercentage` | src/utils/formatNumber.js:25-27 | The rendering followed by `%`; removing the last character gives the rendering back. |
| `ContactForm.TrimStart` | src/pages/Contact.jsx:25 | The leading half of `trim()`: the result is a suffix of the input, everything dropped is whitespace, and the result is empty or starts with a non-whitespace character. |
| `ContactForm.TrimEnd` | src/pages/Contact.jsx:25 | The trailing half of `trim()`: the result is a prefix of the input, everything dropped is whitespace, and the result is empty or ends with a non-whitespace character. |
| `ContactForm.Trim` | src/pages/Contact.jsx:25 | `trim()` yields the empty string exactly when the value is all whitespace. |
| `ContactForm.MatchesEmailPattern` | src/pages/Contact.jsx:30 | The regular expression `/^[^\s@]+@[^\s@]+\.[^\s@]+$/`, anchored at both ends: the string splits into a non-empty run, `@`, a non-empty run, `.`, and a non-empty run, where no run holds whitespace or `@`. `EmailPatternIff` characterises it. |
| `ContactForm.EmailPatternIff` | src/pages/Contact.jsx:30 | The regular expression accepts a string iff it has no whitespace, exactly one `@` with a non-empty part before it, and a dot after it that is neither the first nor the last character of the domain. |
| `ContactForm.FieldError` | src/pages/Contact.jsx:25-38 | Per field, the required message iff the value is all whitespace. For the email, 'Email is required' if blank, otherwise 'Invalid email format' iff not well formed, never both. |
| `ContactForm.RunChecks` | src/pages/Contact.jsx:25-38 | Each required-field check fires iff the value is all whitespace. The email format check fires iff the untrimmed value is not well formed. |
| `ContactForm.ErrorsOf` | src/pages/Contact.jsx:23-41 | The map has a key exactly for each failing check, with that check's message. The email gets the required message when blank and the format message only otherwise. The map has no keys iff every check passes. |
| `ContactForm.Validate` | src/pages/Contact.jsx:23-41 | Name, subject and message have an error iff blank, each with its message. Email has an error iff blank or malformed, with the matching text. The result is true iff the map is empty, which means all four checks pass. |
| `ContactForm.ValidateReportsEachField` | src/pages/Contact.jsx:23-41 | The map `validate` builds agrees with the per-field reference `FieldError`: a key is present iff that field's error is non-empty, and it holds exactly that error. |
| `ContactForm.BlankFormRejected` | src/pages/Contact.jsx:23-50 | A form of blank fields, such as the reset value, fails validation with every field in error, the email as missing. |
| `ContactForm.PaddedEmailInvalid` | src/pages/Contact.jsx:28-31 | An address with any whitespace that is not all whitespace gets 'Invalid email format', because the pattern runs on the untrimmed value. |
| `ContactForm.EmptyForm` | src/pages/Contact.jsx:49 | The reset value: all four fields are the empty string. |
| `ContactForm.HandleChange` | src/pages/Contact.jsx:15-21 | The named field takes the new value and the other fields are unchanged. That field has no active error afterwards. Its error text is blanked only if it was set. Other errors are unchanged, and no key is added or removed. |
| `ContactForm.Submit` | src/pages/Contact.jsx:43-52 | A valid form ends reset to four empty fields with no errors. An invalid form is kept and shows the non-empty error map from validation. |
| `Coverage.CoveragePercent` | src/pages/Insurance.jsx:31 | The stored percentage for the name, or 0 when the name has none. |
| `Coverage.FindTreatment` | src/pages/Insurance.jsx:32 | `find`: the first treatment with that name, or none iff no treatment has it. |
| `Coverage.CalculateCoverage` | src/pages/Insurance.jsx:29-43 | The state is unchanged with no selection, no insurance data, or no matching treatment. Otherwise the new state carries the first match's cost, the looked-up percentage, covered × 100 = cost × percent, and covered + out of pocket = cost. |
| `Coverage.AgreesWithCoverageImpact` | src/pages/Insurance.jsx:34-35 | The page's inline split equals the engine's coverage-impact split for the same cost and percentage. |

## Left out

- Rendering, animation, charts, routing, theme and sidebar state are pure
  presentation and are not part of this model.
- `formatCurrency` wraps `Intl.NumberFormat`, a foreign library, and is not
  part of this model.
- IEEE-754 rounding, `toFixed` digit rendering, NaN, `undefined` and other
  coercions are left out. Numbers are exact reals, and digit rendering is a
  parameter.
- A zero divisor where the source has no guard: `Metrics.CostEfficiency`,
  `Metrics.BudgetUtilization` and `Metrics.TreatmentSavings` return `None`.
  They do not tell Infinity apart from NaN.
- A missing (`null`) list for `calculateWeightedAverageCost`,
  `calculateHospitalMetrics` and `calculateDepartmentRankings` is not
  modelled. Sequences are always present; the empty list is modelled.
- `Metrics.EffectiveWeight`: NaN weights are not modelled. In the source they
  also count as 1.
- Loading the JSON datasets is data I/O and is not modelled. The records
  arrive as parameters.
- The `setTimeout` delay and the `submitted` flag of the contact form's
  submit are timing and display state. `ContactForm.Submit` gives the state
  after the delay has run out.
- `ContactForm.HandleChange`: the source accepts any input name. The model
  only covers the form's four fields.
- Several pages repeat engine formulas inline and without the engine's zero
  guards: savings percentage on the costs page, pending and rejected rates on
  the analytics page, and budget and revenue bars capped at 100 on the
  departments page. This is display arithmetic and is not modelled
  separately.
- The hospital-wide per-patient figures guard with `> 0`, while the
  per-department figures guard with `=== 0`. The two only differ for a
  negative patient load. The model assumes a patient count is never
  negative, so `Metrics.SingleDepartmentSummary` requires a non-negative
  load.
