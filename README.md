# Budget validator of the transaction-perturbation benchmark

This project models `check_budget` from `check_budget.py`. The function decides whether an
"attack" transaction table stays within the perturbation budget allowed against the "source" table
it was derived from. Both tables are sorted by `(user_id, transaction_dttm)` and paired by
position. A pair is *different* when one of the five compared fields disagrees. Each differing
pair does three things:

- it adds one to the counter of its source user, and the check fails once a counter exceeds
  `BUDGET = 10`;
- it must keep the sign of the amount;
- its attack amount must lie in the inclusive `[min, max]` range of the quantile table. The range
  is looked up in the bucket chosen by the source amount's sign, under the attack row's merchant
  category code.

Everything lives in one module, `BudgetCheck`, in `budget_check.dfy`:

- **Data.** `Transaction` (integer fields; amounts in minor units, `AMOUNT_SCALE = 100` per unit),
  `Ruler` and `Quantiles` (the two sign buckets with their `max`/`min` maps), and `Outcome`. An
  `Outcome` is either the returned boolean or the `KeyError` that a missing quantile key raises.
- **Row tests.** `Close` is `numpy.isclose` with its default tolerances, written exactly for
  integer minor units. `IsDifferent` is the difference test. `Sign` is `numpy.sign`.
  `EditAcceptable` is the declarative per-edit condition.
- **Specification of the scan.** `Step` is one loop iteration. `Scan` is the state of the scan
  after a prefix of pairs: running with its counter map, or halted with an outcome. `Verdict` is
  the outcome of the whole call.
- **Declarative verdict.** `DiffCount`, `BudgetRespected`, `EditsAcceptable` and `WithinBudget`
  state directly what an accepted attack is. Lemmas prove that `Verdict` returns `true` exactly
  when `WithinBudget` holds.
- **The program.** `CheckBudget` is an imperative method with a mutable `map<int, nat>` counter
  and early returns, mirroring the loop. It is proved equal to `Verdict`.

## Model

| member | source | states |
|---|---|---|
| BudgetCheck.CheckBudget | check_budget.py:42-72 | the loop with its counter map and three early returns (plus the two lookups that can raise) yields exactly `Verdict`, and returns `true` iff every user has at most BUDGET differing rows and every differing row keeps its sign and is in range |
| BudgetCheck.Step | check_budget.py:45-71 | one pair keeps the scan running iff it is not different, or its user's count stays within BUDGET and the edit is acceptable; a running step adds one to exactly the source user's counter when the pair differs and changes no other counter; a halt is `false`, or a KeyError for the attack code missing from the named bound map of the source-sign bucket; a differing row over budget or with a flipped sign gives `false` before any lookup; a differing, in-budget, sign-keeping row whose code is missing from max raises KeyError on max, and one whose code is in max but missing from min raises KeyError on min |
| BudgetCheck.Scan | check_budget.py:42-72 | while the scan runs every existing counter lies in 1..BUDGET; a halted scan never carries the result `true` |
| BudgetCheck.Sign | check_budget.py:50 | the sign is -1, 0 or 1 exactly for negative, zero and positive amounts |
| BudgetCheck.Close | check_budget.py:37 | defines `numpy.isclose` with its default tolerances on amounts in minor units: the difference is at most 1e-8 plus 1e-5 times the absolute value of the attack amount |
| BudgetCheck.IsDifferent | check_budget.py:31-40 | defines the difference test: user, category, currency or timestamp unequal, or the amounts not close |
| BudgetCheck.BucketOf | check_budget.py:53-56 | defines the bucket choice: negative for a negative source amount, positive otherwise |
| BudgetCheck.CountOf | check_budget.py:42-46 | defines a user's counter with the zero default of `defaultdict(int)` |
| BudgetCheck.EditAcceptable | check_budget.py:50-71 | defines an acceptable edit: sign kept, attack code present in both bound maps of the source-sign bucket, attack amount within [min, max] |
| BudgetCheck.Verdict | check_budget.py:42-72 | defines the outcome of the call: `true` when the scan runs to the end, otherwise the outcome it halted with |
| BudgetCheck.CloseIsEqualityForSmallAmounts | check_budget.py:37 | under numpy's default tolerances, amounts below 1000 units of money are close only when equal |
| BudgetCheck.NotDifferentFromItself | check_budget.py:31-40 | a row is never different from itself |
| BudgetCheck.IsDifferentIffUnequal | check_budget.py:31-40 | for amounts below 1000 units, two rows are different exactly when they are unequal records, so any of the five fields disagreeing makes them different |
| BudgetCheck.BucketBySourceIsBucketByAttack | check_budget.py:50-56 | once the sign check has passed, choosing the bucket by the source amount equals choosing it by the attack amount |
| BudgetCheck.RangeUsesAttackCode | check_budget.py:58-62 | the range lookup uses the attack row's category code: changing the source row's code does not change the step as long as the pair still differs |
| BudgetCheck.HaltedScanIgnoresRest | check_budget.py:47-51 | early exit: a halted scan is unchanged by any further pairs |
| BudgetCheck.RejectedPrefixDecides | check_budget.py:47-72 | once a prefix does not yield `true`, appending pairs leaves the outcome unchanged |
| BudgetCheck.EqualPairKeepsCounters | check_budget.py:45 | a pair that is not different leaves the counter map exactly as it was |
| BudgetCheck.NoDifferencesAccepted | check_budget.py:44-45 | when no pair differs, no counter is ever created and the result is `true` |
| BudgetCheck.SelfComparisonAccepted | check_budget.py:72 | a table compared with itself yields `true` |
| BudgetCheck.ScanRunsIffWithinBudget | check_budget.py:44-71 | the scan runs to the end iff the tables are within budget, and its counters are then the per-user numbers of differing rows |
| BudgetCheck.AcceptedIffWithinBudget | check_budget.py:44-72 | the outcome is `true` iff every user has at most BUDGET differing rows and every differing row is acceptable |
| BudgetCheck.KeyErrorOnlyOnMissingKey | check_budget.py:53-62 | a KeyError comes from a differing row that kept its sign: it names that row's attack code and source-sign bucket, and the named bound map of that bucket lacks the code |
| BudgetCheck.MissingKeyRaises | check_budget.py:58-62 | when the scan reaches a differing row within budget that kept its sign, a code missing from max makes the outcome KeyError on max of the source-sign bucket, and a code present in max but missing from min makes it KeyError on min |
| BudgetCheck.VerdictWhenKeysCovered | check_budget.py:44-72 | when every differing, sign-keeping row finds its attack code in the max and min maps of its source-sign bucket, the outcome is the boolean `WithinBudget` |
| BudgetCheck.OverBudgetRejected | check_budget.py:46-48 | a user with more than BUDGET differing rows rules out `true`, and gives `false` when no lookup can miss |
| BudgetCheck.ExtraEditOverBudgetRejected | check_budget.py:9-48 | after an accepted table in which a user has exactly BUDGET differing rows, one more differing row of that user yields `false` |
| BudgetCheck.SignFlipRejected | check_budget.py:50-51 | a differing row whose amount changes sign rules out `true`, and gives `false` when no lookup can miss |
| BudgetCheck.OutOfRangeRejected | check_budget.py:63-71 | a differing row whose attack amount is above max or below min rules out `true`, and gives `false` when no lookup can miss |
| BudgetCheck.BoundsAreInclusive | check_budget.py:63-71 | an edit that keeps its sign and lands exactly on min or on max of a range with min <= max is acceptable |
| BudgetCheck.RangeBoundaryExample | check_budget.py:63-71 | with max 100.00 and min 1.00, edits to 100.00 and 1.00 pass while edits to 100.01 and 0.99 fail |

## Left out

- Reading the CSV files and the JSON quantile file with their dtype coercion and timestamp parsing
  (check_budget.py:14-27) is I/O. The model takes the parsed rows as `Transaction` values and the
  quantile table as `Quantiles` values.
- The pandas `sort_values` calls (check_budget.py:21, 27) are not modelled. `CheckBudget` requires
  both tables to be sorted by `(user_id, transaction_dttm)`. No claim is made about invariance
  under reordering the input files, because pandas' tie-breaking is not part of this model.
- The shape assertion (check_budget.py:29) becomes the precondition `|src| == |atk|`. The model
  only has the five compared columns.
- Amounts are integers in minor units. `numpy.isclose` and `numpy.sign` are modelled exactly for
  such integers. Floating-point rounding and NaN are not modelled.
- The quantile keys are strings in the source, looked up as `str(mcc_code)`, and plain integers
  here. This assumes every key of the JSON maps is the canonical decimal string of an integer. A
  key such as "05411" or "5411.0" never matches `str(mcc_code)` and has no counterpart in a
  `map<int, int>`.
- The bounds are real numbers in the JSON and integers in minor units here. Rounding `max` down and
  `min` up to whole minor units gives the same range test against every integer amount.
- A missing quantile key raises `KeyError` in the source. The model returns the distinct outcome
  `KeyError(bucket, bound, key)`, looking in `max` before `min` as the source does (`Step`, `MissingKeyRaises`). A missing key
  is not turned into `false`.
- `BUDGET` is the fixed constant 10, as in the source. It is not a parameter.
- The `tqdm` progress bar (check_budget.py:44), `main` with its hard-coded paths
  (check_budget.py:75-82) and the commented-out source-side range checks (check_budget.py:57,
  59-60, 65, 67) are left out. The first two are display and I/O; the last is dead code.
- The bucket is chosen by the sign of the source amount (`a.transaction_amt < 0`,
  check_budget.py:53). After the sign check this is the attack amount's bucket too
  (`BucketBySourceIsBucketByAttack`).
- `numpy.sign(0)` is 0 (check_budget.py:50), so an edit from 0 to a positive amount fails the sign
  test, although a zero source amount selects the positive bucket.
