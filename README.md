# ExpenseTracker savings targets, in Dafny

This project models how ExpenseTracker, a small Flask application for
tracking savings, shares the amount saved among savings targets. It covers
four parts of the application:

- **`allocate_funds`** (`services/allocation.py`) splits the total saved among
  the targets in proportion to their weights. This is a "waterfall": a
  target whose share covers its price is filled, and its surplus is split
  again among the others in the next round. Each target then gets a row
  with the rounded amount, its progress and its display percentage, and the
  rows are sorted by descending weight.
- **`compute_display_percentages`** (`services/allocation.py`) and
  **`normalize_to_100`** (`services/weights.py`) turn weights into whole
  percentages that add up to 100. Both use the largest-remainder method:
  floor every exact share, then give the missing points to the largest
  fractional parts, earlier items first on ties.
- **The weight-editing views of `app.py`:**
  - `update_weight` sets one target to a clamped percentage and rescales
    the others.
  - `add_target` picks the new target's initial weight, then renormalises
    every weight.
  - `save_weights` parses the `weights[<id>]` form fields and renormalises
    them.
- **`compute_total_saved`** (`app.py`): the deposits minus the spending,
  never below 0.

Each loop of the source is a Dafny `method` with loop invariants. Each
method is proved equal to a specification function, and the properties the
source promises are lemmas about those functions:

- conservation of money;
- allocations within each target's price;
- every target filled when the savings cover all prices;
- one common "water level": each target gets `min(price, level * weight)`, so saving more never gives any target less;
- termination within as many rounds as there are targets;
- percentages that add up to 100, each its exact share rounded down or up;
- ties that go to the earlier item;
- a stable sort;
- the error cases.

Money and weights are exact `real`s. Python's `int()` truncates toward zero
(`Numeric.Trunc`). `round()` rounds half to even (`Numeric.RoundHalfEven`),
and `round(x, 1)` and `round(x, 2)` are modelled by `Decimal`.

Database access is left to the caller:
- the targets, transactions and purchases a view reads are parameters;
- every `update_target_weight(id, pct)` a view performs is returned as a
  `Write(id, pct)`, in the order of the calls.

A Python dictionary that the code builds and then iterates over is a
sequence of entries in insertion order. `normalize_to_100` builds both of
its dictionaries by comprehensions over `items`, and `+=` on an existing key
keeps its place, so the dictionary it returns lists its ids in the order of
`items`. `App.WritesOf` and `App.Persist` rely on this order.

The files are:
- `wrappers.dfy`: Option and Result;
- `numeric.dfy`: sums, truncation and rounding;
- `ordering.dfy`: the stable descending sort;
- `largest_remainder.dfy`: the largest-remainder method;
- `waterfall.dfy`: the distribution rounds;
- `allocation.dfy`, `weights.dfy` and `app.dfy`: the three source files.

## Model

| member | source | states |
|---|---|---|
| Numeric.Trunc | services/allocation.py:71 | `int(p)` truncates toward zero: the result is the largest integer not above p for p ≥ 0, the smallest not below it otherwise |
| Numeric.RoundHalfEven | app.py:106-108 | `round(x)` lies within half a point of x, and on an exact tie it is the even neighbour |
| Decimal.RoundHundredths | services/allocation.py:49 | `round(x, 2)` lies within half a cent of x |
| Decimal.RoundHundredthsMonotone | services/allocation.py:49 | `round(x, 2)` never reverses the order of two amounts |
| Decimal.RoundTenthsWithin | services/allocation.py:50 | `round(x, 1)` of a value between two whole numbers stays between them |
| Ordering.StableOrderDesc | services/allocation.py:77-81 | the sorted positions list every position once, larger keys first, and equal keys in input order |
| Ordering.PrefixClosed | services/allocation.py:83 | every position that sorts ahead of one taken by `indices[:remaining]` is taken too |
| Apportionment.SliceLength | services/allocation.py:83 | the length of `xs[:stop]`: stop itself when it is within the list, the whole list for a stop beyond the end, and for a negative stop the list length plus stop, floored at 0 |
| Apportionment.LargestRemainder | services/allocation.py:70-86 | the shared largest-remainder rounding (also services/weights.py:12-25): floor every share, then raise the first `remaining` positions of the stable descending remainder order; one entry per share, and its properties are the Apportionment lemmas below |
| Apportionment.SharesOfTotal | services/allocation.py:66-70 | the exact shares `w / total * 100` add up to 100 |
| Apportionment.FloorsSum | services/allocation.py:71-74 | for non-negative shares, the floors add up to at most the sum, and to less than one point per share below it |
| Apportionment.DeficitInRange | services/allocation.py:74 | for non-negative shares summing to 100, the points left over after flooring number at least 0 and fewer than the shares |
| Apportionment.BumpedSum | services/allocation.py:83-84 | raising `cut` distinct positions by one adds exactly `cut` to the total |
| Apportionment.LargestRemainderSum | services/allocation.py:65-86 | for non-negative shares summing to 100, the result adds up to 100 and each entry is its share rounded down or up |
| Apportionment.LargestRemainderPrefers | services/allocation.py:77-84 | a raised entry precedes every unraised one: its remainder is larger, or equal with an earlier position |
| Apportionment.LargestRemainderMonotone | services/allocation.py:70-84 | a larger share, or an equal share earlier in the list, never gets fewer points |
| Apportionment.WholeShareKept | services/allocation.py:71-84 | a share that is already whole is not raised |
| Distribution.PositiveIndices | services/allocation.py:18 | the active list holds positions in increasing order, each with a positive weight |
| Distribution.PositiveIndicesComplete | services/allocation.py:18 | every positive-weight position is active at the start |
| Distribution.WeightOf | services/allocation.py:22 | the total weight of a non-empty active list is positive, so the division is defined |
| Distribution.Visit | services/allocation.py:27-35 | the body of `for t in active`: fill the target and pass its surplus on as excess when the share covers what it lacks, otherwise add the share and keep it active; the allocations keep their length |
| Distribution.RoundUpTo | services/allocation.py:22-35 | one round over the first j active targets: the excess is never negative, the next active list is an increasing sublist of the visited targets with positive weights, and no excess is left when every visited target stays active |
| Distribution.Distribute | services/allocation.py:20-38 | the `while remaining_money > 0 and active` loop from a given state: at most one round per active target, and no overdraft when it starts from a non-negative amount |
| Distribution.Waterfall | services/allocation.py:17-38 | the loop from its starting state, every allocation 0 and the positive-weight targets active; one allocation per target |
| Distribution.VisitAdds | services/allocation.py:27-35 | visiting a target moves exactly its share into its allocation and the excess |
| Distribution.RoundConserves | services/allocation.py:26-35 | after a round, the allocations plus the excess have grown by exactly the money handed out |
| Distribution.DistributeConserves | services/allocation.py:20-38 | the allocations plus the money left undistributed equal what the loop started with |
| Distribution.WaterfallConserves | services/allocation.py:17-38 | the allocations plus the final `remaining_money` equal `total_saved` |
| Distribution.WaterfallZeroWeight | services/allocation.py:18 | a target of weight 0 or less is allocated nothing |
| Distribution.RoundWithinPrice | services/allocation.py:27-35 | a round keeps every allocation between 0 and its price |
| Distribution.WaterfallWithinPrice | services/allocation.py:17-38 | with non-negative prices, every allocation lies between 0 and its price |
| Distribution.RoundFills | services/allocation.py:30-32 | a target that leaves the active list during a round has been filled to its price |
| Distribution.DistributeExhausts | services/allocation.py:20-38 | when the loop ends with money left, every target that was active is filled |
| Distribution.WaterfallExhausts | services/allocation.py:17-38 | money is left over only when every positive-weight target is filled |
| Distribution.WaterfallFillsAll | services/allocation.py:17-38 | when the savings exceed the sum of the prices, every positive-weight target is filled and money is left over |
| Distribution.WaterfallRounds | services/allocation.py:20-38 | the loop ends after at most as many rounds as there are positive-weight targets |
| Distribution.WaterfallNothingSaved | services/allocation.py:20 | with nothing saved, no round runs and every allocation stays 0 |
| Distribution.RoundLevelAt | services/allocation.py:26-35 | a visited target whose allocation was the level times its weight ends the round either still active at the raised level `level + remaining_money / total_weight` times its weight, within its price, or filled to its price, which that raised amount reaches |
| Distribution.RoundKeepsLevel | services/allocation.py:22-38 | a round keeps every target at one common level: the active ones at the level times their weight, the filled ones at their price, the rest at 0 |
| Distribution.DistributeLevel | services/allocation.py:20-38 | the loop ends with every allocation at `min(price, level * weight)` for one common level, 0 for the other targets |
| Distribution.WaterfallLevel | services/allocation.py:17-38 | with non-negative prices, `allocate_funds` gives each positive-weight target `min(price, level * weight)` for one level shared by all targets |
| Distribution.LevelMonotone | services/allocation.py:17-38 | a higher level never gives a target less |
| Distribution.WaterfallMonotone | services/allocation.py:17-38 | with non-negative prices, saving more never allocates less to any target |
| Distribution.ProportionalSplitExample | services/allocation.py:17-38 | weights 70 and 30, prices 100 and 50, and 120 saved give 84 and 36 |
| Distribution.OverflowExample | services/allocation.py:17-38 | weights 50 and 50, prices 10 and 1000, and 100 saved give 10 and 90 |
| Allocation.DisplayPercentages | services/allocation.py:65-86 | all 0 when the weights sum to 0, otherwise the largest-remainder rounding of each weight's share of 100; one percentage per weight |
| Allocation.ComputeDisplayPercentages | services/allocation.py:65-86 | the floor-then-bump loop over an array computes the display percentages |
| Allocation.DisplayPercentagesSum | services/allocation.py:65-86 | for non-negative weights: all 0 when they sum to 0, otherwise the percentages sum to 100 and each is its exact share rounded down or up |
| Allocation.DisplayPercentagesOrder | services/allocation.py:77-84 | a heavier weight, or an equal weight earlier in the list, never shows a smaller percentage |
| Allocation.DisplayPercentagesZeroWeight | services/allocation.py:65-86 | a weight of 0 shows 0% |
| Allocation.FirstNegative | services/allocation.py:5-7 | finds the first target whose weight is negative, or reports that there is none |
| Allocation.Row | services/allocation.py:43-51 | a target's output row: `round(allocated, 2)` and `round(min(allocated / price, 1.0) * 100, 1)`; its bounds are `RowBounds` |
| Allocation.SortByWeight | services/allocation.py:61 | `result.sort` by descending weight; one row per row, and `SortByWeightIsStable` proves it a stable descending permutation |
| Allocation.Allocate | services/allocation.py:1-63 | `allocate_funds`: the first negative weight's `ValueError`, then `ZeroDivisionError` for a zero price, otherwise the sorted rows; its properties are the Allocation lemmas below |
| Allocation.AllocateFunds | services/allocation.py:1-63 | the method returns the outcome of `allocate_funds`: an error, or the sorted rows |
| Allocation.RunWaterfall | services/allocation.py:17-38 | the `while` loop over an array of allocations computes the waterfall |
| Allocation.RunRound | services/allocation.py:22-38 | one pass of `for t in active` updates the array, the excess and the next active list as one round does |
| Allocation.BuildRows | services/allocation.py:41-51 | the output rows, in input order; a price of 0 raises `ZeroDivisionError` |
| Allocation.AttachPercentages | services/allocation.py:57-58 | each row receives the percentage at its position and is otherwise unchanged |
| Allocation.AllocateRejectsNegative | services/allocation.py:5-7 | the first target with a negative weight raises `ValueError` with its name |
| Allocation.AllocateRejectsZeroPrice | services/allocation.py:43 | without negative weights, the call fails exactly when some price is 0 |
| Allocation.SortByWeightIsStable | services/allocation.py:61 | the sort orders by descending weight and is a stable permutation of the rows |
| Allocation.AllocateOrder | services/allocation.py:54-63 | the result has one row per target, by descending weight, with equal weights in input order |
| Allocation.RowBounds | services/allocation.py:43-50 | the rounded amount lies within half a cent of the allocation, and the progress lies in [0, 100]: 100 when full, 0 when empty |
| Allocation.AllocateRowBounds | services/allocation.py:17-63 | every amount lies in [0, price + 0.005] and every progress in [0, 100]; a weight-0 target shows 0, 0 and 0% |
| Allocation.AllocateMonotone | services/allocation.py:17-61 | with non-negative prices, a larger `total_saved` keeps the rows in the same order and never shows a smaller `allocated` in any of them |
| Allocation.AllocateProportionalExample | services/allocation.py:1-63 | weights 70 and 30, prices 100 and 50, and 120 saved: amounts 84 and 36, progress 84 and 72, display 70% and 30%, heavier first |
| Allocation.AllocateOverflowExample | services/allocation.py:1-63 | weights 50 and 50, prices 10 and 1000, and 100 saved: amounts 10 and 90, progress 100 and 9, display 50% each, input order kept |
| Weights.Clamp | services/weights.py:7 | `max(0.0, w)` is at least 0 and at least w, and is one of the two |
| Weights.Normalized | services/weights.py:7-27 | the percentages `normalize_to_100` gives, item by item: all 0 when the clamped total is not positive, otherwise the largest-remainder rounding of each clamped weight's share of 100; one per item |
| Weights.NormalizeTo100 | services/weights.py:1-27 | the dictionary maps every id, and only those ids, to its normalised percentage |
| Weights.ExactShares | services/weights.py:12-16 | the loop builds every clamped weight's share of 100 |
| Weights.AddLeftoverPoints | services/weights.py:24-25 | the loop adds one point to the ids of the first `remaining` sorted remainders |
| Weights.TotalPositive | services/weights.py:7-8 | the clamped total is never negative, and it is positive exactly when some raw weight is |
| Weights.NormalizedSum | services/weights.py:7-27 | all 0 when no weight is positive, otherwise the percentages add up to exactly 100 |
| Weights.NormalizedNear | services/weights.py:14-25 | each percentage is the exact share rounded down or up |
| Weights.NormalizeDeficitInRange | services/weights.py:21-25 | `remaining` is at least 0 and less than the number of items, so `remainders[k]` is in range |
| Weights.NormalizedNonPositive | services/weights.py:14 | an item whose weight is 0 or negative gets 0 |
| Weights.NormalizedMonotone | services/weights.py:18-25 | a larger weight, or an equal weight earlier in the list, never gets fewer points |
| Weights.LargestRemainderNonNegative | services/weights.py:1-27 | no percentage is negative |
| Weights.ThreeEqual | services/weights.py:1-27 | three equal positive weights give 34, 33 and 33 |
| Weights.ThreeEqualExample | services/weights.py:1-27 | `[1, 1, 1]` gives `[34, 33, 33]` |
| App.TotalSaved | app.py:21-28 | the total saved is at least 0 and at least the deposits minus the spending, and is one of the two |
| App.TotalSavedDeposit | app.py:21-28 | a deposit never lowers the total, and raises it by exactly its amount when the ledger is not in deficit |
| App.TotalSavedPurchase | app.py:21-28 | recording a purchase never raises the total |
| App.Purchase | app.py:132-145 | the records `purchase_target` adds as written: a purchase of the price and a spending transaction of minus the price |
| App.PurchaseOnce | app.py:132-137 | the corrected records: the purchase alone |
| App.TotalSavedAfterBuying | app.py:132-145 | as written, buying a target records a purchase and a spending transaction of its price, and the total drops by twice the price, down to 0 |
| App.BuyingDeductsTwice | app.py:132-145 | 100 deposited and a target of price 30 bought leave 40 saved |
| App.TotalSavedAfterBuyingOnce | app.py:21-28 | with the purchase recorded once, the total drops by the price, down to 0, and by exactly the price when at least that much was saved |
| App.ParseInt | app.py:93-94 | `int(s)` on a form field: an optional sign and decimal digits, or `ValueError`; `ParseShow` is its round trip |
| App.ParseShow | app.py:93 | `int(str(n)) == n` |
| App.ClampPct | app.py:94 | the result is in [0, 100]: n itself when n is in range, 0 below the range, 100 above it |
| App.OtherWeightBelowTotal | app.py:98-99 | with non-negative weights, no other target weighs more than `other_total` |
| App.NewWeight | app.py:101-111 | the weight written for one target: the new percentage for the edited one, `round(w * (100 - pct) / other_total)` for the others, or 0 when the others weigh nothing; its bounds are `NewWeightBounds` |
| App.Redistribute | app.py:101-111 | the loop's writes: one per target, in order, each with the target's id |
| App.UpdateWeightOutcome | app.py:85-113 | `update_weight`: no writes when a field is missing, the `ValueError` of a field that is not an integer, otherwise the writes of `Redistribute` with the clamped percentage |
| App.UpdateWeight | app.py:85-113 | a missing field writes nothing, a non-integer field raises `ValueError`, otherwise the writes are those of the loop |
| App.RedistributeWeights | app.py:101-111 | the loop writes once per target, in order |
| App.RedistributeBounds | app.py:98-111 | the edited target is written the clamped percentage; any other target is written a value in [0, 100 - pct] |
| App.RedistributeTotal | app.py:98-111 | the writes add up to pct per edited target plus 100 - pct, give or take half a point per target |
| App.UpdateWeightExample | app.py:85-113 | weights 40 and 60, with the first set to 70, write 70 and 30 |
| App.RedistributeDriftExample | app.py:98-111 | weights 1, 1 and 1, with the first set to 1, write 1, 50 and 50: 101 in all, since `round(49.5)` is 50 |
| App.InitialWeight | app.py:166-176 | in manual mode `int(raw)` when the field is a non-empty run of digits and 0 when it is missing, blank or not all digits, so always a whole non-negative weight; in the default mode the mean of the existing weights, or 100 when there are none |
| App.ManualWeight | app.py:167-168 | in manual mode a weight submitted as `str(n)` is taken as n |
| App.AddTarget | app.py:153-196 | a price that `float()` rejects raises `ValueError` and nothing is written; otherwise the new target is added with its initial weight, and every target is written its normalised percentage |
| App.Persist | app.py:194-196 | the loop writes each id's percentage from the dictionary, in insertion order |
| App.AddFirstTarget | app.py:172-176 | the first target, added in the default mode, is written 100 |
| App.AddTargetEqualShare | app.py:170-174 | in the default mode, the new target's percentage is 100 / (n + 1), rounded down or up |
| App.WeightKeyRoundTrip | app.py:230-231 | the key `weights[<id>]` is recognised and gives back the id |
| App.Put | app.py:233 | `raw[id] = w` on the dictionary as its entries in insertion order; its properties are `PutFacts` |
| App.PutFacts | app.py:233 | `raw[id] = w` keeps the keys distinct, adds id, sets its value and leaves other entries in place |
| App.Collect1 | app.py:230-233 | one pass of the form loop: a non-weight key is skipped, a key whose id is not an integer or a value that is not a number raises `ValueError`, otherwise the entry is put; the ids stay distinct |
| App.Collect | app.py:229-233 | the dictionary that the loop over the form builds has distinct ids |
| App.SaveWeightsOutcome | app.py:224-246 | `save_weights`: the first `ValueError`, no writes when no weight was submitted, otherwise the normalised weights in insertion order |
| App.SaveWeights | app.py:224-246 | the method returns the outcome of `save_weights`: the first `ValueError`, no writes, or the normalised writes |
| App.CollectKeepsFailure | app.py:229-233 | once a field raises, the later fields do not matter |
| App.CollectIds | app.py:229-233 | the dictionary holds exactly one entry per submitted id |
| App.CollectLastWins | app.py:230-233 | of distinct keys that parse to the same id (such as `weights[01]` after `weights[1]`), the last one decides its weight, and a blank field counts as 0.0 |
| App.SaveWeightsNoKeys | app.py:235-236 | a form without weight fields writes nothing |
| App.SaveWeightsTotal | app.py:238-244 | one write per submitted id; when some submitted weight is positive the written weights add up to exactly 100, and when none is every write is 0 |

## Left out

- Flask routing, redirects, templates and the debug prints in `add_target`. They have no effect on the computed values.
- The database layer (`db.py`) is not part of this model. Reads are parameters, and `update_target_weight` calls are the returned writes. The `insert_target` call of `add_target` is modelled by appending the new target to the list of existing ones.
- `list_targets()` is taken to return rows in insertion order. A query without `ORDER BY` gives no such promise.
- `achievements.py` is not part of this model. Of `purchase_target`, only the records it adds, and their effect on `compute_total_saved`, are modelled; the lookup of the target and `delete_target` are not. The unused module constants `TOTAL_SAVED` and `PURCHASES` are left out too.
- Floating point. Money and weights are exact reals, so float rounding errors in the sums, shares and `round` are not modelled. `round(x, 2)` and `round(x, 1)` round the exact value.
- SQLite column affinity. A weight is stored as the value given, whether int or float.
- `Allocation.AllocateRowBounds`: the displayed amount may exceed the price by up to half a cent, because it is rounded to cents. The bound states this rather than amount ≤ price.
- `Allocation.AllocateFunds` works on a list of the rows built in input order. The in-place `result.sort` is modelled as building the sorted list.
- `App.ParseShow`: `int()` is modelled for an optional sign followed by ASCII digits. Surrounding whitespace, underscores between digits and non-ASCII digits, which Python also accepts, are not modelled.
- `App.AddTarget`: `str.isdigit()` is modelled for ASCII digits only. Python also accepts other Unicode digits, and some of those make `int()` raise.
- `App.SaveWeights`: `float(value)` is abstracted as a `FieldValue`: blank, a parsed number, or text that raises `ValueError`. Python's float syntax, including `inf` and `nan`, is not modelled.
- `App.AddTarget`: the price is a `FieldValue`. Only whether `float()` accepts it matters, because a rejected price raises `ValueError` before the insert. The price's value and the name field are not modelled, as neither affects the weights.
- `Weights.NormalizeTo100` requires distinct ids. Its callers pass database rows, keyed by primary key, or the entries of a dictionary. With duplicate ids the source's dictionary would merge entries, and that is not modelled.
- `App.SaveWeights`: the form is `request.form.items()`, which yields each distinct key once, with the first value submitted under it. The form is therefore a sequence of pairs with distinct keys. A key submitted twice, with the second value ignored, is not modelled.
- `App.AddTarget` requires a fresh id for the new target, as the database's autoincrement key provides.

## Findings

| source | as written | input that shows it | evidently intended | confidence | as-written member | corrected member |
|---|---|---|---|---|---|---|
| app.py:132-145 | `purchase_target` records a purchase of the target's price and also a spending transaction of minus that price, and `compute_total_saved` (app.py:25-28) subtracts both | 100 deposited, then a target of price 30 bought: the total saved becomes 40, not 70 | buying a target takes its price off the total saved once | high, not executed | App.TotalSavedAfterBuying | App.TotalSavedAfterBuyingOnce |
