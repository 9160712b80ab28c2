/** `services/allocation.py`: splitting the amount saved among the savings
    targets (`allocate_funds`) and the whole-number weight percentages shown
    next to them (`compute_display_percentages`). */
module Allocation {
  import opened Wrappers
  import opened Numeric
  import opened Decimal
  import opened Ordering
  import opened Apportionment
  import opened Distribution

  /** A savings target as read from the database. */
  datatype Target = Target(id: int, name: string, price: real, weight: real)

  /** One output row of `allocate_funds`. */
  datatype Allocation = Allocation(id: int, name: string, price: real, weight: real,
                                   amount: real, progress: real, displayWeightPct: int)

  /** `ValueError("Negative weight not allowed: <name>")` and the
      `ZeroDivisionError` raised for a target whose price is 0. */
  datatype AllocationError = NegativeWeight(name: string) | DivisionByZero

  function Weights(targets: seq<Target>): (w: seq<real>)
    ensures |w| == |targets| && forall i :: 0 <= i < |targets| ==> w[i] == targets[i].weight
  {
    seq(|targets|, i requires 0 <= i < |targets| => targets[i].weight)
  }

  function Prices(targets: seq<Target>): (p: seq<real>)
    ensures |p| == |targets| && forall i :: 0 <= i < |targets| ==> p[i] == targets[i].price
  {
    seq(|targets|, i requires 0 <= i < |targets| => targets[i].price)
  }

  // ---------------------------------------------------------------------
  // compute_display_percentages

  /** The display percentages: all 0 when the weights add up to 0, otherwise
      the largest-remainder rounding of each weight's share of 100. */
  function DisplayPercentages(weights: seq<real>): (pct: seq<int>)
    ensures |pct| == |weights|
  {
    var total := Sum(weights);
    if total == 0.0 then seq(|weights|, _ => 0)
    else LargestRemainder(Shares(weights, total))
  }

  method ComputeDisplayPercentages(weights: seq<real>) returns (pct: seq<int>)
    ensures pct == DisplayPercentages(weights)
  {
    var total := Sum(weights);
    if total == 0.0 {
      return seq(|weights|, _ => 0);
    }
    var exact := Shares(weights, total);
    var floored := new int[|exact|](i requires 0 <= i < |exact| => Trunc(exact[i]));
    assert floored[..] == Floors(exact);
    var remainder := Remainders(exact);
    var remaining := 100 - SumInt(floored[..]);
    var indices := StableOrderDesc(remainder);
    StableOrderIsDistinct(remainder, indices);
    var cut := SliceLength(remaining, |indices|);
    var k := 0;
    while k < cut
      invariant 0 <= k <= cut
      invariant floored[..] == Bumped(Floors(exact), indices, k)
    {
      BumpedStep(Floors(exact), indices, k);
      floored[indices[k]] := floored[indices[k]] + 1;
      k := k + 1;
    }
    pct := floored[..];
  }

  /** With non-negative weights: all percentages are 0 when the weights add
      up to 0; otherwise they add up to exactly 100 and each is its exact
      share rounded down or up. */
  lemma DisplayPercentagesSum(weights: seq<real>)
    requires NonNegative(weights)
    ensures Sum(weights) == 0.0 ==>
      forall i :: 0 <= i < |weights| ==> DisplayPercentages(weights)[i] == 0
    ensures Sum(weights) != 0.0 ==>
      SumInt(DisplayPercentages(weights)) == 100 &&
      forall i :: 0 <= i < |weights| ==>
        var exact := weights[i] / Sum(weights) * 100.0;
        DisplayPercentages(weights)[i] == exact.Floor || DisplayPercentages(weights)[i] == exact.Floor + 1
  {
    var total := Sum(weights);
    SumNonNegative(weights);
    if total != 0.0 {
      SharesOfTotal(weights);
      SharesNonNegative(weights, total);
      LargestRemainderSum(Shares(weights, total));
    }
  }

  /** A heavier weight, or an equal weight earlier in the list, never shows a
      smaller percentage: ties in the remainder go to the earlier position. */
  lemma DisplayPercentagesOrder(weights: seq<real>, i: nat, j: nat)
    requires NonNegative(weights) && i < |weights| && j < |weights|
    requires Precedes(weights, i, j)
    ensures DisplayPercentages(weights)[i] >= DisplayPercentages(weights)[j]
  {
    var total := Sum(weights);
    SumNonNegative(weights);
    if total != 0.0 {
      SharesKeepOrder(weights, total, i, j);
      LargestRemainderMonotone(Shares(weights, total), i, j);
    }
  }

  /** A weight of 0 shows 0%. */
  lemma DisplayPercentagesZeroWeight(weights: seq<real>, i: nat)
    requires NonNegative(weights) && i < |weights| && weights[i] == 0.0
    ensures DisplayPercentages(weights)[i] == 0
  {
    var total := Sum(weights);
    SumNonNegative(weights);
    if total != 0.0 {
      SharesOfTotal(weights);
      SharesNonNegative(weights, total);
      WholeShareKept(Shares(weights, total), i);
    }
  }

  // ---------------------------------------------------------------------
  // allocate_funds

  /** The position of the first target with a negative weight, if any. */
  function FirstNegative(targets: seq<Target>): (k: Option<nat>)
    ensures k.None? <==> forall i :: 0 <= i < |targets| ==> targets[i].weight >= 0.0
    ensures k.Some? ==> k.value < |targets| && targets[k.value].weight < 0.0 &&
                        forall i :: 0 <= i < k.value ==> targets[i].weight >= 0.0
  {
    if |targets| == 0 then None
    else if targets[0].weight < 0.0 then Some(0)
    else match FirstNegative(targets[1..])
      case None => None
      case Some(k) => Some(k + 1)
  }

  predicate HasZeroPrice(targets: seq<Target>)
  {
    exists i :: 0 <= i < |targets| && targets[i].price == 0.0
  }

  /** The row built for a target given the amount allocated to it, before its
      display percentage is attached. */
  function Row(t: Target, amount: real): Allocation
    requires t.price != 0.0
  {
    Allocation(t.id, t.name, t.price, t.weight, RoundHundredths(amount),
               RoundTenths(Min(amount / t.price, 1.0) * 100.0), 0)
  }

  /** The rows in input order, with their display percentages. */
  function Unsorted(totalSaved: real, targets: seq<Target>): (rows: seq<Allocation>)
    requires !HasZeroPrice(targets)
    ensures |rows| == |targets|
  {
    var alloc := Waterfall(Prices(targets), Weights(targets), totalSaved).alloc;
    var pct := DisplayPercentages(Weights(targets));
    seq(|targets|, i requires 0 <= i < |targets| =>
      Row(targets[i], alloc[i]).(displayWeightPct := pct[i]))
  }

  function RowWeights(rows: seq<Allocation>): (w: seq<real>)
    ensures |w| == |rows| && forall i :: 0 <= i < |rows| ==> w[i] == rows[i].weight
  {
    seq(|rows|, i requires 0 <= i < |rows| => rows[i].weight)
  }

  /** `result.sort(key=lambda x: x["weight"], reverse=True)`. */
  function SortByWeight(rows: seq<Allocation>): (sorted: seq<Allocation>)
    ensures |sorted| == |rows|
  {
    var order := StableOrderDesc(RowWeights(rows));
    seq(|rows|, k requires 0 <= k < |rows| => rows[order[k]])
  }

  /** The outcome of `allocate_funds(total_saved, targets)`. */
  function Allocate(totalSaved: real, targets: seq<Target>): Result<seq<Allocation>, AllocationError>
  {
    match FirstNegative(targets)
    case Some(k) => Failure(NegativeWeight(targets[k].name))
    case None =>
      if HasZeroPrice(targets) then Failure(DivisionByZero)
      else Success(SortByWeight(Unsorted(totalSaved, targets)))
  }

  /** The redistribution loop, updating the working allocations in place. */
  method RunWaterfall(price: seq<real>, weight: seq<real>, totalSaved: real) returns (amounts: seq<real>)
    requires |price| == |weight|
    ensures amounts == Waterfall(price, weight, totalSaved).alloc
  {
    var alloc := new real[|price|](_ => 0.0);
    assert alloc[..] == Zeros(|price|);
    var remaining := totalSaved;
    var active := PositiveIndices(weight);
    while remaining > 0.0 && |active| > 0
      invariant alloc.Length == |price|
      invariant ActiveOk(weight, active)
      invariant Distribute(price, weight, alloc[..], remaining, active).alloc
                == Waterfall(price, weight, totalSaved).alloc
      decreases |active|, if remaining > 0.0 then 1 else 0
    {
      ghost var start := alloc[..];
      var totalWeight := WeightOf(weight, active);
      var excess, nextActive := RunRound(price, weight, alloc, remaining, totalWeight, active);
      assert Distribute(price, weight, start, remaining, active)
          == var o := Distribute(price, weight, alloc[..], excess, nextActive);
             Outcome(o.alloc, o.leftover, o.rounds + 1);
      remaining := excess;
      active := nextActive;
    }
    amounts := alloc[..];
  }

  /** One pass of `for t in active:` over the working allocations. */
  method RunRound(price: seq<real>, weight: seq<real>, alloc: array<real>,
                  remaining: real, totalWeight: real, active: seq<nat>)
    returns (excess: real, nextActive: seq<nat>)
    requires |price| == |weight| == alloc.Length
    requires ActiveOk(weight, active) && totalWeight > 0.0
    modifies alloc
    ensures RoundState(alloc[..], excess, nextActive)
            == RoundUpTo(price, weight, old(alloc[..]), remaining, totalWeight, active, |active|)
  {
    excess := 0.0;
    nextActive := [];
    var j := 0;
    assert RoundUpTo(price, weight, old(alloc[..]), remaining, totalWeight, active, 0)
        == RoundState(alloc[..], 0.0, []);
    while j < |active|
      invariant 0 <= j <= |active|
      invariant RoundState(alloc[..], excess, nextActive)
                == RoundUpTo(price, weight, old(alloc[..]), remaining, totalWeight, active, j)
    {
      ghost var before := RoundState(alloc[..], excess, nextActive);
      var t := active[j];
      var share := remaining * (weight[t] / totalWeight);
      assert share == Portion(remaining, weight[t], totalWeight);
      assert before == RoundUpTo(price, weight, old(alloc[..]), remaining, totalWeight, active, j);
      assert RoundUpTo(price, weight, old(alloc[..]), remaining, totalWeight, active, j + 1)
          == Visit(price, before, t, share);
      var capacity := price[t] - alloc[t];
      if share >= capacity {
        alloc[t] := alloc[t] + capacity;
        excess := excess + (share - capacity);
      } else {
        alloc[t] := alloc[t] + share;
        nextActive := nextActive + [t];
      }
      assert RoundState(alloc[..], excess, nextActive) == Visit(price, before, t, share);
      j := j + 1;
    }
  }

  method AllocateFunds(totalSaved: real, targets: seq<Target>)
    returns (r: Result<seq<Allocation>, AllocationError>)
    ensures r == Allocate(totalSaved, targets)
  {
    var i := 0;
    while i < |targets|
      invariant 0 <= i <= |targets|
      invariant forall k :: 0 <= k < i ==> targets[k].weight >= 0.0
    {
      if targets[i].weight < 0.0 {
        return Failure(NegativeWeight(targets[i].name));
      }
      i := i + 1;
    }
    var amounts := RunWaterfall(Prices(targets), Weights(targets), totalSaved);
    var built := BuildRows(targets, amounts);
    if built.Failure? {
      return Failure(built.error);
    }
    var result := built.value;
    var displayPercents := ComputeDisplayPercentages(RowWeights(result));
    assert RowWeights(result) == Weights(targets);
    result := AttachPercentages(result, displayPercents);
    assert result == Unsorted(totalSaved, targets);
    r := Success(SortByWeight(result));
  }

  /** The output loop: one row per target, in input order; a zero price
      raises when its progress is computed. */
  method BuildRows(targets: seq<Target>, amounts: seq<real>)
    returns (r: Result<seq<Allocation>, AllocationError>)
    requires |amounts| == |targets|
    ensures HasZeroPrice(targets) ==> r == Failure(DivisionByZero)
    ensures !HasZeroPrice(targets) ==>
      r.Success? && |r.value| == |targets| &&
      (forall k :: 0 <= k < |targets| ==> r.value[k] == Row(targets[k], amounts[k]))
  {
    var result: seq<Allocation> := [];
    var i := 0;
    while i < |targets|
      invariant 0 <= i <= |targets| && |result| == i
      invariant forall k :: 0 <= k < i ==> targets[k].price != 0.0 && result[k] == Row(targets[k], amounts[k])
    {
      var t := targets[i];
      if t.price == 0.0 {
        return Failure(DivisionByZero);
      }
      var progress := Min(amounts[i] / t.price, 1.0);
      result := result + [Allocation(t.id, t.name, t.price, t.weight,
                                     RoundHundredths(amounts[i]), RoundTenths(progress * 100.0), 0)];
      i := i + 1;
    }
    return Success(result);
  }

  /** `for t, pct in zip(result, display_percents): t["display_weight_pct"] = pct`. */
  method AttachPercentages(rows: seq<Allocation>, pcts: seq<int>) returns (result: seq<Allocation>)
    requires |pcts| == |rows|
    ensures |result| == |rows|
    ensures forall k :: 0 <= k < |rows| ==> result[k] == rows[k].(displayWeightPct := pcts[k])
  {
    result := rows;
    var i := 0;
    while i < |result|
      invariant 0 <= i <= |result| == |rows|
      invariant forall k :: 0 <= k < i ==> result[k] == rows[k].(displayWeightPct := pcts[k])
      invariant forall k :: i <= k < |result| ==> result[k] == rows[k]
    {
      result := result[i := result[i].(displayWeightPct := pcts[i])];
      i := i + 1;
    }
  }

  // ---------------------------------------------------------------------
  // What allocate_funds promises

  /** A negative weight anywhere makes `allocate_funds` raise, naming the
      first target that has one. */
  lemma AllocateRejectsNegative(totalSaved: real, targets: seq<Target>, k: nat)
    requires k < |targets| && targets[k].weight < 0.0
    requires forall i :: 0 <= i < k ==> targets[i].weight >= 0.0
    ensures Allocate(totalSaved, targets) == Failure(NegativeWeight(targets[k].name))
  {
  }

  /** Without negative weights, `allocate_funds` fails exactly when some price is 0. */
  lemma AllocateRejectsZeroPrice(totalSaved: real, targets: seq<Target>)
    requires NonNegative(Weights(targets))
    ensures Allocate(totalSaved, targets).Failure? <==> HasZeroPrice(targets)
    ensures HasZeroPrice(targets) ==> Allocate(totalSaved, targets) == Failure(DivisionByZero)
  {
  }

  /** A row reports the target it was built from. */
  predicate SameTarget(row: Allocation, t: Target)
  {
    row.id == t.id && row.name == t.name && row.price == t.price && row.weight == t.weight
  }

  /** `sort(key=weight, reverse=True)` is a stable sort: the rows are
      rearranged so that weights descend, and rows of equal weight keep their
      relative order. */
  lemma SortByWeightIsStable(rows: seq<Allocation>)
    ensures var sorted := SortByWeight(rows);
      (forall a, b :: 0 <= a < b < |sorted| ==> sorted[a].weight >= sorted[b].weight) &&
      exists order :: IsStableDescOrder(RowWeights(rows), order) &&
        forall k :: 0 <= k < |sorted| ==> sorted[k] == rows[order[k]]
  {
    var order := StableOrderDesc(RowWeights(rows));
    var sorted := SortByWeight(rows);
    forall a, b | 0 <= a < b < |sorted| ensures sorted[a].weight >= sorted[b].weight {
      assert Precedes(RowWeights(rows), order[a], order[b]);
    }
  }

  /** The rows are the targets, each once, unchanged in id, name, price and
      weight, listed by weight from highest to lowest; targets of equal
      weight keep their input order. */
  lemma AllocateOrder(totalSaved: real, targets: seq<Target>)
    requires Allocate(totalSaved, targets).Success?
    ensures var rows := Allocate(totalSaved, targets).value;
      |rows| == |targets| &&
      (forall a, b :: 0 <= a < b < |rows| ==> rows[a].weight >= rows[b].weight) &&
      exists order :: IsStableDescOrder(Weights(targets), order) &&
        forall k :: 0 <= k < |rows| ==> SameTarget(rows[k], targets[order[k]])
  {
    var unsorted := Unsorted(totalSaved, targets);
    assert Allocate(totalSaved, targets).value == SortByWeight(unsorted);
    UnsortedReportsTargets(totalSaved, targets);
    SortedReportsTargets(unsorted, targets);
  }

  /** Sorting rows that report the targets one by one yields the targets in
      stable descending weight order. */
  lemma SortedReportsTargets(rows: seq<Allocation>, targets: seq<Target>)
    requires |rows| == |targets| && RowWeights(rows) == Weights(targets)
    requires forall i :: 0 <= i < |targets| ==> SameTarget(rows[i], targets[i])
    ensures var sorted := SortByWeight(rows);
      (forall a, b :: 0 <= a < b < |sorted| ==> sorted[a].weight >= sorted[b].weight) &&
      exists order :: IsStableDescOrder(Weights(targets), order) &&
        forall k :: 0 <= k < |sorted| ==> SameTarget(sorted[k], targets[order[k]])
  {
    SortByWeightIsStable(rows);
    var order := StableOrderDesc(Weights(targets));
    var sorted := SortByWeight(rows);
    assert forall k :: 0 <= k < |sorted| ==> sorted[k] == rows[order[k]];
  }

  lemma UnsortedReportsTargets(totalSaved: real, targets: seq<Target>)
    requires !HasZeroPrice(targets)
    ensures RowWeights(Unsorted(totalSaved, targets)) == Weights(targets)
    ensures forall i :: 0 <= i < |targets| ==> SameTarget(Unsorted(totalSaved, targets)[i], targets[i])
  {
  }

  /** Facts about one row: with a positive price and an amount between 0 and
      the price, the shown amount is within half a cent of it and the
      progress lies in [0, 100]; a full target shows 100, an empty one 0. */
  lemma RowBounds(t: Target, amount: real)
    requires t.price > 0.0 && 0.0 <= amount <= t.price
    ensures 0.0 <= Row(t, amount).amount && amount - 0.005 <= Row(t, amount).amount <= amount + 0.005
    ensures 0.0 <= Row(t, amount).progress <= 100.0
    ensures amount == t.price ==> Row(t, amount).progress == 100.0
    ensures amount == 0.0 ==> Row(t, amount).amount == 0.0 && Row(t, amount).progress == 0.0
  {
    RoundHalfEvenMonotone(0.0, amount * 100.0);
    RoundHalfEvenOfInt(0);
    var fraction := Min(amount / t.price, 1.0);
    FractionBounds(amount, t.price);
    RoundTenthsWithin(fraction * 100.0, 0, 100);
    RoundHalfEvenOfInt(1000);
  }

  lemma FractionBounds(a: real, p: real)
    requires p > 0.0 && 0.0 <= a <= p
    ensures 0.0 <= a / p <= 1.0
    ensures a == p ==> a / p == 1.0
    ensures a == 0.0 ==> a / p == 0.0
  {
    assert a / p <= p / p;
  }

  /** Saving more never shows a smaller amount for any target: the rows come
      in the same order whatever the total, and each row's amount grows with
      it. */
  lemma AllocateMonotone(less: real, more: real, targets: seq<Target>, k: nat)
    requires Allocate(less, targets).Success? && NonNegative(Prices(targets))
    requires less <= more && k < |targets|
    ensures Allocate(more, targets).Success?
    ensures var low := Allocate(less, targets).value; var high := Allocate(more, targets).value;
      |low| == |high| == |targets| && low[k].id == high[k].id && low[k].amount <= high[k].amount
  {
    var order := StableOrderDesc(Weights(targets));
    var i := order[k];
    var low := Unsorted(less, targets);
    var high := Unsorted(more, targets);
    UnsortedReportsTargets(less, targets);
    UnsortedReportsTargets(more, targets);
    assert Allocate(less, targets).value[k] == low[i];
    assert Allocate(more, targets).value[k] == high[i];
    WaterfallMonotone(Prices(targets), Weights(targets), less, more, i);
    RoundHundredthsMonotone(Waterfall(Prices(targets), Weights(targets), less).alloc[i],
                            Waterfall(Prices(targets), Weights(targets), more).alloc[i]);
  }

  /** With non-negative prices, every row's amount lies between 0 and half a
      cent above its price, its progress in [0, 100]; a target of weight 0 is
      given nothing, shows no progress and a 0% weight. */
  lemma AllocateRowBounds(totalSaved: real, targets: seq<Target>)
    requires Allocate(totalSaved, targets).Success?
    requires NonNegative(Prices(targets))
    ensures var rows := Allocate(totalSaved, targets).value;
      forall k :: 0 <= k < |rows| ==>
        0.0 <= rows[k].amount <= rows[k].price + 0.005 &&
        0.0 <= rows[k].progress <= 100.0 &&
        (rows[k].weight == 0.0 ==>
           rows[k].amount == 0.0 && rows[k].progress == 0.0 && rows[k].displayWeightPct == 0)
  {
    var unsorted := Unsorted(totalSaved, targets);
    assert RowWeights(unsorted) == Weights(targets);
    var order := StableOrderDesc(Weights(targets));
    var rows := Allocate(totalSaved, targets).value;
    var alloc := Waterfall(Prices(targets), Weights(targets), totalSaved).alloc;
    WaterfallWithinPrice(Prices(targets), Weights(targets), totalSaved);
    forall k | 0 <= k < |rows|
      ensures 0.0 <= rows[k].amount <= rows[k].price + 0.005
      ensures 0.0 <= rows[k].progress <= 100.0
      ensures rows[k].weight == 0.0 ==>
        rows[k].amount == 0.0 && rows[k].progress == 0.0 && rows[k].displayWeightPct == 0
    {
      var i := order[k];
      assert rows[k] == unsorted[i];
      RowBounds(targets[i], alloc[i]);
      if targets[i].weight == 0.0 {
        WaterfallZeroWeight(Prices(targets), Weights(targets), totalSaved, i);
        DisplayPercentagesZeroWeight(Weights(targets), i);
      }
    }
  }

  // ---------------------------------------------------------------------
  // Worked examples

  /** Of two targets, the heavier (or, on equal weights, the first) comes first. */
  lemma OrderOfTwo(w: seq<real>)
    requires |w| == 2 && w[0] >= w[1]
    ensures StableOrderDesc(w) == [0, 1]
  {
    var order := StableOrderDesc(w);
    assert 0 in order && 1 in order;
    assert Precedes(w, order[0], order[1]);
  }

  /** Weights that are already whole percentages of their total are shown as they are. */
  lemma DisplayOfTwo(w: seq<real>, total: real, p0: int, p1: int)
    requires |w| == 2 && w[0] >= 0.0 && w[1] >= 0.0 && total == w[0] + w[1] && total > 0.0
    requires w[0] / total * 100.0 == p0 as real && w[1] / total * 100.0 == p1 as real
    ensures DisplayPercentages(w) == [p0, p1]
  {
    SumOfTwo(w);
    var shares := Shares(w, total);
    assert shares[0] == p0 as real && shares[1] == p1 as real;
    SharesOfTotal(w);
    SharesNonNegative(w, total);
    WholeShareKept(shares, 0);
    WholeShareKept(shares, 1);
    PairOf(DisplayPercentages(w), p0, p1);
  }

  lemma SumOfTwo(w: seq<real>)
    requires |w| == 2
    ensures Sum(w) == w[0] + w[1]
  {
    assert w[..1][..0] == [];
    assert Sum(w[..1]) == w[0];
  }

  lemma PairOf(d: seq<int>, p0: int, p1: int)
    requires |d| == 2 && d[0] == p0 && d[1] == p1
    ensures d == [p0, p1]
  {
  }

  /** Whole amounts are shown unchanged by both roundings. */
  lemma RoundedWhole(x: int)
    ensures RoundHundredths(x as real) == x as real && RoundTenths(x as real) == x as real
  {
    RoundHalfEvenOfInt(x * 100);
    RoundHalfEvenOfInt(x * 10);
  }

  /** With two targets, the rows are built from the two allocations and the
      two display percentages, in input order. */
  lemma UnsortedOfTwo(totalSaved: real, targets: seq<Target>, a0: real, a1: real, p0: int, p1: int)
    requires |targets| == 2 && !HasZeroPrice(targets)
    requires Waterfall(Prices(targets), Weights(targets), totalSaved).alloc == [a0, a1]
    requires DisplayPercentages(Weights(targets)) == [p0, p1]
    ensures Unsorted(totalSaved, targets)
            == [Row(targets[0], a0).(displayWeightPct := p0), Row(targets[1], a1).(displayWeightPct := p1)]
  {
  }

  /** A whole amount whose progress is a whole percentage is reported unrounded. */
  lemma WholeRow(t: Target, amount: int, progress: int)
    requires t.price > 0.0 && Min(amount as real / t.price, 1.0) * 100.0 == progress as real
    ensures Row(t, amount as real) == Allocation(t.id, t.name, t.price, t.weight, amount as real, progress as real, 0)
  {
    RoundedWhole(amount);
    RoundedWhole(progress);
  }

  /** Two rows already in weight order are left as they are. */
  lemma SortedTwo(rows: seq<Allocation>)
    requires |rows| == 2 && rows[0].weight >= rows[1].weight
    ensures SortByWeight(rows) == rows
  {
    OrderOfTwo(RowWeights(rows));
  }

  /** A(weight 70, price 100) and B(weight 30, price 50) with 120 saved get
      84 and 36: progress 84% and 72%, shown weights 70% and 30%. */
  lemma AllocateProportionalExample()
    ensures Allocate(120.0, [Target(1, "A", 100.0, 70.0), Target(2, "B", 50.0, 30.0)])
            == Success([Allocation(1, "A", 100.0, 70.0, 84.0, 84.0, 70),
                        Allocation(2, "B", 50.0, 30.0, 36.0, 72.0, 30)])
  {
    var a := Target(1, "A", 100.0, 70.0);
    var b := Target(2, "B", 50.0, 30.0);
    var targets := [a, b];
    assert FirstNegative(targets) == None;
    assert !HasZeroPrice(targets);
    assert Weights(targets) == [70.0, 30.0];
    assert Prices(targets) == [100.0, 50.0];
    ProportionalSplitExample();
    DisplayOfTwo([70.0, 30.0], 100.0, 70, 30);
    UnsortedOfTwo(120.0, targets, 84.0, 36.0, 70, 30);
    WholeRow(a, 84, 84);
    WholeRow(b, 36, 72);
    SortedTwo(Unsorted(120.0, targets));
  }

  /** A(weight 50, price 10) and B(weight 50, price 1000) with 100 saved: A is
      filled at 10 and B gets the other 90; the equal weights keep input order. */
  lemma AllocateOverflowExample()
    ensures Allocate(100.0, [Target(1, "A", 10.0, 50.0), Target(2, "B", 1000.0, 50.0)])
            == Success([Allocation(1, "A", 10.0, 50.0, 10.0, 100.0, 50),
                        Allocation(2, "B", 1000.0, 50.0, 90.0, 9.0, 50)])
  {
    var a := Target(1, "A", 10.0, 50.0);
    var b := Target(2, "B", 1000.0, 50.0);
    var targets := [a, b];
    assert FirstNegative(targets) == None;
    assert !HasZeroPrice(targets);
    assert Weights(targets) == [50.0, 50.0];
    assert Prices(targets) == [10.0, 1000.0];
    OverflowExample();
    DisplayOfTwo([50.0, 50.0], 100.0, 50, 50);
    UnsortedOfTwo(100.0, targets, 10.0, 90.0, 50, 50);
    WholeRow(a, 10, 100);
    WholeRow(b, 90, 9);
    SortedTwo(Unsorted(100.0, targets));
  }
}
