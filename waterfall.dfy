/** The redistribution loop of `allocate_funds`: savings are split among the
    active targets in proportion to their weights; a target whose share
    reaches its price is filled, leaves the active list, and what it could
    not absorb is split again among the rest in the next round. Targets are
    named by their position in the input list. */
module Distribution {
  import opened Numeric

  predicate Increasing(s: seq<nat>)
  {
    forall a, b :: 0 <= a < b < |s| ==> s[a] < s[b]
  }

  /** An active list: positions in input order, each with a positive weight. */
  predicate ActiveOk(weight: seq<real>, active: seq<nat>)
  {
    Increasing(active) &&
    forall k :: 0 <= k < |active| ==> active[k] < |weight| && weight[active[k]] > 0.0
  }

  /** `[t for t in working if t["weight"] > 0]`, as positions. */
  function PositiveIndices(weight: seq<real>): (active: seq<nat>)
    ensures ActiveOk(weight, active)
  {
    if |weight| == 0 then []
    else
      var n := |weight| - 1;
      var s := PositiveIndices(weight[..n]);
      if weight[n] > 0.0 then s + [n] else s
  }

  /** Every target with a positive weight starts out active. */
  lemma {:induction false} PositiveIndicesComplete(weight: seq<real>, i: nat)
    requires i < |weight| && weight[i] > 0.0
    ensures i in PositiveIndices(weight)
  {
    var n := |weight| - 1;
    if i < n {
      PositiveIndicesComplete(weight[..n], i);
    }
  }

  /** `sum(t["weight"] for t in active)`. */
  function WeightOf(weight: seq<real>, active: seq<nat>): (tw: real)
    requires forall k :: 0 <= k < |active| ==> active[k] < |weight|
    ensures (forall k :: 0 <= k < |active| ==> weight[active[k]] > 0.0) ==>
      tw >= 0.0 && (|active| > 0 ==> tw > 0.0)
  {
    if |active| == 0 then 0.0
    else WeightOf(weight, active[..|active| - 1]) + weight[active[|active| - 1]]
  }

  /** The state of one round after visiting a prefix of the active list. */
  datatype RoundState = RoundState(alloc: seq<real>, excess: real, next: seq<nat>)

  /** `share = remaining_money * (t["weight"] / total_weight)`. */
  function Portion(remaining: real, w: real, tw: real): real
    requires tw > 0.0
  {
    remaining * (w / tw)
  }

  /** The body of the inner loop for target `t` receiving `share`: fill it if
      the share covers what it still lacks, passing the surplus on as excess;
      otherwise add the share and keep it active. */
  function Visit(price: seq<real>, st: RoundState, t: nat, share: real): (st': RoundState)
    requires t < |price| == |st.alloc|
    ensures |st'.alloc| == |st.alloc|
  {
    var capacity := price[t] - st.alloc[t];
    if share >= capacity then
      RoundState(st.alloc[t := st.alloc[t] + capacity], st.excess + (share - capacity), st.next)
    else
      RoundState(st.alloc[t := st.alloc[t] + share], st.excess, st.next + [t])
  }

  /** One round of the loop body, over the first `j` active targets. */
  function RoundUpTo(price: seq<real>, weight: seq<real>, alloc: seq<real>,
                     remaining: real, tw: real, active: seq<nat>, j: nat): (st: RoundState)
    requires |price| == |weight| == |alloc|
    requires ActiveOk(weight, active) && j <= |active| && tw > 0.0
    ensures |st.alloc| == |alloc|
    ensures st.excess >= 0.0
    ensures |st.next| <= j && (|st.next| == j ==> st.excess == 0.0)
    ensures forall k :: 0 <= k < |st.next| ==> st.next[k] in active[..j]
    ensures ActiveOk(weight, st.next)
  {
    if j == 0 then RoundState(alloc, 0.0, [])
    else
      var st := RoundUpTo(price, weight, alloc, remaining, tw, active, j - 1);
      var t := active[j - 1];
      assert forall k :: 0 <= k < |st.next| ==> st.next[k] < t by {
        forall k | 0 <= k < |st.next| ensures st.next[k] < t {
          var m :| 0 <= m < j - 1 && active[m] == st.next[k];
        }
      }
      Visit(price, st, t, Portion(remaining, weight[t], tw))
  }

  datatype Outcome = Outcome(alloc: seq<real>, leftover: real, rounds: nat)

  /** `while remaining_money > 0 and active: ...`, from the given state. */
  function Distribute(price: seq<real>, weight: seq<real>, alloc: seq<real>,
                      remaining: real, active: seq<nat>): (o: Outcome)
    requires |price| == |weight| == |alloc|
    requires ActiveOk(weight, active)
    ensures |o.alloc| == |alloc|
    ensures o.rounds <= |active|
    ensures remaining >= 0.0 ==> o.leftover >= 0.0
    decreases |active|, if remaining > 0.0 then 1 else 0
  {
    if remaining > 0.0 && |active| > 0 then
      var tw := WeightOf(weight, active);
      var st := RoundUpTo(price, weight, alloc, remaining, tw, active, |active|);
      var o := Distribute(price, weight, st.alloc, st.excess, st.next);
      Outcome(o.alloc, o.leftover, o.rounds + 1)
    else
      Outcome(alloc, remaining, 0)
  }

  /** The allocation of `total_saved` over targets with the given prices and
      weights: every target starts at 0.0 and the positive-weight ones are active. */
  function Waterfall(price: seq<real>, weight: seq<real>, totalSaved: real): (o: Outcome)
    requires |price| == |weight|
    ensures |o.alloc| == |price|
  {
    Distribute(price, weight, Zeros(|price|), totalSaved, PositiveIndices(weight))
  }

  // ---------------------------------------------------------------------
  // Conservation: money is neither created nor lost

  lemma PortionAdds(remaining: real, a: real, w: real, sum: real, tw: real)
    requires tw > 0.0 && sum == a + w
    ensures Portion(remaining, a, tw) + Portion(remaining, w, tw) == Portion(remaining, sum, tw)
  {
  }

  lemma PortionOfTotal(remaining: real, tw: real)
    requires tw > 0.0
    ensures Portion(remaining, tw, tw) == remaining
  {
  }

  /** Visiting a target moves exactly its share into the allocations and the excess. */
  lemma VisitAdds(price: seq<real>, st: RoundState, t: nat, share: real)
    requires t < |price| == |st.alloc|
    ensures Sum(Visit(price, st, t, share).alloc) + Visit(price, st, t, share).excess
            == Sum(st.alloc) + st.excess + share
  {
    var capacity := price[t] - st.alloc[t];
    if share >= capacity {
      SumUpdate(st.alloc, t, st.alloc[t] + capacity);
    } else {
      SumUpdate(st.alloc, t, st.alloc[t] + share);
    }
  }

  lemma {:induction false} RoundConserves(price: seq<real>, weight: seq<real>, alloc: seq<real>,
                                          remaining: real, tw: real, active: seq<nat>, j: nat)
    requires |price| == |weight| == |alloc|
    requires ActiveOk(weight, active) && j <= |active| && tw > 0.0
    ensures var st := RoundUpTo(price, weight, alloc, remaining, tw, active, j);
      Sum(st.alloc) + st.excess == Sum(alloc) + Portion(remaining, WeightOf(weight, active[..j]), tw)
  {
    if j > 0 {
      RoundConserves(price, weight, alloc, remaining, tw, active, j - 1);
      RoundConservesStep(price, weight, alloc, remaining, tw, active, j);
    } else {
      PortionAdds(remaining, 0.0, 0.0, 0.0, tw);
    }
  }

  /** Visiting the j-th active target keeps the balance of the first j - 1. */
  lemma RoundConservesStep(price: seq<real>, weight: seq<real>, alloc: seq<real>,
                           remaining: real, tw: real, active: seq<nat>, j: nat)
    requires |price| == |weight| == |alloc|
    requires ActiveOk(weight, active) && 0 < j <= |active| && tw > 0.0
    requires var st := RoundUpTo(price, weight, alloc, remaining, tw, active, j - 1);
      Sum(st.alloc) + st.excess == Sum(alloc) + Portion(remaining, WeightOf(weight, active[..j - 1]), tw)
    ensures var st := RoundUpTo(price, weight, alloc, remaining, tw, active, j);
      Sum(st.alloc) + st.excess == Sum(alloc) + Portion(remaining, WeightOf(weight, active[..j]), tw)
  {
    var st := RoundUpTo(price, weight, alloc, remaining, tw, active, j - 1);
    var t := active[j - 1];
    var share := Portion(remaining, weight[t], tw);
    RoundUpToStep(price, weight, alloc, remaining, tw, active, j);
    VisitAdds(price, st, t, share);
    WeightOfPrefix(weight, active, j);
    var before := WeightOf(weight, active[..j - 1]);
    PortionAdds(remaining, before, weight[t], WeightOf(weight, active[..j]), tw);
    var after := RoundUpTo(price, weight, alloc, remaining, tw, active, j);
    Chain(Sum(after.alloc) + after.excess, Sum(st.alloc) + st.excess, Sum(alloc),
          Portion(remaining, before, tw), share, Portion(remaining, WeightOf(weight, active[..j]), tw));
  }

  lemma Chain(total: real, previous: real, start: real, before: real, share: real, after: real)
    requires previous == start + before && total == previous + share && before + share == after
    ensures total == start + after
  {
  }

  lemma RoundUpToStep(price: seq<real>, weight: seq<real>, alloc: seq<real>,
                      remaining: real, tw: real, active: seq<nat>, j: nat)
    requires |price| == |weight| == |alloc|
    requires ActiveOk(weight, active) && 0 < j <= |active| && tw > 0.0
    ensures var st := RoundUpTo(price, weight, alloc, remaining, tw, active, j - 1);
      RoundUpTo(price, weight, alloc, remaining, tw, active, j)
      == Visit(price, st, active[j - 1], Portion(remaining, weight[active[j - 1]], tw))
  {
  }

  lemma WeightOfPrefix(weight: seq<real>, active: seq<nat>, j: nat)
    requires 0 < j <= |active|
    requires forall k :: 0 <= k < |active| ==> active[k] < |weight|
    ensures WeightOf(weight, active[..j]) == WeightOf(weight, active[..j - 1]) + weight[active[j - 1]]
  {
    assert active[..j][..j - 1] == active[..j - 1];
  }

  /** Each call of the loop keeps the allocated total plus the money still to
      distribute equal to what it started with. */
  lemma {:induction false} DistributeConserves(price: seq<real>, weight: seq<real>, alloc: seq<real>,
                                               remaining: real, active: seq<nat>)
    requires |price| == |weight| == |alloc|
    requires ActiveOk(weight, active)
    ensures var o := Distribute(price, weight, alloc, remaining, active);
      Sum(o.alloc) + o.leftover == Sum(alloc) + remaining
    decreases |active|, if remaining > 0.0 then 1 else 0
  {
    if remaining > 0.0 && |active| > 0 {
      var tw := WeightOf(weight, active);
      var st := RoundUpTo(price, weight, alloc, remaining, tw, active, |active|);
      RoundConserves(price, weight, alloc, remaining, tw, active, |active|);
      assert active[..|active|] == active;
      PortionOfTotal(remaining, tw);
      DistributeConserves(price, weight, st.alloc, st.excess, st.next);
    }
  }

  /** Whatever is allocated plus what is left over is exactly the amount saved. */
  lemma WaterfallConserves(price: seq<real>, weight: seq<real>, totalSaved: real)
    requires |price| == |weight|
    ensures Sum(Waterfall(price, weight, totalSaved).alloc) + Waterfall(price, weight, totalSaved).leftover
            == totalSaved
  {
    SumZeros(|price|);
    DistributeConserves(price, weight, Zeros(|price|), totalSaved, PositiveIndices(weight));
  }

  // ---------------------------------------------------------------------
  // Only active targets receive money

  lemma {:induction false} RoundFrame(price: seq<real>, weight: seq<real>, alloc: seq<real>,
                                      remaining: real, tw: real, active: seq<nat>, j: nat, i: nat)
    requires |price| == |weight| == |alloc|
    requires ActiveOk(weight, active) && j <= |active| && tw > 0.0
    requires i < |alloc| && i !in active[..j]
    ensures RoundUpTo(price, weight, alloc, remaining, tw, active, j).alloc[i] == alloc[i]
  {
    if j > 0 {
      assert active[..j] == active[..j - 1] + [active[j - 1]];
      RoundFrame(price, weight, alloc, remaining, tw, active, j - 1, i);
    }
  }

  lemma {:induction false} DistributeFrame(price: seq<real>, weight: seq<real>, alloc: seq<real>,
                                           remaining: real, active: seq<nat>, i: nat)
    requires |price| == |weight| == |alloc|
    requires ActiveOk(weight, active)
    requires i < |alloc| && i !in active
    ensures Distribute(price, weight, alloc, remaining, active).alloc[i] == alloc[i]
    decreases |active|, if remaining > 0.0 then 1 else 0
  {
    if remaining > 0.0 && |active| > 0 {
      var tw := WeightOf(weight, active);
      var st := RoundUpTo(price, weight, alloc, remaining, tw, active, |active|);
      assert active[..|active|] == active;
      RoundFrame(price, weight, alloc, remaining, tw, active, |active|, i);
      assert i !in st.next;
      DistributeFrame(price, weight, st.alloc, st.excess, st.next, i);
    }
  }

  /** A target whose weight is zero (or below) is allocated nothing. */
  lemma WaterfallZeroWeight(price: seq<real>, weight: seq<real>, totalSaved: real, i: nat)
    requires |price| == |weight| && i < |weight| && weight[i] <= 0.0
    ensures Waterfall(price, weight, totalSaved).alloc[i] == 0.0
  {
    DistributeFrame(price, weight, Zeros(|price|), totalSaved, PositiveIndices(weight), i);
  }

  // ---------------------------------------------------------------------
  // Bounds: no target is given more than its price

  predicate WithinPrice(price: seq<real>, alloc: seq<real>)
    requires |price| == |alloc|
  {
    forall i :: 0 <= i < |alloc| ==> 0.0 <= alloc[i] <= price[i]
  }

  lemma PortionNonNegative(remaining: real, w: real, tw: real)
    requires remaining >= 0.0 && w > 0.0 && tw > 0.0
    ensures Portion(remaining, w, tw) >= 0.0
  {
  }

  lemma {:induction false} RoundWithinPrice(price: seq<real>, weight: seq<real>, alloc: seq<real>,
                                            remaining: real, tw: real, active: seq<nat>, j: nat)
    requires |price| == |weight| == |alloc|
    requires ActiveOk(weight, active) && j <= |active| && tw > 0.0
    requires remaining >= 0.0 && WithinPrice(price, alloc)
    ensures WithinPrice(price, RoundUpTo(price, weight, alloc, remaining, tw, active, j).alloc)
  {
    if j > 0 {
      RoundWithinPrice(price, weight, alloc, remaining, tw, active, j - 1);
      PortionNonNegative(remaining, weight[active[j - 1]], tw);
    }
  }

  lemma {:induction false} DistributeWithinPrice(price: seq<real>, weight: seq<real>, alloc: seq<real>,
                                                 remaining: real, active: seq<nat>)
    requires |price| == |weight| == |alloc|
    requires ActiveOk(weight, active)
    requires WithinPrice(price, alloc)
    ensures WithinPrice(price, Distribute(price, weight, alloc, remaining, active).alloc)
    decreases |active|, if remaining > 0.0 then 1 else 0
  {
    if remaining > 0.0 && |active| > 0 {
      var tw := WeightOf(weight, active);
      var st := RoundUpTo(price, weight, alloc, remaining, tw, active, |active|);
      RoundWithinPrice(price, weight, alloc, remaining, tw, active, |active|);
      DistributeWithinPrice(price, weight, st.alloc, st.excess, st.next);
    }
  }

  /** With non-negative prices, every target gets between 0 and its price. */
  lemma WaterfallWithinPrice(price: seq<real>, weight: seq<real>, totalSaved: real)
    requires |price| == |weight| && NonNegative(price)
    ensures WithinPrice(price, Waterfall(price, weight, totalSaved).alloc)
  {
    DistributeWithinPrice(price, weight, Zeros(|price|), totalSaved, PositiveIndices(weight));
  }

  // ---------------------------------------------------------------------
  // The loop stops only when the money or the unfilled targets run out

  lemma {:induction false} RoundFills(price: seq<real>, weight: seq<real>, alloc: seq<real>,
                                      remaining: real, tw: real, active: seq<nat>, j: nat, k: nat)
    requires |price| == |weight| == |alloc|
    requires ActiveOk(weight, active) && j <= |active| && tw > 0.0
    requires k < j && active[k] !in RoundUpTo(price, weight, alloc, remaining, tw, active, j).next
    ensures RoundUpTo(price, weight, alloc, remaining, tw, active, j).alloc[active[k]] == price[active[k]]
  {
    if k < j - 1 {
      RoundFills(price, weight, alloc, remaining, tw, active, j - 1, k);
    }
  }

  /** Every positive-weight target that is no longer active is full. */
  predicate FilledOutside(price: seq<real>, weight: seq<real>, alloc: seq<real>, active: seq<nat>)
    requires |price| == |weight| == |alloc|
  {
    forall i :: 0 <= i < |alloc| && weight[i] > 0.0 && i !in active ==> alloc[i] == price[i]
  }

  lemma {:induction false} DistributeExhausts(price: seq<real>, weight: seq<real>, alloc: seq<real>,
                                              remaining: real, active: seq<nat>)
    requires |price| == |weight| == |alloc|
    requires ActiveOk(weight, active)
    requires FilledOutside(price, weight, alloc, active)
    ensures var o := Distribute(price, weight, alloc, remaining, active);
      o.leftover <= 0.0 || forall i :: 0 <= i < |price| && weight[i] > 0.0 ==> o.alloc[i] == price[i]
    decreases |active|, if remaining > 0.0 then 1 else 0
  {
    if remaining > 0.0 && |active| > 0 {
      var tw := WeightOf(weight, active);
      var st := RoundUpTo(price, weight, alloc, remaining, tw, active, |active|);
      assert active[..|active|] == active;
      forall i | 0 <= i < |alloc| && weight[i] > 0.0 && i !in st.next
        ensures st.alloc[i] == price[i]
      {
        if i in active {
          var k :| 0 <= k < |active| && active[k] == i;
          RoundFills(price, weight, alloc, remaining, tw, active, |active|, k);
        } else {
          RoundFrame(price, weight, alloc, remaining, tw, active, |active|, i);
        }
      }
      DistributeExhausts(price, weight, st.alloc, st.excess, st.next);
    }
  }

  /** With a non-negative amount saved, nothing is overdrawn, and money is
      left over only once every positive-weight target is full. */
  lemma WaterfallExhausts(price: seq<real>, weight: seq<real>, totalSaved: real)
    requires |price| == |weight| && totalSaved >= 0.0
    ensures var o := Waterfall(price, weight, totalSaved);
      o.leftover >= 0.0 &&
      (o.leftover == 0.0 || forall i :: 0 <= i < |price| && weight[i] > 0.0 ==> o.alloc[i] == price[i])
  {
    forall i | 0 <= i < |price| && weight[i] > 0.0 ensures i in PositiveIndices(weight) {
      PositiveIndicesComplete(weight, i);
    }
    DistributeExhausts(price, weight, Zeros(|price|), totalSaved, PositiveIndices(weight));
  }

  /** Savings above the sum of all prices fill every positive-weight target. */
  lemma WaterfallFillsAll(price: seq<real>, weight: seq<real>, totalSaved: real)
    requires |price| == |weight|
    requires NonNegative(price) && totalSaved > Sum(price)
    ensures var o := Waterfall(price, weight, totalSaved);
      o.leftover > 0.0 && forall i :: 0 <= i < |price| && weight[i] > 0.0 ==> o.alloc[i] == price[i]
  {
    var o := Waterfall(price, weight, totalSaved);
    WaterfallConserves(price, weight, totalSaved);
    WaterfallWithinPrice(price, weight, totalSaved);
    SumAtLeast(price, o.alloc);
    SumNonNegative(price);
    WaterfallExhausts(price, weight, totalSaved);
  }

  /** The loop runs at most once per positive-weight target. */
  lemma WaterfallRounds(price: seq<real>, weight: seq<real>, totalSaved: real)
    requires |price| == |weight|
    ensures Waterfall(price, weight, totalSaved).rounds <= |PositiveIndices(weight)| <= |weight|
  {
    var p := PositiveIndices(weight);
    var s := set k | 0 <= k < |p| :: p[k];
    assert |p| <= |weight| by {
      PositionsFit(p, |weight|);
    }
  }

  lemma {:induction false} PositionsFit(p: seq<nat>, n: nat)
    requires Increasing(p) && forall k :: 0 <= k < |p| ==> p[k] < n
    ensures |p| <= n
  {
    if |p| > 0 {
      var m := |p| - 1;
      assert forall k :: 0 <= k < m ==> p[..m][k] < p[m];
      PositionsFit(p[..m], p[m]);
    }
  }

  /** Nothing is allocated when nothing is saved. */
  lemma WaterfallNothingSaved(price: seq<real>, weight: seq<real>, totalSaved: real)
    requires |price| == |weight| && totalSaved <= 0.0
    ensures Waterfall(price, weight, totalSaved).alloc == Zeros(|price|)
    ensures Waterfall(price, weight, totalSaved).rounds == 0
  {
  }

  // ---------------------------------------------------------------------
  // The water level: every round raises one common level, and each target
  // holds its weight times the level, capped at its price

  /** The allocation at level `lambda`: `min(price, lambda * weight)` for a
      target of positive weight, 0 for the others. */
  function Level(price: seq<real>, weight: seq<real>, lambda: real): (alloc: seq<real>)
    requires |price| == |weight|
    ensures |alloc| == |price|
  {
    seq(|price|, i requires 0 <= i < |price| =>
      if weight[i] > 0.0 then Min(price[i], Height(lambda, weight[i])) else 0.0)
  }

  /** Target t stands at `height`: while active it holds exactly that much,
      within its price; once it has left the active list it holds its price,
      which `height` reaches. */
  predicate StandsAt(price: seq<real>, alloc: seq<real>, active: seq<nat>, t: nat, height: real)
    requires t < |alloc| == |price|
  {
    (t in active ==> alloc[t] == height <= price[t]) &&
    (t !in active ==> alloc[t] == price[t] <= height)
  }

  /** The loop's state is at level `lambda`: every positive-weight target
      stands at `lambda` times its weight, and every other target holds 0. */
  predicate AtLevel(price: seq<real>, weight: seq<real>, alloc: seq<real>, active: seq<nat>, lambda: real)
    requires |price| == |weight| == |alloc|
  {
    forall i :: 0 <= i < |alloc| ==>
      (weight[i] <= 0.0 ==> alloc[i] == 0.0) &&
      (weight[i] > 0.0 ==> StandsAt(price, alloc, active, i, Height(lambda, weight[i])))
  }

  /** What a target of weight w holds at level `lambda` below its price. */
  function Height(lambda: real, w: real): real
  {
    lambda * w
  }

  lemma LevelStep(lambda: real, remaining: real, w: real, tw: real)
    requires tw > 0.0
    ensures Height(lambda, w) + Portion(remaining, w, tw) == Height(lambda + remaining / tw, w)
  {
  }

  lemma LevelRises(lambda: real, up: real, w: real)
    requires lambda <= up && w > 0.0
    ensures Height(lambda, w) <= Height(up, w)
  {
  }

  /** Visiting a target whose holding plus its share comes to `height`
      leaves it standing at `height`. */
  lemma VisitStands(price: seq<real>, st: RoundState, t: nat, share: real, height: real)
    requires t < |price| == |st.alloc| && t !in st.next
    requires st.alloc[t] + share == height
    ensures var st' := Visit(price, st, t, share); StandsAt(price, st'.alloc, st'.next, t, height)
  {
  }

  /** Visiting one target leaves every other target's holding and
      membership of the next active list as they were. */
  lemma VisitOthers(price: seq<real>, st: RoundState, t: nat, share: real, u: nat)
    requires t < |price| == |st.alloc| && u < |price| && u != t
    ensures var st' := Visit(price, st, t, share);
      st'.alloc[u] == st.alloc[u] && (u in st'.next <==> u in st.next)
  {
  }

  /** After visiting the first j active targets, each of them stands at the
      raised level times its weight. */
  lemma {:induction false} RoundLevelAt(price: seq<real>, weight: seq<real>, alloc: seq<real>,
                                        remaining: real, tw: real, active: seq<nat>, j: nat, k: nat, lambda: real)
    requires |price| == |weight| == |alloc|
    requires ActiveOk(weight, active) && k < j <= |active| && tw > 0.0
    requires alloc[active[k]] == Height(lambda, weight[active[k]])
    ensures var st := RoundUpTo(price, weight, alloc, remaining, tw, active, j);
      StandsAt(price, st.alloc, st.next, active[k], Height(lambda + remaining / tw, weight[active[k]]))
  {
    if k == j - 1 {
      RoundLevelLast(price, weight, alloc, remaining, tw, active, j, lambda);
    } else {
      var st := RoundUpTo(price, weight, alloc, remaining, tw, active, j - 1);
      var last := active[j - 1];
      RoundLevelAt(price, weight, alloc, remaining, tw, active, j - 1, k, lambda);
      RoundUpToStep(price, weight, alloc, remaining, tw, active, j);
      assert active[k] < last;
      VisitKeepsStanding(price, st, last, Portion(remaining, weight[last], tw), active[k],
                         Height(lambda + remaining / tw, weight[active[k]]));
    }
  }

  /** The target visited j-th ends the visit standing at the raised level. */
  lemma RoundLevelLast(price: seq<real>, weight: seq<real>, alloc: seq<real>,
                       remaining: real, tw: real, active: seq<nat>, j: nat, lambda: real)
    requires |price| == |weight| == |alloc|
    requires ActiveOk(weight, active) && 0 < j <= |active| && tw > 0.0
    requires alloc[active[j - 1]] == Height(lambda, weight[active[j - 1]])
    ensures var st := RoundUpTo(price, weight, alloc, remaining, tw, active, j);
      StandsAt(price, st.alloc, st.next, active[j - 1], Height(lambda + remaining / tw, weight[active[j - 1]]))
  {
    var t := active[j - 1];
    var st := RoundUpTo(price, weight, alloc, remaining, tw, active, j - 1);
    RoundUpToStep(price, weight, alloc, remaining, tw, active, j);
    assert t !in active[..j - 1];
    RoundFrame(price, weight, alloc, remaining, tw, active, j - 1, t);
    assert t !in st.next;
    LevelStep(lambda, remaining, weight[t], tw);
    VisitStands(price, st, t, Portion(remaining, weight[t], tw), Height(lambda + remaining / tw, weight[t]));
  }

  /** Visiting one target leaves any other standing where it was. */
  lemma VisitKeepsStanding(price: seq<real>, st: RoundState, t: nat, share: real, u: nat, height: real)
    requires t < |price| == |st.alloc| && u < |price| && u != t
    requires StandsAt(price, st.alloc, st.next, u, height)
    ensures var st' := Visit(price, st, t, share); StandsAt(price, st'.alloc, st'.next, u, height)
  {
    VisitOthers(price, st, t, share, u);
  }

  /** A full round at level `lambda` leaves the state at level
      `lambda + remaining / tw`. */
  lemma RoundKeepsLevel(price: seq<real>, weight: seq<real>, alloc: seq<real>,
                        remaining: real, tw: real, active: seq<nat>, lambda: real)
    requires |price| == |weight| == |alloc|
    requires ActiveOk(weight, active) && tw > 0.0 && remaining > 0.0
    requires AtLevel(price, weight, alloc, active, lambda)
    ensures var st := RoundUpTo(price, weight, alloc, remaining, tw, active, |active|);
      AtLevel(price, weight, st.alloc, st.next, lambda + remaining / tw)
  {
    var st := RoundUpTo(price, weight, alloc, remaining, tw, active, |active|);
    var up := lambda + remaining / tw;
    assert active[..|active|] == active;
    forall i | 0 <= i < |alloc|
      ensures (weight[i] <= 0.0 ==> st.alloc[i] == 0.0) &&
        (weight[i] > 0.0 ==> StandsAt(price, st.alloc, st.next, i, Height(up, weight[i])))
    {
      if i in active {
        var k :| 0 <= k < |active| && active[k] == i;
        RoundLevelAt(price, weight, alloc, remaining, tw, active, |active|, k, lambda);
      } else {
        KeepsLevelOutside(price, weight, alloc, remaining, tw, active, lambda, i);
      }
    }
  }

  /** A target outside the active list keeps its holding through a round,
      and a filled one still stands at the raised level. */
  lemma KeepsLevelOutside(price: seq<real>, weight: seq<real>, alloc: seq<real>,
                          remaining: real, tw: real, active: seq<nat>, lambda: real, i: nat)
    requires |price| == |weight| == |alloc|
    requires ActiveOk(weight, active) && tw > 0.0 && remaining > 0.0
    requires AtLevel(price, weight, alloc, active, lambda)
    requires i < |alloc| && i !in active
    ensures var st := RoundUpTo(price, weight, alloc, remaining, tw, active, |active|);
      (weight[i] <= 0.0 ==> st.alloc[i] == 0.0) &&
      (weight[i] > 0.0 ==> StandsAt(price, st.alloc, st.next, i, Height(lambda + remaining / tw, weight[i])))
  {
    var st := RoundUpTo(price, weight, alloc, remaining, tw, active, |active|);
    assert active[..|active|] == active;
    RoundFrame(price, weight, alloc, remaining, tw, active, |active|, i);
    assert i !in st.next;
    if weight[i] > 0.0 {
      LevelRises(lambda, lambda + remaining / tw, weight[i]);
    }
  }

  /** A state at level `lambda` is the capped allocation at that level. */
  lemma AtLevelIsLevel(price: seq<real>, weight: seq<real>, alloc: seq<real>, active: seq<nat>, lambda: real)
    requires |price| == |weight| == |alloc|
    requires AtLevel(price, weight, alloc, active, lambda)
    ensures alloc == Level(price, weight, lambda)
  {
    var level := Level(price, weight, lambda);
    forall i | 0 <= i < |alloc| ensures alloc[i] == level[i] {
      if weight[i] > 0.0 {
        assert StandsAt(price, alloc, active, i, Height(lambda, weight[i]));
      }
    }
  }

  lemma {:induction false} DistributeLevel(price: seq<real>, weight: seq<real>, alloc: seq<real>,
                                           remaining: real, active: seq<nat>, lambda: real)
    requires |price| == |weight| == |alloc|
    requires ActiveOk(weight, active)
    requires AtLevel(price, weight, alloc, active, lambda)
    ensures exists level :: Distribute(price, weight, alloc, remaining, active).alloc == Level(price, weight, level)
    decreases |active|, if remaining > 0.0 then 1 else 0
  {
    if remaining > 0.0 && |active| > 0 {
      var tw := WeightOf(weight, active);
      var st := RoundUpTo(price, weight, alloc, remaining, tw, active, |active|);
      RoundKeepsLevel(price, weight, alloc, remaining, tw, active, lambda);
      DistributeLevel(price, weight, st.alloc, st.excess, st.next, lambda + remaining / tw);
    } else {
      AtLevelIsLevel(price, weight, alloc, active, lambda);
    }
  }

  /** With non-negative prices, the loop's result is the capped allocation
      at one common level: `min(price, level * weight)` for every target of
      positive weight. */
  lemma WaterfallLevel(price: seq<real>, weight: seq<real>, totalSaved: real)
    requires |price| == |weight| && NonNegative(price)
    ensures exists level :: Waterfall(price, weight, totalSaved).alloc == Level(price, weight, level)
  {
    var active := PositiveIndices(weight);
    forall i | 0 <= i < |price| && weight[i] > 0.0 ensures i in active {
      PositiveIndicesComplete(weight, i);
    }
    assert AtLevel(price, weight, Zeros(|price|), active, 0.0);
    DistributeLevel(price, weight, Zeros(|price|), totalSaved, active, 0.0);
  }

  /** A higher level never gives a target less. */
  lemma LevelMonotone(price: seq<real>, weight: seq<real>, low: real, high: real, i: nat)
    requires |price| == |weight| && i < |price| && low <= high
    ensures Level(price, weight, low)[i] <= Level(price, weight, high)[i]
  {
    if weight[i] > 0.0 {
      LevelRises(low, high, weight[i]);
      assert Level(price, weight, low)[i] == Min(price[i], Height(low, weight[i]));
      assert Level(price, weight, high)[i] == Min(price[i], Height(high, weight[i]));
    }
  }

  /** Saving more never gives any target less. */
  lemma WaterfallMonotone(price: seq<real>, weight: seq<real>, less: real, more: real, i: nat)
    requires |price| == |weight| && NonNegative(price)
    requires less <= more && i < |price|
    ensures Waterfall(price, weight, less).alloc[i] <= Waterfall(price, weight, more).alloc[i]
  {
    var low := Waterfall(price, weight, less);
    var high := Waterfall(price, weight, more);
    WaterfallWithinPrice(price, weight, less);
    WaterfallWithinPrice(price, weight, more);
    if less <= 0.0 {
      WaterfallNothingSaved(price, weight, less);
    } else {
      WaterfallExhausts(price, weight, less);
      WaterfallExhausts(price, weight, more);
      if high.leftover != 0.0 {
        if weight[i] <= 0.0 {
          WaterfallZeroWeight(price, weight, less, i);
        }
      } else {
        WaterfallConserves(price, weight, less);
        WaterfallConserves(price, weight, more);
        WaterfallLevel(price, weight, less);
        WaterfallLevel(price, weight, more);
        var l1 :| low.alloc == Level(price, weight, l1);
        var l2 :| high.alloc == Level(price, weight, l2);
        if l1 <= l2 {
          LevelMonotone(price, weight, l1, l2, i);
        } else {
          forall k | 0 <= k < |price| ensures low.alloc[k] >= high.alloc[k] {
            LevelMonotone(price, weight, l2, l1, k);
          }
          SumGap(low.alloc, high.alloc, i);
        }
      }
    }
  }

  // ---------------------------------------------------------------------
  // Worked examples

  /** A(weight 70, price 100) and B(weight 30, price 50) with 120 saved:
      neither is filled, so the split is proportional, 84 and 36. */
  lemma ProportionalSplitExample()
    ensures Waterfall([100.0, 50.0], [70.0, 30.0], 120.0).alloc == [84.0, 36.0]
  {
    TwoPositive([70.0, 30.0]);
    assert Zeros(2) == [0.0, 0.0];
    ProportionalRound();
  }

  lemma ProportionalRound()
    ensures RoundUpTo([100.0, 50.0], [70.0, 30.0], [0.0, 0.0], 120.0, 100.0, [0, 1], 2)
            == RoundState([84.0, 36.0], 0.0, [0, 1])
  {
    var price := [100.0, 50.0];
    assert Portion(120.0, 70.0, 100.0) == 84.0;
    assert Portion(120.0, 30.0, 100.0) == 36.0;
    var st1 := Visit(price, RoundState([0.0, 0.0], 0.0, []), 0, 84.0);
    assert [] + [0] == [0];
    assert st1 == RoundState([0.0, 0.0][0 := 84.0], 0.0, [0]);
    var st2 := Visit(price, st1, 1, 36.0);
    assert st2 == RoundState([0.0, 0.0][0 := 84.0][1 := 36.0], 0.0, [0, 1]);
  }

  /** A(weight 50, price 10) and B(weight 50, price 1000) with 100 saved:
      A is filled in the first round and its surplus 40 goes to B, 10 and 90. */
  lemma OverflowExample()
    ensures Waterfall([10.0, 1000.0], [50.0, 50.0], 100.0).alloc == [10.0, 90.0]
  {
    TwoPositive([50.0, 50.0]);
    assert Zeros(2) == [0.0, 0.0];
    OverflowFirstRound();
    OverflowSecondRound();
  }

  lemma OverflowFirstRound()
    ensures RoundUpTo([10.0, 1000.0], [50.0, 50.0], [0.0, 0.0], 100.0, 100.0, [0, 1], 2)
            == RoundState([10.0, 50.0], 40.0, [1])
  {
    var price := [10.0, 1000.0];
    assert Portion(100.0, 50.0, 100.0) == 50.0;
    var st1 := Visit(price, RoundState([0.0, 0.0], 0.0, []), 0, 50.0);
    assert st1 == RoundState([0.0, 0.0][0 := 10.0], 40.0, []);
    var st2 := Visit(price, st1, 1, 50.0);
    assert [] + [1] == [1];
    assert st2 == RoundState([0.0, 0.0][0 := 10.0][1 := 50.0], 40.0, [1]);
  }

  lemma OverflowSecondRound()
    ensures Distribute([10.0, 1000.0], [50.0, 50.0], [10.0, 50.0], 40.0, [1]).alloc == [10.0, 90.0]
  {
    var price, weight := [10.0, 1000.0], [50.0, 50.0];
    assert WeightOf(weight, [1]) == 50.0 by {
      assert [1][..0] == [];
    }
    assert Portion(40.0, 50.0, 50.0) == 40.0;
    var st := Visit(price, RoundState([10.0, 50.0], 0.0, []), 1, 40.0);
    assert st == RoundState([10.0, 50.0][1 := 90.0], 0.0, [1]);
    assert RoundUpTo(price, weight, [10.0, 50.0], 40.0, 50.0, [1], 1) == st;
  }

  /** Both of two targets with positive weights are active, with total weight
      their sum. */
  lemma TwoPositive(weight: seq<real>)
    requires |weight| == 2 && weight[0] > 0.0 && weight[1] > 0.0
    ensures PositiveIndices(weight) == [0, 1]
    ensures WeightOf(weight, [0, 1]) == weight[0] + weight[1]
  {
    var first := weight[..1];
    assert first[..0] == [];
    assert PositiveIndices(first) == [0];
    assert PositiveIndices(weight) == PositiveIndices(first) + [1];
    TwoWeightOf(weight);
  }

  lemma TwoWeightOf(weight: seq<real>)
    requires |weight| == 2
    ensures WeightOf(weight, [0, 1]) == weight[0] + weight[1]
  {
    assert [0][..0] == [];
    assert WeightOf(weight, [0]) == weight[0];
    assert [0, 1][..1] == [0];
  }
}
