/** Largest-remainder (Hamilton) rounding of exact percentage shares to whole
    points. Both copies of the routine in the source, the display percentages
    of the allocation view and the weight normalisation, compute this. */
module Apportionment {
  import opened Numeric
  import opened Ordering

  /** Each weight's exact share of 100, `(w / total) * 100`. */
  function Shares(weights: seq<real>, total: real): (s: seq<real>)
    requires total != 0.0
    ensures |s| == |weights|
  {
    seq(|weights|, i requires 0 <= i < |weights| => weights[i] / total * 100.0)
  }

  /** `int(p)` of every share. */
  function Floors(shares: seq<real>): (f: seq<int>)
    ensures |f| == |shares|
  {
    seq(|shares|, i requires 0 <= i < |shares| => Trunc(shares[i]))
  }

  /** `p - int(p)` of every share. */
  function Remainders(shares: seq<real>): (r: seq<real>)
    ensures |r| == |shares|
  {
    seq(|shares|, i requires 0 <= i < |shares| => shares[i] - Trunc(shares[i]) as real)
  }

  /** The points left over after flooring: `100 - sum(floored)`. */
  function Deficit(shares: seq<real>): int
  {
    100 - SumInt(Floors(shares))
  }

  /** The number of elements of `xs[:stop]` for a list of length n. */
  function SliceLength(stop: int, n: nat): (len: nat)
    ensures len <= n
    ensures 0 <= stop <= n ==> len == stop
    ensures stop > n ==> len == n
    ensures stop < 0 ==> len == if n + stop >= 0 then n + stop else 0
  {
    if stop >= 0 then (if stop <= n then stop else n)
    else if n + stop >= 0 then n + stop
    else 0
  }

  /** The floors, with one more point for each of the first `cut` positions of `order`. */
  function Bumped(floors: seq<int>, order: seq<nat>, cut: nat): (r: seq<int>)
    requires cut <= |order|
    ensures |r| == |floors|
  {
    seq(|floors|, i requires 0 <= i < |floors| =>
      if i in order[..cut] then floors[i] + 1 else floors[i])
  }

  /** Floor every share, then give one more point to as many positions as the
      deficit, taking them by remainder, largest first, earlier first on ties. */
  function LargestRemainder(shares: seq<real>): (r: seq<int>)
    ensures |r| == |shares|
  {
    Bumped(Floors(shares), StableOrderDesc(Remainders(shares)),
           SliceLength(Deficit(shares), |shares|))
  }


  // ---------------------------------------------------------------------
  // Sums

  lemma ScaledSumStep(a: real, b: real, t: real)
    requires t != 0.0
    ensures a / t * 100.0 + b / t * 100.0 == (a + b) / t * 100.0
  {
  }

  /** The shares add up to the weights' sum over `total`, times 100. */
  lemma {:induction false} SharesSum(weights: seq<real>, total: real)
    requires total != 0.0
    ensures Sum(Shares(weights, total)) == Sum(weights) / total * 100.0
  {
    var n := |weights|;
    if n > 0 {
      assert Shares(weights, total)[..n - 1] == Shares(weights[..n - 1], total);
      SharesSum(weights[..n - 1], total);
      ScaledSumStep(Sum(weights[..n - 1]), weights[n - 1], total);
      assert Sum(Shares(weights, total))
          == Sum(weights[..n - 1]) / total * 100.0 + weights[n - 1] / total * 100.0;
    }
  }

  /** Shares of the weights' own total add up to exactly 100. */
  lemma SharesOfTotal(weights: seq<real>)
    requires Sum(weights) != 0.0
    ensures Sum(Shares(weights, Sum(weights))) == 100.0
  {
    var t := Sum(weights);
    SharesSum(weights, t);
    assert t / t == 1.0;
  }

  /** Sum of non-negative shares, floored, lies within |shares| below the exact sum. */
  lemma {:induction false} FloorsSum(shares: seq<real>)
    requires NonNegative(shares)
    ensures SumInt(Floors(shares)) as real <= Sum(shares)
    ensures |shares| > 0 ==> Sum(shares) < SumInt(Floors(shares)) as real + |shares| as real
  {
    var n := |shares|;
    if n > 0 {
      assert Floors(shares)[..n - 1] == Floors(shares[..n - 1]);
      FloorsSum(shares[..n - 1]);
    }
  }

  /** When non-negative shares add up to 100, the deficit lies in [0, |shares|):
      it never indexes past the list of remainders. */
  lemma DeficitInRange(shares: seq<real>)
    requires NonNegative(shares) && Sum(shares) == 100.0
    ensures 0 <= Deficit(shares) < |shares|
  {
    FloorsSum(shares);
  }

  /** Bumping one more position of the order raises exactly that position by one. */
  lemma BumpedStep(floors: seq<int>, order: seq<nat>, cut: nat)
    requires cut < |order|
    requires forall k :: 0 <= k < |order| ==> order[k] < |floors|
    requires forall a, b :: 0 <= a < b < |order| ==> order[a] != order[b]
    ensures var prev := Bumped(floors, order, cut);
      Bumped(floors, order, cut + 1) == prev[order[cut] := prev[order[cut]] + 1]
  {
    var prev := Bumped(floors, order, cut);
    var x := order[cut];
    assert x !in order[..cut];
    assert order[..cut + 1] == order[..cut] + [x];
    var bumped := Bumped(floors, order, cut + 1);
    forall i | 0 <= i < |floors|
      ensures bumped[i] == prev[x := prev[x] + 1][i]
    {
      assert (i in order[..cut + 1]) <==> (i in order[..cut] || i == x);
    }
  }

  /** Bumping `cut` distinct positions adds exactly `cut` points. */
  lemma {:induction false} BumpedSum(floors: seq<int>, order: seq<nat>, cut: nat)
    requires cut <= |order|
    requires forall k :: 0 <= k < |order| ==> order[k] < |floors|
    requires forall a, b :: 0 <= a < b < |order| ==> order[a] != order[b]
    ensures SumInt(Bumped(floors, order, cut)) == SumInt(floors) + cut
  {
    if cut > 0 {
      BumpedSum(floors, order, cut - 1);
      var prev := Bumped(floors, order, cut - 1);
      BumpedStep(floors, order, cut - 1);
      SumIntUpdate(prev, order[cut - 1], prev[order[cut - 1]] + 1);
    } else {
      assert Bumped(floors, order, cut) == floors;
    }
  }

  lemma StableOrderIsDistinct(keys: seq<real>, order: seq<nat>)
    requires IsStableDescOrder(keys, order)
    ensures forall a, b :: 0 <= a < b < |order| ==> order[a] != order[b]
  {
    forall a, b | 0 <= a < b < |order| ensures order[a] != order[b] {
      OrderDistinct(keys, order, a, b);
    }
  }

  /** With non-negative shares adding up to 100, the rounded points add up to
      exactly 100 and each is the floor of its share or one more. */
  lemma LargestRemainderSum(shares: seq<real>)
    requires NonNegative(shares) && Sum(shares) == 100.0
    ensures SumInt(LargestRemainder(shares)) == 100
    ensures forall i :: 0 <= i < |shares| ==>
      LargestRemainder(shares)[i] == shares[i].Floor || LargestRemainder(shares)[i] == shares[i].Floor + 1
  {
    DeficitInRange(shares);
    var order := StableOrderDesc(Remainders(shares));
    StableOrderIsDistinct(Remainders(shares), order);
    BumpedSum(Floors(shares), order, Deficit(shares));
  }

  // ---------------------------------------------------------------------
  // Who receives the extra points

  /** Whether position i received an extra point. */
  predicate Raised(shares: seq<real>, i: nat)
    requires i < |shares|
  {
    LargestRemainder(shares)[i] == Trunc(shares[i]) + 1
  }

  lemma RaisedIsListed(shares: seq<real>, i: nat)
    requires i < |shares|
    ensures Raised(shares, i) <==>
      i in StableOrderDesc(Remainders(shares))[..SliceLength(Deficit(shares), |shares|)]
  {
  }

  /** An extra point never goes to a position ranked after one that is denied
      it: the receivers have the largest remainders, earlier first on ties. */
  lemma {:induction false} LargestRemainderPrefers(shares: seq<real>, i: nat, j: nat)
    requires i < |shares| && j < |shares|
    requires Raised(shares, i) && !Raised(shares, j)
    ensures Precedes(Remainders(shares), i, j)
  {
    var rems := Remainders(shares);
    var order := StableOrderDesc(rems);
    var cut := SliceLength(Deficit(shares), |shares|);
    RaisedIsListed(shares, i);
    RaisedIsListed(shares, j);
    if !Precedes(rems, i, j) {
      PrefixClosed(rems, order, cut, j, i);
    }
  }

  lemma TruncMonotone(x: real, y: real)
    requires x <= y
    ensures Trunc(x) <= Trunc(y)
  {
  }

  /** A position that sorts ahead by share (a larger share, or an equal share
      earlier in the list) never receives fewer points. */
  lemma {:induction false} LargestRemainderMonotone(shares: seq<real>, i: nat, j: nat)
    requires i < |shares| && j < |shares|
    requires Precedes(shares, i, j)
    ensures LargestRemainder(shares)[i] >= LargestRemainder(shares)[j]
  {
    var rems := Remainders(shares);
    TruncMonotone(shares[j], shares[i]);
    if Trunc(shares[i]) == Trunc(shares[j]) && Raised(shares, j) && !Raised(shares, i) {
      assert Precedes(rems, i, j);
      var order := StableOrderDesc(rems);
      var cut := SliceLength(Deficit(shares), |shares|);
      RaisedIsListed(shares, i);
      RaisedIsListed(shares, j);
      PrefixClosed(rems, order, cut, i, j);
    }
  }

  /** Integers widened to reals. */
  function AsReals(s: seq<int>): (r: seq<real>)
    ensures |r| == |s|
  {
    seq(|s|, i requires 0 <= i < |s| => s[i] as real)
  }

  lemma {:induction false} SumAsReals(s: seq<int>)
    ensures Sum(AsReals(s)) == SumInt(s) as real
  {
    var n := |s|;
    if n > 0 {
      assert AsReals(s)[..n - 1] == AsReals(s[..n - 1]);
      SumAsReals(s[..n - 1]);
    }
  }

  /** A pointwise-larger list with one element larger by at least 1 has a sum larger by at least 1. */
  lemma {:induction false} SumDominates(a: seq<real>, b: seq<real>, j: nat)
    requires |a| == |b| && j < |a|
    requires forall i :: 0 <= i < |a| ==> a[i] >= b[i]
    requires a[j] >= b[j] + 1.0
    ensures Sum(a) >= Sum(b) + 1.0
  {
    var n := |a|;
    if j < n - 1 {
      SumDominates(a[..n - 1], b[..n - 1], j);
    } else {
      SumAtLeast(a[..n - 1], b[..n - 1]);
    }
  }

  /** A share that is already a whole number is never raised: with
      non-negative shares adding up to 100, it keeps exactly its value. */
  lemma WholeShareKept(shares: seq<real>, j: nat)
    requires NonNegative(shares) && Sum(shares) == 100.0
    requires j < |shares| && shares[j] == shares[j].Floor as real
    ensures LargestRemainder(shares)[j] == shares[j].Floor
  {
    var lr := LargestRemainder(shares);
    LargestRemainderSum(shares);
    if Raised(shares, j) {
      var rems := Remainders(shares);
      forall i | 0 <= i < |shares| ensures AsReals(lr)[i] >= shares[i] {
        if !Raised(shares, i) && rems[i] > 0.0 {
          LargestRemainderPrefers(shares, j, i);
        }
      }
      SumDominates(AsReals(lr), shares, j);
      SumAsReals(lr);
      assert false;
    }
  }

  lemma ScaledLess(a: real, b: real, t: real)
    requires t > 0.0 && a > b
    ensures a / t * 100.0 > b / t * 100.0
  {
    assert a / t > b / t;
  }

  /** Dividing by a positive total keeps the order of the weights. */
  lemma SharesKeepOrder(weights: seq<real>, total: real, i: nat, j: nat)
    requires total > 0.0 && i < |weights| && j < |weights|
    requires Precedes(weights, i, j)
    ensures Precedes(Shares(weights, total), i, j)
  {
    if weights[i] > weights[j] {
      ScaledLess(weights[i], weights[j], total);
    }
  }

  /** With a positive total, shares are non-negative exactly when the weights are. */
  lemma SharesNonNegative(weights: seq<real>, total: real)
    requires total > 0.0 && NonNegative(weights)
    ensures NonNegative(Shares(weights, total))
  {
    forall i | 0 <= i < |weights| ensures Shares(weights, total)[i] >= 0.0 {
      if weights[i] > 0.0 {
        ScaledLess(weights[i], 0.0, total);
      }
    }
  }
}
