/** `services/weights.py`: rescaling raw target weights to whole percentages
    that add up to exactly 100 (`normalize_to_100`). */
module Weights {
  import opened Numeric
  import opened Ordering
  import opened Apportionment

  /** One entry `{"id": id, "w": w}` of the input list. */
  datatype Item = Item(id: int, w: real)

  /** `max(0.0, w)`: a negative raw weight counts as 0. */
  function Clamp(w: real): (c: real)
    ensures c >= 0.0 && c >= w && (c == 0.0 || c == w)
  {
    if w > 0.0 then w else 0.0
  }

  /** The clamped raw weights, in input order. */
  function Clamped(items: seq<Item>): (c: seq<real>)
    ensures |c| == |items| && forall i :: 0 <= i < |items| ==> c[i] == Clamp(items[i].w)
  {
    seq(|items|, i requires 0 <= i < |items| => Clamp(items[i].w))
  }

  /** The raw weights, in input order. */
  function RawWeights(items: seq<Item>): (w: seq<real>)
    ensures |w| == |items| && forall i :: 0 <= i < |items| ==> w[i] == items[i].w
  {
    seq(|items|, i requires 0 <= i < |items| => items[i].w)
  }

  function Ids(items: seq<Item>): set<int>
  {
    set x | x in items :: x.id
  }

  /** No id occurs twice: the result is a dictionary keyed by id. */
  predicate DistinctIds(items: seq<Item>)
  {
    forall a, b :: 0 <= a < |items| && 0 <= b < |items| && a != b ==> items[a].id != items[b].id
  }

  /** The whole percentage given to each item, by position: all 0 when the
      clamped weights add up to 0, otherwise the largest-remainder rounding of
      each clamped weight's share of 100. */
  function Normalized(items: seq<Item>): (pct: seq<int>)
    ensures |pct| == |items|
  {
    var weights := Clamped(items);
    var total := Sum(weights);
    if total <= 0.0 then seq(|items|, _ => 0)
    else LargestRemainder(Shares(weights, total))
  }

  /** `table` maps the id of every item to the entry of `pct` at its position,
      and has no other keys. */
  predicate Reports(items: seq<Item>, table: map<int, int>, pct: seq<int>)
  {
    |pct| == |items| && table.Keys == Ids(items) &&
    forall p :: 0 <= p < |items| ==> items[p].id in table && table[items[p].id] == pct[p]
  }

  /** `normalize_to_100(items)`: the dictionary from id to whole percentage. */
  method NormalizeTo100(items: seq<Item>) returns (floored: map<int, int>)
    requires DistinctIds(items)
    ensures Reports(items, floored, Normalized(items))
  {
    var total := Sum(Clamped(items));
    if total <= 0.0 {
      return ZeroTableOf(items);
    }
    var exact := ExactShares(items, total);
    floored := FloorTableOf(items, exact);
    // With distinct ids, `sum(floored.values())` adds up the floor of every share.
    var remaining := 100 - SumInt(Floors(exact));
    // `remainders.sort(key=..., reverse=True)`, stated on positions: entry k of
    // the sorted list belongs to item `order[k]`.
    var order := StableOrderDesc(Remainders(exact));
    StableOrderIsDistinct(Remainders(exact), order);
    NormalizeDeficitInRange(items);
    floored := AddLeftoverPoints(items, floored, Floors(exact), order, remaining);
    NormalizedIsBumped(items);
  }

  /** The loop building `exact`: each item's clamped weight as a share of 100. */
  method ExactShares(items: seq<Item>, total: real) returns (exact: seq<real>)
    requires total > 0.0
    ensures exact == Shares(Clamped(items), total)
  {
    exact := [];
    var i := 0;
    while i < |items|
      invariant 0 <= i <= |items|
      invariant exact == Shares(Clamped(items), total)[..i]
    {
      var w := Clamp(items[i].w);
      exact := exact + [w / total * 100.0];
      i := i + 1;
    }
  }

  /** `{x["id"]: 0 for x in items}`. */
  function ZeroTableOf(items: seq<Item>): (table: map<int, int>)
    requires Sum(Clamped(items)) <= 0.0
    ensures Reports(items, table, Normalized(items))
  {
    ZeroTable(items);
    map x | x in items :: x.id := 0
  }

  /** `{x["id"]: 0 for x in items}` gives every item 0. */
  lemma ZeroTable(items: seq<Item>)
    requires Sum(Clamped(items)) <= 0.0
    ensures Reports(items, map x | x in items :: x.id := 0, Normalized(items))
  {
    var table := map x | x in items :: x.id := 0;
    forall p | 0 <= p < |items| ensures items[p].id in table {
      assert items[p] in items;
    }
  }

  /** With a positive total, the result is the floors with one more point for
      as many items as the deficit, taken in remainder order. */
  lemma NormalizedIsBumped(items: seq<Item>)
    requires Sum(Clamped(items)) > 0.0
    ensures var exact := Shares(Clamped(items), Sum(Clamped(items)));
      0 <= Deficit(exact) < |exact| &&
      Normalized(items) == Bumped(Floors(exact), StableOrderDesc(Remainders(exact)), Deficit(exact))
  {
    NormalizeDeficitInRange(items);
  }

  /** `for k in range(remaining): floored[remainders[k][0]] += 1`: one more
      point for each of the first `remaining` items in `order`. */
  method AddLeftoverPoints(items: seq<Item>, floored: map<int, int>, floors: seq<int>,
                           order: seq<nat>, remaining: nat)
    returns (table: map<int, int>)
    requires DistinctIds(items) && Reports(items, floored, floors) && remaining <= |order|
    requires forall k :: 0 <= k < |order| ==> order[k] < |floors|
    requires forall a, b :: 0 <= a < b < |order| ==> order[a] != order[b]
    ensures Reports(items, table, Bumped(floors, order, remaining))
  {
    table := floored;
    var k := 0;
    while k < remaining
      invariant 0 <= k <= remaining
      invariant Reports(items, table, Bumped(floors, order, k))
    {
      BumpedStep(floors, order, k);
      ReportsBump(items, table, Bumped(floors, order, k), order[k]);
      var id := items[order[k]].id;
      table := table[id := table[id] + 1];
      k := k + 1;
    }
  }

  /** `{i: int(pct) for i, pct in exact}`. */
  function FloorTableOf(items: seq<Item>, exact: seq<real>): (table: map<int, int>)
    requires DistinctIds(items) && |exact| == |items|
    ensures Reports(items, table, Floors(exact))
  {
    FloorTable(items, exact);
    map p | 0 <= p < |items| :: items[p].id := Trunc(exact[p])
  }

  /** `{i: int(pct) for i, pct in exact}` reports the floor of every share. */
  lemma FloorTable(items: seq<Item>, exact: seq<real>)
    requires DistinctIds(items) && |exact| == |items|
    ensures Reports(items, map p | 0 <= p < |items| :: items[p].id := Trunc(exact[p]), Floors(exact))
  {
    var table := map p | 0 <= p < |items| :: items[p].id := Trunc(exact[p]);
    forall p | 0 <= p < |items|
      ensures items[p].id in table && table[items[p].id] == Floors(exact)[p]
    {
      var id := items[p].id;
      assert id in table;
      var q :| 0 <= q < |items| && items[q].id == id && table[id] == Trunc(exact[q]);
    }
    assert table.Keys == Ids(items) by {
      forall id | id in Ids(items) ensures id in table {
        var x :| x in items && x.id == id;
        var p :| 0 <= p < |items| && items[p] == x;
      }
    }
  }

  /** `floored[id] += 1` on the id of the item at position p adds one point
      to that position only. */
  lemma ReportsBump(items: seq<Item>, table: map<int, int>, pct: seq<int>, p0: nat)
    requires DistinctIds(items) && Reports(items, table, pct) && p0 < |items|
    ensures var id := items[p0].id;
      Reports(items, table[id := table[id] + 1], pct[p0 := pct[p0] + 1])
  {
  }

  /** The clamped weights add up to a positive total exactly when some raw
      weight is positive. */
  lemma TotalPositive(items: seq<Item>)
    ensures Sum(Clamped(items)) >= 0.0
    ensures Sum(Clamped(items)) > 0.0 <==> exists j :: 0 <= j < |items| && items[j].w > 0.0
  {
    var c := Clamped(items);
    var n := |items|;
    SumNonNegative(c);
    if exists j :: 0 <= j < n && items[j].w > 0.0 {
      var j :| 0 <= j < n && items[j].w > 0.0;
      var lower := Zeros(n)[j := c[j]];
      SumAtLeast(c, lower);
      SumUpdate(Zeros(n), j, c[j]);
      SumZeros(n);
    } else {
      assert c == Zeros(n);
      SumZeros(n);
    }
  }

  /** When no raw weight is positive every item gets 0; when one is, the
      percentages add up to exactly 100. */
  lemma NormalizedSum(items: seq<Item>)
    ensures (forall j :: 0 <= j < |items| ==> items[j].w <= 0.0) ==>
      forall i :: 0 <= i < |items| ==> Normalized(items)[i] == 0
    ensures (exists j :: 0 <= j < |items| && items[j].w > 0.0) ==>
      SumInt(Normalized(items)) == 100
  {
    var weights := Clamped(items);
    var total := Sum(weights);
    TotalPositive(items);
    if total > 0.0 {
      SharesOfTotal(weights);
      SharesNonNegative(weights, total);
      LargestRemainderSum(Shares(weights, total));
    }
  }

  /** Each percentage is the item's exact share of 100 rounded down, or one more. */
  lemma NormalizedNear(items: seq<Item>, i: nat)
    requires i < |items| && Sum(Clamped(items)) > 0.0
    ensures var exact := Clamp(items[i].w) / Sum(Clamped(items)) * 100.0;
      Normalized(items)[i] == exact.Floor || Normalized(items)[i] == exact.Floor + 1
  {
    var weights := Clamped(items);
    var total := Sum(weights);
    SharesOfTotal(weights);
    SharesNonNegative(weights, total);
    LargestRemainderSum(Shares(weights, total));
  }

  /** The points handed out after flooring number at least 0 and fewer than
      the items, so `remainders[k]` is always in range. */
  lemma NormalizeDeficitInRange(items: seq<Item>)
    requires Sum(Clamped(items)) > 0.0
    ensures 0 <= Deficit(Shares(Clamped(items), Sum(Clamped(items)))) < |items|
  {
    var weights := Clamped(items);
    var total := Sum(weights);
    SharesOfTotal(weights);
    SharesNonNegative(weights, total);
    DeficitInRange(Shares(weights, total));
  }

  /** An item whose raw weight is 0 or negative gets 0. */
  lemma NormalizedNonPositive(items: seq<Item>, j: nat)
    requires j < |items| && items[j].w <= 0.0
    ensures Normalized(items)[j] == 0
  {
    var weights := Clamped(items);
    var total := Sum(weights);
    TotalPositive(items);
    if total > 0.0 {
      SharesOfTotal(weights);
      SharesNonNegative(weights, total);
      assert Shares(weights, total)[j] == 0.0;
      WholeShareKept(Shares(weights, total), j);
    }
  }

  /** A larger raw weight never gets fewer points, and of two equal weights
      the earlier item never gets fewer: ties in the remainder go to the
      earlier item. */
  lemma NormalizedMonotone(items: seq<Item>, i: nat, j: nat)
    requires i < |items| && j < |items|
    requires Precedes(RawWeights(items), i, j)
    ensures Normalized(items)[i] >= Normalized(items)[j]
  {
    var weights := Clamped(items);
    var total := Sum(weights);
    TotalPositive(items);
    if items[j].w <= 0.0 {
      NormalizedNonPositive(items, j);
      if items[i].w <= 0.0 {
        NormalizedNonPositive(items, i);
      } else {
        LargestRemainderNonNegative(items, i);
      }
    } else if total > 0.0 {
      assert Precedes(weights, i, j);
      SharesKeepOrder(weights, total, i, j);
      LargestRemainderMonotone(Shares(weights, total), i, j);
    }
  }

  /** No item gets a negative percentage. */
  lemma LargestRemainderNonNegative(items: seq<Item>, i: nat)
    requires i < |items|
    ensures Normalized(items)[i] >= 0
  {
    var weights := Clamped(items);
    var total := Sum(weights);
    if total > 0.0 {
      SharesNonNegative(weights, total);
      assert Shares(weights, total)[i] >= 0.0;
      NormalizedNear(items, i);
    }
  }

  lemma SumThree(s: seq<real>)
    requires |s| == 3
    ensures Sum(s) == s[0] + s[1] + s[2]
  {
    var two := s[..2];
    var one := two[..1];
    assert one[..0] == [];
    assert Sum(one) == one[0];
    assert Sum(two) == Sum(one) + two[1];
  }

  lemma SumIntThree(s: seq<int>)
    requires |s| == 3
    ensures SumInt(s) == s[0] + s[1] + s[2]
  {
    var two := s[..2];
    var one := two[..1];
    assert one[..0] == [];
    assert SumInt(one) == one[0];
    assert SumInt(two) == SumInt(one) + two[1];
  }

  lemma ThirdShare(w: real)
    requires w > 0.0
    ensures (w / (w + w + w) * 100.0).Floor == 33
  {
    assert w / (w + w + w) == 1.0 / 3.0;
  }

  /** Three equal positive weights give 34, 33 and 33: the one point left
      over goes to the first item. */
  lemma ThreeEqual(items: seq<Item>)
    requires |items| == 3 && items[0].w > 0.0
    requires items[1].w == items[0].w && items[2].w == items[0].w
    ensures Normalized(items) == [34, 33, 33]
  {
    var n := Normalized(items);
    NormalizedSum(items);
    NearThird(items, 0);
    NearThird(items, 1);
    NearThird(items, 2);
    NormalizedMonotone(items, 0, 1);
    NormalizedMonotone(items, 1, 2);
    ThreeValues(n);
  }

  lemma ThreeValues(n: seq<int>)
    requires |n| == 3 && 33 <= n[2] <= n[1] <= n[0] <= 34 && SumInt(n) == 100
    ensures n == [34, 33, 33]
  {
    SumIntThree(n);
  }

  /** Each of three equal positive weights gets 33 or 34. */
  lemma NearThird(items: seq<Item>, i: nat)
    requires |items| == 3 && items[0].w > 0.0 && i < 3
    requires items[1].w == items[0].w && items[2].w == items[0].w
    ensures 33 <= Normalized(items)[i] <= 34
  {
    var w := items[0].w;
    SumThree(Clamped(items));
    ThirdShare(w);
    NormalizedNear(items, i);
  }

  lemma ThreeEqualExample()
    ensures Normalized([Item(1, 1.0), Item(2, 1.0), Item(3, 1.0)]) == [34, 33, 33]
  {
    ThreeEqual([Item(1, 1.0), Item(2, 1.0), Item(3, 1.0)]);
  }
}
