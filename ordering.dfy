/** Python's stable sort in descending order (`sorted(..., key=k,
    reverse=True)` and `list.sort(key=k, reverse=True)`), stated on positions:
    the result lists every position of `keys` once, larger keys first, and
    positions with equal keys in their original order. */
module Ordering {

  /** Position i is placed before position j: its key is larger, or the keys
      are equal and i comes first in the input. */
  predicate Precedes(keys: seq<real>, i: nat, j: nat)
    requires i < |keys| && j < |keys|
  {
    keys[i] > keys[j] || (keys[i] == keys[j] && i < j)
  }

  /** Every listed position is valid and each one precedes all later ones. */
  predicate Ranked(keys: seq<real>, s: seq<nat>)
  {
    (forall k :: 0 <= k < |s| ==> s[k] < |keys|) &&
    (forall a, b :: 0 <= a < b < |s| ==> Precedes(keys, s[a], s[b]))
  }

  /** `order` is the result of the stable descending sort of the positions of `keys`. */
  predicate IsStableDescOrder(keys: seq<real>, order: seq<nat>)
  {
    |order| == |keys| &&
    Ranked(keys, order) &&
    (forall i: nat :: i < |keys| ==> i in order)
  }

  /** Inserts the newest position x (larger than every listed one) after all
      positions whose key is at least its own. */
  function Insert(keys: seq<real>, s: seq<nat>, x: nat): (r: seq<nat>)
    requires x < |keys| && Ranked(keys, s)
    requires forall k :: 0 <= k < |s| ==> s[k] < x
    ensures |r| == |s| + 1
    ensures forall y :: y in r <==> y in s || y == x
    ensures Ranked(keys, r)
  {
    if |s| == 0 then [x]
    else if keys[x] > keys[s[0]] then
      assert forall k :: 0 <= k < |s| ==> Precedes(keys, x, s[k]) by {
        forall k | 0 <= k < |s| ensures Precedes(keys, x, s[k]) {
          if k > 0 { assert Precedes(keys, s[0], s[k]); }
        }
      }
      [x] + s
    else
      var rest := Insert(keys, s[1..], x);
      assert Ranked(keys, s[1..]);
      assert forall y :: y in rest ==> Precedes(keys, s[0], y) by {
        forall y | y in rest ensures Precedes(keys, s[0], y) {
          if y != x {
            var k :| 0 <= k < |s[1..]| && s[1..][k] == y;
            assert Precedes(keys, s[0], s[k + 1]);
          }
        }
      }
      [s[0]] + rest
  }

  /** The stable descending order of the first n positions. */
  function SortPrefix(keys: seq<real>, n: nat): (r: seq<nat>)
    requires n <= |keys|
    ensures |r| == n && Ranked(keys, r)
    ensures forall y: nat :: y in r <==> y < n
  {
    if n == 0 then []
    else
      var s := SortPrefix(keys, n - 1);
      assert forall k :: 0 <= k < |s| ==> s[k] < n - 1 by {
        forall k | 0 <= k < |s| ensures s[k] < n - 1 { assert s[k] in s; }
      }
      Insert(keys, s, n - 1)
  }

  /** `sorted(range(len(keys)), key=keys.__getitem__, reverse=True)`. */
  function StableOrderDesc(keys: seq<real>): (order: seq<nat>)
    ensures IsStableDescOrder(keys, order)
  {
    SortPrefix(keys, |keys|)
  }

  /** The positions that sort ahead of a listed one are listed before it, so a
      prefix of the order is closed under Precedes. */
  lemma PrefixClosed(keys: seq<real>, order: seq<nat>, cut: nat, i: nat, j: nat)
    requires IsStableDescOrder(keys, order) && cut <= |order|
    requires i < |keys| && j < |keys| && Precedes(keys, i, j)
    requires j in order[..cut]
    ensures i in order[..cut]
  {
    var b :| 0 <= b < cut && order[b] == j;
    assert i in order;
    var a :| 0 <= a < |order| && order[a] == i;
    assert order[..cut][a] == i;
  }

  /** The listed positions are pairwise distinct. */
  lemma OrderDistinct(keys: seq<real>, order: seq<nat>, a: nat, b: nat)
    requires IsStableDescOrder(keys, order) && a < |order| && b < |order| && a != b
    ensures order[a] != order[b]
  {
    if a < b { assert Precedes(keys, order[a], order[b]); }
    else { assert Precedes(keys, order[b], order[a]); }
  }
}
