/** Exact-arithmetic counterparts of the Python numeric built-ins the
    allocation code relies on: `sum`, `int()` on a float, `round()`. */
module Numeric {

  /** Python's `sum` over a list of numbers. */
  function Sum(s: seq<real>): real
  {
    if |s| == 0 then 0.0 else Sum(s[..|s| - 1]) + s[|s| - 1]
  }

  /** Python's `sum` over a list of integers. */
  function SumInt(s: seq<int>): int
  {
    if |s| == 0 then 0 else SumInt(s[..|s| - 1]) + s[|s| - 1]
  }

  lemma SumAppend(s: seq<real>, x: real)
    ensures Sum(s + [x]) == Sum(s) + x
  {
    assert (s + [x])[..|s|] == s;
  }

  /** Replacing one element changes the sum by the difference. */
  lemma {:induction false} SumUpdate(s: seq<real>, i: nat, v: real)
    requires i < |s|
    ensures Sum(s[i := v]) == Sum(s) - s[i] + v
  {
    var n := |s|;
    if i == n - 1 {
      assert s[i := v][..n - 1] == s[..n - 1];
    } else {
      assert s[i := v][..n - 1] == s[..n - 1][i := v];
      SumUpdate(s[..n - 1], i, v);
    }
  }

  lemma {:induction false} SumIntUpdate(s: seq<int>, i: nat, v: int)
    requires i < |s|
    ensures SumInt(s[i := v]) == SumInt(s) - s[i] + v
  {
    var n := |s|;
    if i == n - 1 {
      assert s[i := v][..n - 1] == s[..n - 1];
    } else {
      assert s[i := v][..n - 1] == s[..n - 1][i := v];
      SumIntUpdate(s[..n - 1], i, v);
    }
  }

  /** A list of zeros, as `[0.0 for _ in xs]`. */
  function Zeros(n: nat): (z: seq<real>)
    ensures |z| == n && forall i :: 0 <= i < n ==> z[i] == 0.0
  {
    seq(n, _ => 0.0)
  }

  lemma {:induction false} SumZeros(n: nat)
    ensures Sum(Zeros(n)) == 0.0
  {
    if n > 0 {
      assert Zeros(n)[..n - 1] == Zeros(n - 1);
      SumZeros(n - 1);
    }
  }

  /** A pointwise-larger list has a larger sum. */
  lemma {:induction false} SumAtLeast(a: seq<real>, b: seq<real>)
    requires |a| == |b|
    requires forall i :: 0 <= i < |a| ==> a[i] >= b[i]
    ensures Sum(a) >= Sum(b)
  {
    var n := |a|;
    if n > 0 {
      SumAtLeast(a[..n - 1], b[..n - 1]);
    }
  }

  /** Of two pointwise-ordered lists, the larger sum exceeds the smaller by
      at least the gap at any one position. */
  lemma {:induction false} SumGap(a: seq<real>, b: seq<real>, i: nat)
    requires |a| == |b| && i < |a|
    requires forall k :: 0 <= k < |a| ==> a[k] >= b[k]
    ensures Sum(a) - Sum(b) >= a[i] - b[i]
  {
    var n := |a|;
    if i == n - 1 {
      SumAtLeast(a[..n - 1], b[..n - 1]);
    } else {
      SumGap(a[..n - 1], b[..n - 1], i);
    }
  }

  predicate NonNegative(s: seq<real>)
  {
    forall i :: 0 <= i < |s| ==> s[i] >= 0.0
  }

  lemma SumNonNegative(s: seq<real>)
    requires NonNegative(s)
    ensures Sum(s) >= 0.0
  {
    SumAtLeast(s, Zeros(|s|));
    SumZeros(|s|);
  }

  /** Every element multiplied by f. */
  function Scale(s: seq<real>, f: real): (r: seq<real>)
    ensures |r| == |s| && forall i :: 0 <= i < |s| ==> r[i] == s[i] * f
  {
    seq(|s|, i requires 0 <= i < |s| => s[i] * f)
  }

  lemma {:induction false} SumScale(s: seq<real>, f: real)
    ensures Sum(Scale(s, f)) == Sum(s) * f
  {
    var n := |s|;
    if n > 0 {
      SumScale(s[..n - 1], f);
      var a := Scale(s, f)[..n - 1];
      var b := Scale(s[..n - 1], f);
      forall i | 0 <= i < n - 1 ensures a[i] == b[i] {
      }
      assert a == b;
      assert Sum(s[..n - 1]) * f + s[n - 1] * f == (Sum(s[..n - 1]) + s[n - 1]) * f;
    }
  }

  /** The sum of two lists taken position by position adds their sums. */
  lemma {:induction false} SumPointwise(a: seq<real>, b: seq<real>, c: seq<real>)
    requires |a| == |b| == |c|
    requires forall i :: 0 <= i < |c| ==> c[i] == a[i] + b[i]
    ensures Sum(c) == Sum(a) + Sum(b)
  {
    var n := |c|;
    if n > 0 {
      SumPointwise(a[..n - 1], b[..n - 1], c[..n - 1]);
    }
  }

  /** Python's `min` of two numbers. */
  function Min(a: real, b: real): (m: real)
    ensures m <= a && m <= b && (m == a || m == b)
  {
    if a <= b then a else b
  }

  /** Python's `int(x)` on a float: truncation toward zero. */
  function Trunc(x: real): (r: int)
    ensures x >= 0.0 ==> r as real <= x < r as real + 1.0
    ensures x < 0.0 ==> r as real - 1.0 < x <= r as real
  {
    if x >= 0.0 then x.Floor else -((-x).Floor)
  }

  /** Python's `round(x)`: the nearest integer, ties to the even one. */
  function RoundHalfEven(x: real): (r: int)
    ensures x - 0.5 <= r as real <= x + 0.5
    ensures (r as real == x - 0.5 || r as real == x + 0.5) ==> r % 2 == 0
  {
    var f := x.Floor;
    var d := x - f as real;
    if d < 0.5 then f
    else if d > 0.5 then f + 1
    else if f % 2 == 0 then f
    else f + 1
  }

  lemma RoundHalfEvenMonotone(x: real, y: real)
    requires x <= y
    ensures RoundHalfEven(x) <= RoundHalfEven(y)
  {
  }

  lemma RoundHalfEvenOfInt(n: int)
    ensures RoundHalfEven(n as real) == n
  {
  }

  lemma RoundHalfEvenWithin(y: real, a: int, b: int)
    requires a as real <= y <= b as real
    ensures a <= RoundHalfEven(y) <= b
  {
    RoundHalfEvenMonotone(a as real, y);
    RoundHalfEvenMonotone(y, b as real);
    RoundHalfEvenOfInt(a);
    RoundHalfEvenOfInt(b);
  }

}

/** Python's `round(x, 1)` and `round(x, 2)` on exact values, as used for
    the displayed progress and amounts. */
module Decimal {
  import opened Numeric

  /** `round(x, 1)`: the nearest multiple of 0.1, ties to the even multiple. */
  function RoundTenths(x: real): (r: real)
    ensures x - 0.05 <= r <= x + 0.05
  {
    RoundHalfEven(x * 10.0) as real / 10.0
  }

  /** `round(x, 2)`: the nearest multiple of 0.01, ties to the even multiple. */
  function RoundHundredths(x: real): (r: real)
    ensures x - 0.005 <= r <= x + 0.005
  {
    RoundHalfEven(x * 100.0) as real / 100.0
  }

  /** Rounding to cents never reverses the order of two amounts. */
  lemma RoundHundredthsMonotone(x: real, y: real)
    requires x <= y
    ensures RoundHundredths(x) <= RoundHundredths(y)
  {
    RoundHalfEvenMonotone(x * 100.0, y * 100.0);
  }

  /** Rounding to tenths keeps a value inside an interval with whole ends. */
  lemma RoundTenthsWithin(x: real, lo: int, hi: int)
    requires lo as real <= x <= hi as real
    ensures lo as real <= RoundTenths(x) <= hi as real
  {
    RoundHalfEvenWithin(x * 10.0, lo * 10, hi * 10);
  }
}
