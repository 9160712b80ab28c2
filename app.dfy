/** `app.py`: the arithmetic of the request handlers. The amount saved, the
    redistribution when one target's weight is edited, the weight given to a
    new target and the saving of all weights at once. Database reads are
    parameters; database writes are returned as the sequence of
    `update_target_weight` calls the handler makes, in order. */
module App {
  import opened Wrappers
  import opened Numeric
  import opened Weights

  /** One call `update_target_weight(id, weight)`. */
  datatype Write = Write(id: int, weight: int)

  /** The `ValueError` raised by `int(...)` on a form field that is not an
      integer, or by `float(...)` on one that is not a number. */
  datatype RequestError = NotAnInteger(text: string) | NotANumber

  /** A submitted form value as `float(...)` sees it: the empty string
      (which `float` rejects, and `save_weights` reads as 0.0), text that
      parses as a number, or other text, which `float` rejects. */
  datatype FieldValue = Blank | Number(x: real) | Malformed

  function WriteWeights(writes: seq<Write>): (w: seq<int>)
    ensures |w| == |writes| && forall k :: 0 <= k < |writes| ==> w[k] == writes[k].weight
  {
    seq(|writes|, k requires 0 <= k < |writes| => writes[k].weight)
  }

  // ---------------------------------------------------------------------
  // compute_total_saved

  /** `max(0, saved - spent)`: the transactions' amounts (deposits positive,
      spending negative) minus the purchases' amounts, never below 0. */
  function TotalSaved(transactions: seq<real>, purchases: seq<real>): (saved: real)
    ensures saved >= 0.0 && saved >= Sum(transactions) - Sum(purchases)
    ensures saved == 0.0 || saved == Sum(transactions) - Sum(purchases)
  {
    Max0(Sum(transactions) - Sum(purchases))
  }

  /** A deposit of a never lowers the total, and raises it by exactly a when
      the ledger was not in deficit. */
  lemma TotalSavedDeposit(transactions: seq<real>, purchases: seq<real>, a: real)
    requires a >= 0.0
    ensures TotalSaved(transactions + [a], purchases) >= TotalSaved(transactions, purchases)
    ensures Sum(transactions) >= Sum(purchases) ==>
      TotalSaved(transactions + [a], purchases) == TotalSaved(transactions, purchases) + a
  {
    SumAppend(transactions, a);
  }

  /** A recorded purchase of a non-negative amount never raises the total. */
  lemma TotalSavedPurchase(transactions: seq<real>, purchases: seq<real>, a: real)
    requires a >= 0.0
    ensures TotalSaved(transactions, purchases + [a]) <= TotalSaved(transactions, purchases)
  {
    SumAppend(purchases, a);
  }

  /** Appending one transaction and one purchase moves the net by their
      difference. */
  lemma {:induction false} TotalSavedAppend(transactions: seq<real>, purchases: seq<real>, t: real, p: real)
    ensures TotalSaved(transactions + [t], purchases + [p])
            == Max0(Sum(transactions) - Sum(purchases) + t - p)
  {
    SumAppend(transactions, t);
    SumAppend(purchases, p);
  }

  /** The transaction and purchase amounts `compute_total_saved` reads. */
  datatype Ledger = Ledger(transactions: seq<real>, purchases: seq<real>)

  function Saved(l: Ledger): real
  {
    TotalSaved(l.transactions, l.purchases)
  }

  /** What `purchase_target` records for a target of the given price, as
      written: a purchase of the price and also a spending transaction of
      minus the price. */
  function Purchase(l: Ledger, price: real): Ledger
  {
    Ledger(l.transactions + [-price], l.purchases + [price])
  }

  /** A purchase recorded once: the purchase row alone, which the total
      already subtracts. */
  function PurchaseOnce(l: Ledger, price: real): Ledger
  {
    Ledger(l.transactions, l.purchases + [price])
  }

  /** As written, buying a target takes its price off the total twice, once
      through the purchase and once through the spending transaction. */
  lemma TotalSavedAfterBuying(l: Ledger, price: real)
    ensures Saved(Purchase(l, price)) == Max0(Sum(l.transactions) - Sum(l.purchases) - 2.0 * price)
  {
    TotalSavedAppend(l.transactions, l.purchases, -price, price);
  }

  /** 100 deposited, then a target of price 30 bought: 40 is left, not 70. */
  lemma BuyingDeductsTwice()
    ensures Saved(Ledger([100.0], [])) == 100.0
    ensures Saved(Purchase(Ledger([100.0], []), 30.0)) == 40.0
  {
    assert [100.0][..0] == [];
    TotalSavedAfterBuying(Ledger([100.0], []), 30.0);
  }

  /** Recorded once, buying a target takes its price off the total once, and
      exactly when there was at least that much saved. */
  lemma TotalSavedAfterBuyingOnce(l: Ledger, price: real)
    ensures Saved(PurchaseOnce(l, price)) == Max0(Sum(l.transactions) - Sum(l.purchases) - price)
    ensures price >= 0.0 && Saved(l) >= price ==> Saved(PurchaseOnce(l, price)) == Saved(l) - price
  {
    SumAppend(l.purchases, price);
  }

  function Max0(x: real): real
  {
    if x > 0.0 then x else 0.0
  }

  // ---------------------------------------------------------------------
  // int() on a form field

  predicate IsDigit(c: char)
  {
    '0' <= c <= '9'
  }

  /** `s.isdigit()` for ASCII text: not empty, and every character a digit. */
  predicate IsDigits(s: string)
  {
    |s| > 0 && forall i :: 0 <= i < |s| ==> IsDigit(s[i])
  }

  function DigitValue(c: char): nat
    requires IsDigit(c)
  {
    c as int - '0' as int
  }

  /** The number written by a run of decimal digits. */
  function DigitsValue(s: string): nat
    requires forall i :: 0 <= i < |s| ==> IsDigit(s[i])
  {
    if |s| == 0 then 0
    else DigitsValue(s[..|s| - 1]) * 10 + DigitValue(s[|s| - 1])
  }

  /** `int(s)`: an optional sign followed by decimal digits, or a `ValueError`. */
  function ParseInt(s: string): Option<int>
  {
    if |s| > 0 && (s[0] == '-' || s[0] == '+') && IsDigits(s[1..]) then
      Some(if s[0] == '-' then -(DigitsValue(s[1..]) as int) else DigitsValue(s[1..]))
    else if IsDigits(s) then Some(DigitsValue(s))
    else None
  }

  /** The decimal digits of n, as `str(n)` writes them. */
  function Digits(n: nat): (s: string)
    ensures IsDigits(s)
  {
    if n < 10 then [('0' as int + n) as char]
    else Digits(n / 10) + [('0' as int + n % 10) as char]
  }

  /** `str(n)`. */
  function Show(n: int): string
  {
    if n < 0 then "-" + Digits(-n) else Digits(n)
  }

  lemma {:induction false} DigitsValueOfDigits(n: nat)
    ensures DigitsValue(Digits(n)) == n
  {
    if n >= 10 {
      DigitsValueOfDigits(n / 10);
      var s := Digits(n);
      assert s[..|s| - 1] == Digits(n / 10);
    }
  }

  /** `int(str(n)) == n`. */
  lemma ParseShow(n: int)
    ensures ParseInt(Show(n)) == Some(n)
  {
    if n < 0 {
      DigitsValueOfDigits(-n);
      assert Show(n)[1..] == Digits(-n);
    } else {
      DigitsValueOfDigits(n);
    }
  }

  // ---------------------------------------------------------------------
  // update_weight

  /** `max(0, min(100, n))`. */
  function ClampPct(n: int): (p: int)
    ensures 0 <= p <= 100
    ensures 0 <= n <= 100 ==> p == n
    ensures n < 0 ==> p == 0
    ensures n > 100 ==> p == 100
  {
    var m := if n < 100 then n else 100;
    if m > 0 then m else 0
  }

  /** `[t["weight"] for t in others]`: the weights of the targets other than
      the edited one, in order. */
  function OtherWeights(targets: seq<Item>, targetId: int): seq<real>
  {
    if |targets| == 0 then []
    else
      var last := targets[|targets| - 1];
      OtherWeights(targets[..|targets| - 1], targetId) + (if last.id != targetId then [last.w] else [])
  }

  /** `other_total`. */
  function OtherTotal(targets: seq<Item>, targetId: int): real
  {
    Sum(OtherWeights(targets, targetId))
  }

  /** The weight written for target t: the new percentage for the edited
      target, and for the others their old weight rescaled to share what is
      left, `round(w * (100 - pct) / other_total)`, or 0 when the others
      weigh nothing. */
  function NewWeight(t: Item, targetId: int, pct: int, otherTotal: real): int
  {
    if t.id == targetId then pct
    else if otherTotal > 0.0 then RoundHalfEven(Rescaled(t.w, pct, otherTotal))
    else 0
  }

  /** `t.weight * (100 - new_pct) / other_total`, before rounding. */
  function Rescaled(w: real, pct: int, otherTotal: real): real
    requires otherTotal > 0.0
  {
    w * (100 - pct) as real / otherTotal
  }

  /** The writes of the loop `for t in targets`, one per target, in order. */
  function Redistribute(targets: seq<Item>, targetId: int, pct: int): (writes: seq<Write>)
    ensures |writes| == |targets| && forall i :: 0 <= i < |targets| ==> writes[i].id == targets[i].id
  {
    var otherTotal := OtherTotal(targets, targetId);
    seq(|targets|, i requires 0 <= i < |targets| =>
      Write(targets[i].id, NewWeight(targets[i], targetId, pct, otherTotal)))
  }

  /** The outcome of `update_weight` given the two form fields (None when
      absent) and the stored targets: no writes when a field is missing, the
      `ValueError` of a field that is not an integer, otherwise the writes. */
  function UpdateWeightOutcome(targetField: Option<string>, pctField: Option<string>, targets: seq<Item>)
    : Result<seq<Write>, RequestError>
  {
    if targetField.None? || pctField.None? then Success([])
    else match ParseInt(targetField.value)
      case None => Failure(NotAnInteger(targetField.value))
      case Some(targetId) =>
        match ParseInt(pctField.value)
        case None => Failure(NotAnInteger(pctField.value))
        case Some(n) => Success(Redistribute(targets, targetId, ClampPct(n)))
  }

  method UpdateWeight(targetField: Option<string>, pctField: Option<string>, targets: seq<Item>)
    returns (r: Result<seq<Write>, RequestError>)
    ensures r == UpdateWeightOutcome(targetField, pctField, targets)
  {
    var writes;
    if targetField.None? || pctField.None? {
      return Success([]);
    }
    var targetId := ParseInt(targetField.value);
    if targetId.None? {
      return Failure(NotAnInteger(targetField.value));
    }
    var n := ParseInt(pctField.value);
    if n.None? {
      return Failure(NotAnInteger(pctField.value));
    }
    writes := RedistributeWeights(targets, targetId.value, ClampPct(n.value));
    return Success(writes);
  }

  /** The loop `for t in targets` of `update_weight`, one write per target. */
  method RedistributeWeights(targets: seq<Item>, targetId: int, newPct: int) returns (writes: seq<Write>)
    ensures writes == Redistribute(targets, targetId, newPct)
  {
    var otherTotal := OtherTotal(targets, targetId);
    ghost var all := Redistribute(targets, targetId, newPct);
    writes := [];
    var i := 0;
    while i < |targets|
      invariant 0 <= i <= |targets|
      invariant writes == all[..i]
    {
      var w := NextWrite(targets[i], targetId, newPct, otherTotal);
      RedistributeAt(targets, targetId, newPct, i);
      assert w == all[i];
      assert all[..i + 1] == all[..i] + [w];
      writes := writes + [w];
      i := i + 1;
    }
    assert all[..|targets|] == all;
  }

  /** The body of that loop for one target `t`. */
  method NextWrite(t: Item, targetId: int, newPct: int, otherTotal: real) returns (w: Write)
    ensures w == Write(t.id, NewWeight(t, targetId, newPct, otherTotal))
  {
    if t.id == targetId {
      w := Write(t.id, newPct);
    } else if otherTotal > 0.0 {
      var redistributed := RoundHalfEven(Rescaled(t.w, newPct, otherTotal));
      w := Write(t.id, redistributed);
    } else {
      w := Write(t.id, 0);
    }
  }

  /** With non-negative weights, no other target weighs more than all the
      others together. */
  lemma {:induction false} OtherWeightBelowTotal(targets: seq<Item>, targetId: int, i: nat)
    requires i < |targets| && targets[i].id != targetId
    requires forall k :: 0 <= k < |targets| ==> targets[k].w >= 0.0
    ensures 0.0 <= targets[i].w <= OtherTotal(targets, targetId)
  {
    var n := |targets|;
    var init := targets[..n - 1];
    var last := targets[n - 1];
    var before := OtherWeights(init, targetId);
    OtherWeightsNonNegative(init, targetId);
    SumNonNegative(before);
    if i < n - 1 {
      OtherWeightBelowTotal(init, targetId, i);
    }
    if last.id != targetId {
      assert OtherWeights(targets, targetId) == before + [last.w];
      SumAppend(before, last.w);
    } else {
      assert OtherWeights(targets, targetId) == before;
    }
  }

  lemma {:induction false} OtherWeightsNonNegative(targets: seq<Item>, targetId: int)
    requires forall k :: 0 <= k < |targets| ==> targets[k].w >= 0.0
    ensures NonNegative(OtherWeights(targets, targetId))
  {
    if |targets| > 0 {
      OtherWeightsNonNegative(targets[..|targets| - 1], targetId);
    }
  }

  /** With non-negative weights every write is a percentage: the edited
      target gets the clamped new value, and each other target at most what
      is left, 100 minus that value. */
  lemma RedistributeBounds(targets: seq<Item>, targetId: int, pct: int, i: nat)
    requires 0 <= pct <= 100 && i < |targets|
    requires forall k :: 0 <= k < |targets| ==> targets[k].w >= 0.0
    ensures targets[i].id == targetId ==> Redistribute(targets, targetId, pct)[i].weight == pct
    ensures targets[i].id != targetId ==> 0 <= Redistribute(targets, targetId, pct)[i].weight <= 100 - pct
  {
    var otherTotal := OtherTotal(targets, targetId);
    RedistributeAt(targets, targetId, pct, i);
    if targets[i].id != targetId {
      OtherWeightBelowTotal(targets, targetId, i);
    }
    NewWeightBounds(targets[i], targetId, pct, otherTotal);
  }

  lemma NewWeightBounds(t: Item, targetId: int, pct: int, otherTotal: real)
    requires 0 <= pct <= 100
    requires t.id != targetId ==> 0.0 <= t.w <= otherTotal
    ensures t.id == targetId ==> NewWeight(t, targetId, pct, otherTotal) == pct
    ensures t.id != targetId ==> 0 <= NewWeight(t, targetId, pct, otherTotal) <= 100 - pct
  {
    if t.id != targetId && otherTotal > 0.0 {
      RoundedShareBounds(t.w, pct, otherTotal);
    }
  }

  lemma RedistributeAt(targets: seq<Item>, targetId: int, pct: int, i: nat)
    requires i < |targets|
    ensures Redistribute(targets, targetId, pct)[i]
            == Write(targets[i].id, NewWeight(targets[i], targetId, pct, OtherTotal(targets, targetId)))
  {
  }

  lemma RoundedShareBounds(w: real, pct: int, total: real)
    requires 0.0 <= w <= total && total > 0.0 && 0 <= pct <= 100
    ensures 0 <= RoundHalfEven(Rescaled(w, pct, total)) <= 100 - pct
  {
    var x := Rescaled(w, pct, total);
    ScaledWithin(w, (100 - pct) as real, total);
    RoundHalfEvenMonotone(0.0, x);
    RoundHalfEvenMonotone(x, (100 - pct) as real);
    RoundHalfEvenOfInt(0);
    RoundHalfEvenOfInt(100 - pct);
  }

  lemma ScaledWithin(w: real, c: real, total: real)
    requires 0.0 <= w <= total && total > 0.0 && c >= 0.0
    ensures 0.0 <= w * c / total <= c
  {
    var f := w / total;
    assert 0.0 <= f <= 1.0;
    assert w * c / total == f * c;
    assert f * c <= 1.0 * c;
  }

  /** The number of targets carrying the edited id. */
  function EditedCount(targets: seq<Item>, targetId: int): nat
  {
    if |targets| == 0 then 0
    else EditedCount(targets[..|targets| - 1], targetId) + (if targets[|targets| - 1].id == targetId then 1 else 0)
  }

  /** p once for every target carrying the edited id. */
  function EditedShare(targets: seq<Item>, targetId: int, p: real): real
  {
    if |targets| == 0 then 0.0
    else EditedShare(targets[..|targets| - 1], targetId, p) + (if targets[|targets| - 1].id == targetId then p else 0.0)
  }

  lemma {:induction false} EditedShareCount(targets: seq<Item>, targetId: int, p: real)
    ensures EditedShare(targets, targetId, p) == p * EditedCount(targets, targetId) as real
  {
    if |targets| > 0 {
      var init := targets[..|targets| - 1];
      EditedShareCount(init, targetId, p);
      var c := EditedCount(init, targetId) as real;
      assert p * c + p == p * (c + 1.0);
    }
  }

  /** The unrounded value of every write: p for the edited target, the
      others' weight w times the common factor `(100 - pct) / other_total`. */
  function Ideal(targets: seq<Item>, targetId: int, p: real, factor: real): (x: seq<real>)
    ensures |x| == |targets|
  {
    seq(|targets|, i requires 0 <= i < |targets| =>
      if targets[i].id == targetId then p else targets[i].w * factor)
  }

  lemma IdealSum(targets: seq<Item>, targetId: int, p: real, factor: real)
    ensures Sum(Ideal(targets, targetId, p, factor))
            == EditedShare(targets, targetId, p) + Sum(OtherWeights(targets, targetId)) * factor
  {
    var mask := OtherMask(targets, targetId);
    var scaled := Scale(mask, factor);
    SumPointwise(EditedPart(targets, targetId, p), scaled, Ideal(targets, targetId, p, factor));
    SumEditedPart(targets, targetId, p);
    SumScaledOthers(targets, targetId, factor);
  }

  lemma SumScaledOthers(targets: seq<Item>, targetId: int, factor: real)
    ensures Sum(Scale(OtherMask(targets, targetId), factor)) == Sum(OtherWeights(targets, targetId)) * factor
  {
    SumScale(OtherMask(targets, targetId), factor);
    SumOtherMask(targets, targetId);
    ScaleEqual(Sum(OtherMask(targets, targetId)), Sum(OtherWeights(targets, targetId)), factor);
  }

  lemma ScaleEqual(a: real, b: real, f: real)
    requires a == b
    ensures a * f == b * f
  {
  }

  /** p at the edited positions, 0 elsewhere. */
  function EditedPart(targets: seq<Item>, targetId: int, p: real): (x: seq<real>)
    ensures |x| == |targets|
  {
    seq(|targets|, i requires 0 <= i < |targets| => if targets[i].id == targetId then p else 0.0)
  }

  /** The weight at the other positions, 0 at the edited ones. */
  function OtherMask(targets: seq<Item>, targetId: int): (x: seq<real>)
    ensures |x| == |targets|
  {
    seq(|targets|, i requires 0 <= i < |targets| => if targets[i].id == targetId then 0.0 else targets[i].w)
  }

  lemma {:induction false} SumEditedPart(targets: seq<Item>, targetId: int, p: real)
    ensures Sum(EditedPart(targets, targetId, p)) == EditedShare(targets, targetId, p)
  {
    var n := |targets|;
    if n > 0 {
      SumEditedPart(targets[..n - 1], targetId, p);
      assert EditedPart(targets, targetId, p)[..n - 1] == EditedPart(targets[..n - 1], targetId, p);
    }
  }

  lemma {:induction false} SumOtherMask(targets: seq<Item>, targetId: int)
    ensures Sum(OtherMask(targets, targetId)) == Sum(OtherWeights(targets, targetId))
  {
    var n := |targets|;
    if n > 0 {
      var init := targets[..n - 1];
      var last := targets[n - 1];
      var mask := OtherMask(targets, targetId);
      SumOtherMask(init, targetId);
      assert mask[..n - 1] == OtherMask(init, targetId);
      assert Sum(mask) == Sum(OtherMask(init, targetId)) + mask[n - 1];
      var before := OtherWeights(init, targetId);
      if last.id != targetId {
        assert OtherWeights(targets, targetId) == before + [last.w];
        SumAppend(before, last.w);
      } else {
        assert OtherWeights(targets, targetId) == before;
      }
    }
  }

  /** Rounding each term by at most half a point moves the sum by at most
      half a point per term. */
  lemma {:induction false} SumOfRounded(a: seq<real>, b: seq<int>)
    requires |a| == |b|
    requires forall i :: 0 <= i < |a| ==> a[i] - 0.5 <= b[i] as real <= a[i] + 0.5
    ensures Sum(a) - |a| as real / 2.0 <= SumInt(b) as real <= Sum(a) + |a| as real / 2.0
  {
    if |a| > 0 {
      SumOfRounded(a[..|a| - 1], b[..|b| - 1]);
    }
  }

  /** The written weights add up to 100 only approximately: to the new
      percentage once per edited target plus what is left, give or take half
      a point per target. */
  lemma RedistributeTotal(targets: seq<Item>, targetId: int, pct: int)
    requires OtherTotal(targets, targetId) > 0.0
    ensures var total := SumInt(WriteWeights(Redistribute(targets, targetId, pct))) as real;
      var expected := pct as real * EditedCount(targets, targetId) as real + (100 - pct) as real;
      expected - |targets| as real / 2.0 <= total <= expected + |targets| as real / 2.0
  {
    var factor := (100 - pct) as real / OtherTotal(targets, targetId);
    var ideal := Ideal(targets, targetId, pct as real, factor);
    var written := WriteWeights(Redistribute(targets, targetId, pct));
    forall i | 0 <= i < |targets| ensures ideal[i] - 0.5 <= written[i] as real <= ideal[i] + 0.5 {
      WriteNearIdeal(targets, targetId, pct, i);
    }
    SumOfRounded(ideal, written);
    IdealTotal(targets, targetId, pct);
  }

  /** Before rounding, the writes add up to the new percentage once per
      edited target plus the 100 - pct shared among the others. */
  lemma IdealTotal(targets: seq<Item>, targetId: int, pct: int)
    requires OtherTotal(targets, targetId) > 0.0
    ensures Sum(Ideal(targets, targetId, pct as real, (100 - pct) as real / OtherTotal(targets, targetId)))
            == pct as real * EditedCount(targets, targetId) as real + (100 - pct) as real
  {
    var otherTotal := OtherTotal(targets, targetId);
    var factor := (100 - pct) as real / otherTotal;
    IdealSum(targets, targetId, pct as real, factor);
    EditedShareCount(targets, targetId, pct as real);
    assert Sum(OtherWeights(targets, targetId)) == otherTotal;
    assert otherTotal * factor == (100 - pct) as real;
  }

  /** Each write is its unrounded value rounded to the nearest whole point. */
  lemma WriteNearIdeal(targets: seq<Item>, targetId: int, pct: int, i: nat)
    requires OtherTotal(targets, targetId) > 0.0 && i < |targets|
    ensures var ideal := Ideal(targets, targetId, pct as real, (100 - pct) as real / OtherTotal(targets, targetId));
      var written := WriteWeights(Redistribute(targets, targetId, pct));
      ideal[i] - 0.5 <= written[i] as real <= ideal[i] + 0.5
  {
    var otherTotal := OtherTotal(targets, targetId);
    var factor := (100 - pct) as real / otherTotal;
    var ideal := Ideal(targets, targetId, pct as real, factor);
    RedistributeAt(targets, targetId, pct, i);
    NewWeightNear(targets[i], targetId, pct, otherTotal);
    assert ideal[i] == if targets[i].id == targetId then pct as real else targets[i].w * factor;
  }

  lemma NewWeightNear(t: Item, targetId: int, pct: int, otherTotal: real)
    requires otherTotal > 0.0
    ensures var x := if t.id == targetId then pct as real else t.w * ((100 - pct) as real / otherTotal);
      x - 0.5 <= NewWeight(t, targetId, pct, otherTotal) as real <= x + 0.5
  {
    if t.id != targetId {
      var x := Rescaled(t.w, pct, otherTotal);
      assert x - 0.5 <= NewWeight(t, targetId, pct, otherTotal) as real <= x + 0.5;
      RescaledByFactor(t.w, pct, otherTotal);
    } else {
      RoundHalfEvenOfInt(pct);
    }
  }

  lemma RescaledByFactor(w: real, pct: int, total: real)
    requires total > 0.0
    ensures Rescaled(w, pct, total) == w * ((100 - pct) as real / total)
  {
  }

  /** Targets A (weight 40) and B (weight 60); setting A to 70 gives B 30. */
  lemma UpdateWeightExample()
    ensures UpdateWeightOutcome(Some("1"), Some("70"), [Item(1, 40.0), Item(2, 60.0)])
            == Success([Write(1, 70), Write(2, 30)])
  {
    assert ParseInt("1") == Some(1) by {
      assert DigitsValue("1"[..0]) == 0;
    }
    assert ParseInt("70") == Some(70) by {
      assert "70"[..1] == "7";
      assert DigitsValue("7"[..0]) == 0;
    }
    ExampleRedistribute();
  }

  lemma ExampleRedistribute()
    ensures Redistribute([Item(1, 40.0), Item(2, 60.0)], 1, 70) == [Write(1, 70), Write(2, 30)]
  {
    var targets := [Item(1, 40.0), Item(2, 60.0)];
    ExampleOtherTotal();
    var w := Redistribute(targets, 1, 70);
    RedistributeAt(targets, 1, 70, 0);
    RedistributeAt(targets, 1, 70, 1);
    assert Rescaled(60.0, 70, 60.0) == 30 as real;
    RoundHalfEvenOfInt(30);
    assert w == [w[0], w[1]];
  }

  lemma ExampleOtherTotal()
    ensures OtherTotal([Item(1, 40.0), Item(2, 60.0)], 1) == 60.0
  {
    var targets := [Item(1, 40.0), Item(2, 60.0)];
    assert targets[..1] == [Item(1, 40.0)];
    assert targets[..1][..0] == [];
    assert OtherWeights(targets, 1) == [60.0];
    assert [60.0][..0] == [];
  }

  /** The rescaling need not add up to 100: three targets of weight 1 with
      the first set to 1 leave 99 for the other two, 49.5 each, which
      `round` takes to 50, so the writes are 1, 50 and 50, 101 in all. */
  lemma RedistributeDriftExample()
    ensures var writes := Redistribute([Item(1, 1.0), Item(2, 1.0), Item(3, 1.0)], 1, 1);
      writes == [Write(1, 1), Write(2, 50), Write(3, 50)] && SumInt(WriteWeights(writes)) == 101
  {
    var targets := [Item(1, 1.0), Item(2, 1.0), Item(3, 1.0)];
    DriftOtherTotal();
    assert Rescaled(1.0, 1, 2.0) == 49.5;
    assert RoundHalfEven(49.5) == 50;
    var w := Redistribute(targets, 1, 1);
    RedistributeAt(targets, 1, 1, 0);
    RedistributeAt(targets, 1, 1, 1);
    RedistributeAt(targets, 1, 1, 2);
    assert w == [w[0], w[1], w[2]];
    assert WriteWeights(w) == [1, 50, 50];
    assert SumInt([1, 50, 50]) == 101 by {
      assert [1, 50, 50][..2] == [1, 50];
      assert [1, 50][..1] == [1];
      assert [1][..0] == [];
    }
  }

  lemma DriftOtherTotal()
    ensures OtherTotal([Item(1, 1.0), Item(2, 1.0), Item(3, 1.0)], 1) == 2.0
  {
    var targets := [Item(1, 1.0), Item(2, 1.0), Item(3, 1.0)];
    assert targets[..1][..0] == [];
    assert OtherWeights(targets[..1], 1) == [];
    assert targets[..2][..1] == targets[..1];
    assert OtherWeights(targets[..2], 1) == [1.0];
    assert targets[..3] == targets;
    assert OtherWeights(targets, 1) == [1.0, 1.0];
    assert [1.0, 1.0][..1] == [1.0];
    assert [1.0, 1.0][..1][..0] == [];
  }

  // ---------------------------------------------------------------------
  // add_target

  /** The raw weight given to a new target. In manual mode, the submitted
      `weight` if it is a non-empty run of digits, else 0; otherwise the mean
      weight of the existing targets, or 100 when there are none. */
  function InitialWeight(mode: Option<string>, raw: Option<string>, existing: seq<Item>): (w: real)
    ensures mode == Some("manual") ==> w >= 0.0 && w == w.Floor as real
    ensures mode == Some("manual") && (raw.None? || !IsDigits(raw.value)) ==> w == 0.0
    ensures mode == Some("manual") && raw.Some? && IsDigits(raw.value) ==> w == DigitsValue(raw.value) as real
    ensures mode != Some("manual") && |existing| > 0 ==> w * |existing| as real == Sum(RawWeights(existing))
    ensures mode != Some("manual") && |existing| == 0 ==> w == 100.0
  {
    if mode == Some("manual") then
      if raw.Some? && raw.value != "" && IsDigits(raw.value) then DigitsValue(raw.value) as real else 0.0
    else if |existing| > 0 then Sum(RawWeights(existing)) / |existing| as real
    else 100.0
  }

  /** In manual mode, a weight submitted as `str(n)` is taken as n. */
  lemma ManualWeight(n: nat, existing: seq<Item>)
    ensures InitialWeight(Some("manual"), Some(Digits(n)), existing) == n as real
  {
    DigitsValueOfDigits(n);
  }

  /** The writes of `for tid, pct in normalized.items()`, one per item in
      the order of `items`. */
  function WritesOf(items: seq<Item>): (writes: seq<Write>)
    ensures |writes| == |items|
    ensures forall k :: 0 <= k < |items| ==> writes[k].id == items[k].id
    ensures WriteWeights(writes) == Normalized(items)
  {
    Labelled(items, Normalized(items))
  }

  /** One write per item, in order, carrying the matching percentage. */
  function Labelled(items: seq<Item>, pct: seq<int>): (writes: seq<Write>)
    requires |pct| == |items|
    ensures |writes| == |items|
    ensures forall k :: 0 <= k < |items| ==> writes[k].id == items[k].id
    ensures WriteWeights(writes) == pct
  {
    seq(|items|, k requires 0 <= k < |items| => Write(items[k].id, pct[k]))
  }

  /** The persisting loop, reading each weight from the dictionary returned
      by `normalize_to_100` (the items' percentages `pct`). */
  method Persist(items: seq<Item>, normalized: map<int, int>, ghost pct: seq<int>) returns (writes: seq<Write>)
    requires Reports(items, normalized, pct)
    ensures writes == Labelled(items, pct)
  {
    ghost var all := Labelled(items, pct);
    writes := [];
    var k := 0;
    while k < |items|
      invariant 0 <= k <= |items|
      invariant writes == all[..k]
    {
      var tid := items[k].id;
      var w := Write(tid, normalized[tid]);
      assert w == all[k];
      assert all[..k + 1] == all[..k] + [w];
      writes := writes + [w];
      k := k + 1;
    }
    assert all[..|items|] == all;
  }

  lemma DistinctAppend(items: seq<Item>, x: Item)
    requires DistinctIds(items) && x.id !in Ids(items)
    ensures DistinctIds(items + [x])
  {
    forall a | 0 <= a < |items| ensures items[a].id != x.id {
      assert items[a] in items;
    }
  }

  /** `add_target`: `float(price)` must succeed (otherwise the `ValueError`
      ends the request before anything is stored); then the new target is
      stored with its initial weight (after the existing ones, under a fresh
      id), and every target's weight is normalised to 100 and written back. */
  method AddTarget(existing: seq<Item>, newId: int, price: FieldValue, mode: Option<string>, raw: Option<string>)
    returns (outcome: Result<seq<Write>, RequestError>)
    requires DistinctIds(existing) && newId !in Ids(existing)
    ensures !price.Number? ==> outcome == Failure(NotANumber)
    ensures price.Number? ==>
      outcome == Success(WritesOf(existing + [Item(newId, InitialWeight(mode, raw, existing))]))
  {
    if !price.Number? {
      return Failure(NotANumber);
    }
    var newWeight := InitialWeight(mode, raw, existing);
    var allTargets := existing + [Item(newId, newWeight)];
    DistinctAppend(existing, Item(newId, newWeight));
    var normalized := NormalizeTo100(allTargets);
    var writes := Persist(allTargets, normalized, Normalized(allTargets));
    return Success(writes);
  }

  /** The very first target, added in the default mode, gets all 100 points. */
  lemma AddFirstTarget(newId: int, mode: Option<string>, raw: Option<string>)
    requires mode != Some("manual")
    ensures WritesOf([Item(newId, InitialWeight(mode, raw, []))]) == [Write(newId, 100)]
  {
    var items := [Item(newId, 100.0)];
    assert Clamped(items) == [100.0];
    assert Sum(Clamped(items)) == 100.0 by {
      assert Clamped(items)[..0] == [];
    }
    NormalizedSum(items);
    assert SumInt(Normalized(items)) == Normalized(items)[0] by {
      assert Normalized(items)[..0] == [];
    }
  }

  /** In the default mode, with existing weights that are non-negative and
      not all 0, the new target gets an equal share: its exact share is
      100 / (n + 1) for n existing targets, rounded down or up. */
  lemma AddTargetEqualShare(existing: seq<Item>, newId: int, mode: Option<string>, raw: Option<string>)
    requires mode != Some("manual") && |existing| > 0
    requires forall k :: 0 <= k < |existing| ==> existing[k].w >= 0.0
    requires Sum(RawWeights(existing)) > 0.0
    ensures var n := |existing|;
      var share := 100.0 / (n + 1) as real;
      var w := WritesOf(existing + [Item(newId, InitialWeight(mode, raw, existing))])[n].weight;
      w == share.Floor || w == share.Floor + 1
  {
    var n := |existing|;
    var total := Sum(RawWeights(existing));
    var mean := total / n as real;
    var items := existing + [Item(newId, mean)];
    SumClampedAppend(existing, Item(newId, mean));
    MeanShare(total, n);
    NormalizedNear(items, n);
    assert WritesOf(items)[n].weight == WriteWeights(WritesOf(items))[n];
  }

  /** With non-negative existing weights, appending a target of weight m
      adds m to the total of the clamped weights. */
  lemma SumClampedAppend(existing: seq<Item>, x: Item)
    requires forall k :: 0 <= k < |existing| ==> existing[k].w >= 0.0
    requires x.w >= 0.0
    ensures Sum(Clamped(existing + [x])) == Sum(RawWeights(existing)) + x.w
  {
    assert Clamped(existing) == RawWeights(existing);
    assert Clamped(existing + [x]) == Clamped(existing) + [x.w];
    SumAppend(Clamped(existing), x.w);
  }

  lemma MeanShare(total: real, n: nat)
    requires total > 0.0 && n > 0
    ensures (total / n as real) / (total + total / n as real) * 100.0 == 100.0 / (n + 1) as real
  {
    var m := total / n as real;
    assert total == m * n as real;
    assert total + m == m * (n + 1) as real;
  }

  // ---------------------------------------------------------------------
  // save_weights

  /** `key.startswith("weights[") and key.endswith("]")`. */
  predicate IsWeightKey(key: string)
  {
    |key| >= 8 && key[..8] == "weights[" && |key| >= 1 && key[|key| - 1] == ']'
  }

  /** `key[8:-1]`, the text between the brackets. */
  function KeyIdText(key: string): string
    requires IsWeightKey(key)
  {
    assert key[7] == '[';
    key[8..|key| - 1]
  }

  /** `"weights[" + str(id) + "]"`, the form key of a target's weight. */
  function WeightKey(id: int): string
  {
    "weights[" + Show(id) + "]"
  }

  lemma WeightKeyRoundTrip(id: int)
    ensures IsWeightKey(WeightKey(id)) && ParseInt(KeyIdText(WeightKey(id))) == Some(id)
  {
    var key := WeightKey(id);
    assert key[..8] == "weights[";
    assert KeyIdText(key) == Show(id);
    ParseShow(id);
  }

  /** `raw[id] = w` on a dictionary kept as the list of its entries in
      insertion order: an existing key keeps its place and gets the new value,
      a new key goes last. */
  function Put(raw: seq<Item>, id: int, w: real): (r: seq<Item>)
    requires DistinctIds(raw)
  {
    if id in Ids(raw) then seq(|raw|, k requires 0 <= k < |raw| => if raw[k].id == id then Item(id, w) else raw[k])
    else raw + [Item(id, w)]
  }

  /** After `raw[id] = w` the keys are the old ones and id, still distinct;
      id maps to w and every other entry is unchanged, in its place. */
  lemma PutFacts(raw: seq<Item>, id: int, w: real)
    requires DistinctIds(raw)
    ensures var r := Put(raw, id, w);
      Ids(r) == Ids(raw) + {id} && DistinctIds(r) &&
      (forall k :: 0 <= k < |r| && r[k].id == id ==> r[k].w == w) &&
      (forall k :: 0 <= k < |raw| && raw[k].id != id ==> k < |r| && r[k] == raw[k])
  {
    var r := Put(raw, id, w);
    if id in Ids(raw) {
      var x :| x in raw && x.id == id;
      var p :| 0 <= p < |raw| && raw[p] == x;
      assert r == raw[p := Item(id, w)];
      forall y | y in Ids(r) ensures y in Ids(raw) {
        var z :| z in r && z.id == y;
        var q :| 0 <= q < |r| && r[q] == z;
        assert raw[q] in raw;
      }
      forall y | y in Ids(raw) ensures y in Ids(r) {
        var z :| z in raw && z.id == y;
        var q :| 0 <= q < |raw| && raw[q] == z;
        assert r[q] in r;
      }
    } else {
      forall a | 0 <= a < |raw| ensures raw[a].id != id {
        assert raw[a] in raw;
      }
      assert Ids(r) == Ids(raw) + {id} by {
        forall y | y in Ids(r) ensures y in Ids(raw) + {id} {
          var z :| z in r && z.id == y;
          var q :| 0 <= q < |r| && r[q] == z;
          if q < |raw| { assert raw[q] in raw; }
        }
        assert r[|raw|] in r;
        forall y | y in Ids(raw) ensures y in Ids(r) {
          var z :| z in raw && z.id == y;
          var q :| 0 <= q < |raw| && raw[q] == z;
          assert r[q] in r;
        }
      }
    }
  }

  /** One pass of the loop over `request.form.items()`. */
  function Collect1(raw: seq<Item>, key: string, value: FieldValue): (r: Result<seq<Item>, RequestError>)
    requires DistinctIds(raw)
    ensures r.Success? ==> DistinctIds(r.value)
  {
    if !IsWeightKey(key) then Success(raw)
    else match ParseInt(KeyIdText(key))
      case None => Failure(NotAnInteger(KeyIdText(key)))
      case Some(id) =>
        match value
        case Blank => PutFacts(raw, id, 0.0); Success(Put(raw, id, 0.0))
        case Number(x) => PutFacts(raw, id, x); Success(Put(raw, id, x))
        case Malformed => Failure(NotANumber)
  }

  /** The dictionary `raw` after the loop over the form fields, or the first
      `ValueError` it raises. */
  function Collect(form: seq<(string, FieldValue)>): (r: Result<seq<Item>, RequestError>)
    ensures r.Success? ==> DistinctIds(r.value)
  {
    if |form| == 0 then Success([])
    else match Collect(form[..|form| - 1])
      case Failure(e) => Failure(e)
      case Success(raw) => Collect1(raw, form[|form| - 1].0, form[|form| - 1].1)
  }

  /** The outcome of `save_weights`: the `ValueError` of a bad field, no
      writes when no weight was submitted, otherwise the normalised weights
      of the submitted ids, in the order they were first submitted. */
  function SaveWeightsOutcome(form: seq<(string, FieldValue)>): Result<seq<Write>, RequestError>
  {
    match Collect(form)
    case Failure(e) => Failure(e)
    case Success(raw) => Success(if |raw| == 0 then [] else WritesOf(raw))
  }

  method SaveWeights(form: seq<(string, FieldValue)>) returns (r: Result<seq<Write>, RequestError>)
    ensures r == SaveWeightsOutcome(form)
  {
    var raw: seq<Item> := [];
    var i := 0;
    while i < |form|
      invariant 0 <= i <= |form|
      invariant Collect(form[..i]) == Success(raw)
    {
      var (key, value) := form[i];
      assert form[..i + 1][..i] == form[..i];
      if IsWeightKey(key) {
        var targetId := ParseInt(KeyIdText(key));
        if targetId.None? {
          CollectKeepsFailure(form, i + 1);
          return Failure(NotAnInteger(KeyIdText(key)));
        }
        var rawWeight: real;
        match value {
          case Blank => rawWeight := 0.0;
          case Number(x) => rawWeight := x;
          case Malformed =>
            CollectKeepsFailure(form, i + 1);
            return Failure(NotANumber);
        }
        PutFacts(raw, targetId.value, rawWeight);
        raw := Put(raw, targetId.value, rawWeight);
      }
      i := i + 1;
    }
    assert form[..|form|] == form;
    if |raw| == 0 {
      return Success([]);
    }
    var normalized := NormalizeTo100(raw);
    var writes := Persist(raw, normalized, Normalized(raw));
    return Success(writes);
  }

  /** Once the loop has raised, the later fields do not matter. */
  lemma {:induction false} CollectKeepsFailure(form: seq<(string, FieldValue)>, i: nat)
    requires i <= |form| && Collect(form[..i]).Failure?
    ensures Collect(form) == Collect(form[..i])
  {
    if i < |form| {
      var init := form[..|form| - 1];
      assert init[..i] == form[..i];
      CollectKeepsFailure(init, i);
    } else {
      assert form[..i] == form;
    }
  }
  /** The ids named by the weight fields of a form, as `int(key[8:-1])`. */
  function SubmittedIds(form: seq<(string, FieldValue)>): set<int>
  {
    if |form| == 0 then {}
    else
      var key := form[|form| - 1].0;
      SubmittedIds(form[..|form| - 1]) +
        if IsWeightKey(key) && ParseInt(KeyIdText(key)).Some? then {ParseInt(KeyIdText(key)).value} else {}
  }

  /** When the loop over the form completes, `raw` holds exactly one entry
      per submitted id. */
  lemma {:induction false} CollectIds(form: seq<(string, FieldValue)>)
    requires Collect(form).Success?
    ensures Ids(Collect(form).value) == SubmittedIds(form)
  {
    if |form| > 0 {
      var init := form[..|form| - 1];
      var (key, value) := form[|form| - 1];
      CollectIds(init);
      var raw := Collect(init).value;
      if IsWeightKey(key) {
        var id := ParseInt(KeyIdText(key)).value;
        match value {
          case Blank => PutFacts(raw, id, 0.0);
          case Number(x) => PutFacts(raw, id, x);
        }
      }
    }
  }

  /** A form with no weight field writes nothing. */
  lemma {:induction false} SaveWeightsNoKeys(form: seq<(string, FieldValue)>)
    requires forall k :: 0 <= k < |form| ==> !IsWeightKey(form[k].0)
    ensures SaveWeightsOutcome(form) == Success([])
  {
    NoKeysCollectNothing(form);
  }

  lemma {:induction false} NoKeysCollectNothing(form: seq<(string, FieldValue)>)
    requires forall k :: 0 <= k < |form| ==> !IsWeightKey(form[k].0)
    ensures Collect(form) == Success([])
  {
    if |form| > 0 {
      NoKeysCollectNothing(form[..|form| - 1]);
    }
  }

  /** `raw[target_id] = raw_weight`: of two distinct keys naming the same id
      (`weights[1]` and then `weights[01]`), the later one decides its weight,
      a blank field counting as 0. The form holds each key at most once. */
  lemma CollectLastWins(form: seq<(string, FieldValue)>, id: int, value: FieldValue)
    requires Collect(form).Success? && !value.Malformed?
    requires forall k :: 0 <= k < |form| ==> form[k].0 != WeightKey(id)
    ensures var r := Collect(form + [(WeightKey(id), value)]);
      r.Success? && id in Ids(r.value) &&
      forall k :: 0 <= k < |r.value| && r.value[k].id == id ==>
        r.value[k].w == if value.Blank? then 0.0 else value.x
  {
    var extended := form + [(WeightKey(id), value)];
    assert extended[..|form|] == form;
    WeightKeyRoundTrip(id);
    var raw := Collect(form).value;
    PutFacts(raw, id, if value.Blank? then 0.0 else value.x);
  }

  /** There is one write per submitted id, and the weights `save_weights`
      writes add up to 100 when some submitted weight is positive, and are
      all 0 when none is. */
  lemma SaveWeightsTotal(form: seq<(string, FieldValue)>)
    requires SaveWeightsOutcome(form).Success?
    ensures var writes := SaveWeightsOutcome(form).value;
      (set k | 0 <= k < |writes| :: writes[k].id) == SubmittedIds(form) &&
      AddsUpTo100(Collect(form).value, writes)
  {
    SaveWeightsWriteIds(form);
    SaveWeightsSum(form);
  }

  lemma SaveWeightsSum(form: seq<(string, FieldValue)>)
    requires SaveWeightsOutcome(form).Success?
    ensures AddsUpTo100(Collect(form).value, SaveWeightsOutcome(form).value)
  {
    var raw := Collect(form).value;
    var writes := SaveWeightsOutcome(form).value;
    if |raw| > 0 {
      assert writes == WritesOf(raw);
      WritesOfSum(raw);
    } else {
      assert writes == [];
    }
  }

  /** The writes add up to 100 when some item's weight is positive, and are
      all 0 when none is. */
  predicate AddsUpTo100(items: seq<Item>, writes: seq<Write>)
  {
    ((exists j :: 0 <= j < |items| && items[j].w > 0.0) ==> SumInt(WriteWeights(writes)) == 100) &&
    ((forall j :: 0 <= j < |items| ==> items[j].w <= 0.0) ==> forall k :: 0 <= k < |writes| ==> writes[k].weight == 0)
  }

  lemma WritesOfSum(items: seq<Item>)
    ensures AddsUpTo100(items, WritesOf(items))
  {
    NormalizedSum(items);
    var writes := WritesOf(items);
    forall k | 0 <= k < |writes| ensures writes[k].weight == Normalized(items)[k] {
      assert WriteWeights(writes)[k] == writes[k].weight;
    }
  }

  lemma SaveWeightsWriteIds(form: seq<(string, FieldValue)>)
    requires SaveWeightsOutcome(form).Success?
    ensures var writes := SaveWeightsOutcome(form).value;
      (set k | 0 <= k < |writes| :: writes[k].id) == SubmittedIds(form)
  {
    var raw := Collect(form).value;
    CollectIds(form);
    var writes := SaveWeightsOutcome(form).value;
    forall y | y in Ids(raw) ensures y in (set k | 0 <= k < |writes| :: writes[k].id) {
      var x :| x in raw && x.id == y;
      var p :| 0 <= p < |raw| && raw[p] == x;
    }
  }
}
