/** Smooth weighted round robin. */
module SmoothWeighted {
  import opened Arithmetic

  datatype Item = Item(weight: int, current: int, effective: int, failed: int)

  /** Division that cuts toward zero. */
  function Quotient(a: int, b: int): (q: int)
    requires b > 0
    ensures a >= 0 ==> q >= 0
  {
    if a < 0 then -(-a / b) else
      DivNonNegative(a, b);
      a / b
  }

  /** What one failure too many costs. */
  function Fine(weight: int, maxFails: int): (f: int)
    requires maxFails > 0
    ensures weight >= 0 ==> f >= 1
  {
    Quotient(weight, maxFails) + 1
  }

  function AtLeastZero(x: int): int { if x < 0 then 0 else x }

  // ----- sums over items -----

  ghost function Weights(items: seq<Item>): int {
    if items == [] then 0 else items[0].weight + Weights(items[1..])
  }

  ghost function Currents(items: seq<Item>): int {
    if items == [] then 0 else items[0].current + Currents(items[1..])
  }

  ghost function Effectives(items: seq<Item>): int {
    if items == [] then 0 else items[0].effective + Effectives(items[1..])
  }

  lemma {:induction false} SumsSet(items: seq<Item>, i: nat, x: Item)
    requires i < |items|
    ensures Weights(items[i := x]) == Weights(items) - items[i].weight + x.weight
    ensures Currents(items[i := x]) == Currents(items) - items[i].current + x.current
    ensures Effectives(items[i := x]) == Effectives(items) - items[i].effective + x.effective
  {
    if i > 0 {
      SumsSet(items[1..], i - 1, x);
      assert items[i := x][1..] == items[1..][i - 1 := x];
    } else {
      assert items[0 := x][1..] == items[1..];
    }
  }

  lemma {:induction false} SumsAdd(items: seq<Item>, x: Item)
    ensures Weights(items + [x]) == Weights(items) + x.weight
    ensures Currents(items + [x]) == Currents(items) + x.current
  {
    if items != [] {
      SumsAdd(items[1..], x);
      assert (items + [x])[1..] == items[1..] + [x];
    } else {
      assert items + [x] == [x];
    }
  }

  // ----- one selection -----

  /** Every item gains its effective weight, and the effective weight recovers by one. */
  function Raised(x: Item): Item {
    x.(current := x.current + x.effective, effective := if x.effective < x.weight then x.effective + 1 else x.effective)
  }

  ghost function RaisedAll(items: seq<Item>): (r: seq<Item>)
    ensures |r| == |items| && forall i :: 0 <= i < |r| ==> r[i] == Raised(items[i])
  {
    seq(|items|, i requires 0 <= i < |items| => Raised(items[i]))
  }

  lemma {:induction false} RaisedSums(items: seq<Item>)
    ensures Currents(RaisedAll(items)) == Currents(items) + Effectives(items)
    ensures Weights(RaisedAll(items)) == Weights(items)
  {
    if items != [] {
      RaisedSums(items[1..]);
      assert RaisedAll(items)[1..] == RaisedAll(items[1..]);
    }
  }

  /** The first of those with the greatest current weight. */
  ghost predicate IsBest(items: seq<Item>, b: nat) {
    && b < |items|
    && (forall i :: 0 <= i < |items| ==> items[i].current <= items[b].current)
    && (forall i :: 0 <= i < b ==> items[i].current < items[b].current)
  }

  /** The item chosen pays the total. */
  ghost function Paid(items: seq<Item>, b: nat, total: int): seq<Item>
    requires b < |items|
  {
    items[b := items[b].(current := items[b].current - total)]
  }

  /** A selection: everybody is raised, the best pays. */
  ghost predicate Selects(items: seq<Item>, total: int, items': seq<Item>, b: nat) {
    IsBest(RaisedAll(items), b) && items' == Paid(RaisedAll(items), b, total)
  }

  /** The sum of the current weights moves by what was given out less the total. */
  lemma SelectionSum(items: seq<Item>, total: int, items': seq<Item>, b: nat)
    requires Selects(items, total, items', b)
    ensures Currents(items') == Currents(items) + Effectives(items) - total
    ensures Weights(items') == Weights(items)
  {
    RaisedSums(items);
    PaidSums(RaisedAll(items), b, total);
  }

  lemma PaidSums(items: seq<Item>, b: nat, total: int)
    requires b < |items|
    ensures Currents(Paid(items, b, total)) == Currents(items) - total &&
            Weights(Paid(items, b, total)) == Weights(items)
  {
    SumsSet(items, b, items[b].(current := items[b].current - total));
  }

  /** Effective weights between nothing and the weight. */
  ghost predicate Bounded(items: seq<Item>) {
    forall i :: 0 <= i < |items| ==> 0 <= items[i].effective <= items[i].weight
  }

  /** No effective weight is reduced. */
  ghost predicate Full(items: seq<Item>) {
    forall i :: 0 <= i < |items| ==> items[i].effective == items[i].weight
  }

  lemma {:induction false} FullSum(items: seq<Item>)
    requires Bounded(items)
    ensures Effectives(items) <= Weights(items) && (Effectives(items) == Weights(items) <==> Full(items))
  {
    if items != [] {
      FullSum(items[1..]);
      assert items == [items[0]] + items[1..];
    }
  }

  /** The total subtracted is that of the fixed weights, so a selection keeps the sum of the current
      weights just when no effective weight is reduced; otherwise the sum sinks, for good. */
  lemma SumKept(items: seq<Item>, items': seq<Item>, b: nat)
    requires Bounded(items) && Selects(items, Weights(items), items', b)
    ensures Currents(items') == Currents(items) <==> Full(items)
    ensures Currents(items') <= Currents(items) && Bounded(items')
  {
    SelectionSum(items, Weights(items), items', b);
    FullSum(items);
  }

  // ----- fairness -----

  /** All current weights are zero, nothing is reduced. */
  ghost predicate Fresh(items: seq<Item>) {
    Full(items) && forall i :: 0 <= i < |items| ==> items[i].weight >= 0 && items[i].current == 0
  }

  /** A run of selections: the states and the choices, starting from the first state. */
  ghost predicate Run(states: seq<seq<Item>>, picks: seq<nat>, total: int) {
    && |states| == |picks| + 1
    && forall k :: 0 <= k < |picks| ==> Selects(states[k], total, states[k + 1], picks[k])
  }

  /** How often `i` is among the first `k` choices. */
  ghost function Times(picks: seq<nat>, k: nat, i: nat): nat
    requires k <= |picks|
  {
    if k == 0 then 0 else Times(picks, k - 1, i) + if picks[k - 1] == i then 1 else 0
  }

  /** What has been given to item `i` less what it has paid, and it never owes as much as the total. */
  ghost predicate Account(first: seq<Item>, now: seq<Item>, picks: seq<nat>, k: nat, total: int, i: nat)
    requires k <= |picks| && i < |first| == |now|
  {
    && now[i].weight == now[i].effective == first[i].weight && now[i].failed == first[i].failed
    && now[i].current == k * first[i].weight - total * Times(picks, k, i)
    && now[i].current > -total
  }

  ghost predicate Accounts(first: seq<Item>, now: seq<Item>, picks: seq<nat>, k: nat, total: int)
    requires k <= |picks|
  {
    |now| == |first| && forall i :: 0 <= i < |first| ==> Account(first, now, picks, k, total, i)
  }

  /** The best of items whose current weights sum to something positive is positive. */
  lemma {:induction false} SomePositive(items: seq<Item>, m: int)
    requires forall i :: 0 <= i < |items| ==> items[i].current <= m
    ensures Currents(items) > 0 ==> m > 0
  {
    if items != [] {
      assert items[0].current <= m;
      SomePositive(items[1..], m);
    }
  }

  lemma AccountStep(first: seq<Item>, now: seq<Item>, next: seq<Item>, picks: seq<nat>, k: nat, total: int, i: nat)
    requires k < |picks| && i < |first| == |now| && Account(first, now, picks, k, total, i) && first[i].weight >= 0
    requires Selects(now, total, next, picks[k]) && RaisedAll(now)[picks[k]].current > 0
    ensures |next| == |first| && Account(first, next, picks, k + 1, total, i)
  {
    var w, t := first[i].weight, Times(picks, k, i);
    assert (k + 1) * w == k * w + w;
    assert total * (t + 1) == total * t + total;
  }

  lemma {:induction false} AccountsHold(states: seq<seq<Item>>, picks: seq<nat>, k: nat)
    requires k <= |picks| && states != [] && Fresh(states[0]) && Weights(states[0]) > 0
    requires Run(states, picks, Weights(states[0]))
    ensures Accounts(states[0], states[k], picks, k, Weights(states[0])) && Currents(states[k]) == 0
    ensures Weights(states[k]) == Weights(states[0])
  {
    var first, total := states[0], Weights(states[0]);
    if k == 0 {
      ZeroSum(first);
      forall i | 0 <= i < |first| ensures Account(first, first, picks, 0, total, i) {}
    } else {
      var j := k - 1;
      AccountsHold(states, picks, j);
      var now, next, b := states[j], states[k], picks[j];
      assert Selects(now, total, next, b);
      StillFull(first, now, picks, j, total);
      FullSum(now);
      SelectionSum(now, total, next, b);
      RaisedSums(now);
      SomePositive(RaisedAll(now), RaisedAll(now)[b].current);
      forall i | 0 <= i < |first| ensures Account(first, next, picks, k, total, i) {
        assert Account(first, now, picks, j, total, i);
        AccountStep(first, now, next, picks, j, total, i);
      }
    }
  }

  lemma StillFull(first: seq<Item>, now: seq<Item>, picks: seq<nat>, k: nat, total: int)
    requires k <= |picks| && Accounts(first, now, picks, k, total) && Fresh(first)
    ensures Full(now) && Bounded(now)
  {
    forall i | 0 <= i < |now| ensures now[i].effective == now[i].weight >= 0 {
      assert Account(first, now, picks, k, total, i);
    }
  }

  lemma {:induction false} ZeroSum(items: seq<Item>)
    requires forall i :: 0 <= i < |items| ==> items[i].current == 0
    ensures Currents(items) == 0
  {
    if items != [] {
      ZeroSum(items[1..]);
    }
  }

  /** In every run from a fresh start, after any number `k` of selections, the current weights sum to
      zero and no item has been chosen as often as one more than its share of `k` would allow. */
  lemma Smooth(states: seq<seq<Item>>, picks: seq<nat>, k: nat, i: nat)
    requires k <= |picks| && states != [] && Fresh(states[0]) && Weights(states[0]) > 0
    requires Run(states, picks, Weights(states[0])) && i < |states[0]|
    ensures Currents(states[k]) == 0
    ensures Weights(states[0]) * Times(picks, k, i) < k * states[0][i].weight + Weights(states[0])
  {
    AccountsHold(states, picks, k);
    assert Account(states[0], states[k], picks, k, Weights(states[0]), i);
  }

  lemma {:induction false} AllZero(items: seq<Item>, i: nat)
    requires Currents(items) == 0 && i < |items| && forall j :: 0 <= j < |items| ==> items[j].current >= 0
    ensures items[i].current == 0
  {
    NotNegative(items[1..]);
    if i > 0 {
      AllZero(items[1..], i - 1);
    }
  }

  lemma {:induction false} NotNegative(items: seq<Item>)
    requires forall j :: 0 <= j < |items| ==> items[j].current >= 0
    ensures Currents(items) >= 0
  {
    if items != [] {
      NotNegative(items[1..]);
    }
  }

  /** After as many selections as the weights sum to, every item has been chosen exactly as often as
      its weight says, and everything is as it was at the start. */
  lemma FullRound(states: seq<seq<Item>>, picks: seq<nat>, total: nat)
    requires total <= |picks| && states != [] && Fresh(states[0]) && Weights(states[0]) == total > 0
    requires Run(states, picks, total)
    ensures forall i :: 0 <= i < |states[0]| ==> Times(picks, total, i) == states[0][i].weight
    ensures states[total] == states[0]
  {
    var first, now := states[0], states[total];
    AccountsHold(states, picks, total);
    forall i | 0 <= i < |first| ensures now[i].current >= 0 {
      assert Account(first, now, picks, total, total, i);
      Share(total, first[i].weight, Times(picks, total, i), now[i].current);
    }
    forall i | 0 <= i < |first| ensures Times(picks, total, i) == first[i].weight && now[i] == first[i] {
      assert Account(first, now, picks, total, total, i);
      Share(total, first[i].weight, Times(picks, total, i), now[i].current);
      AllZero(now, i);
    }
  }

  lemma Share(total: int, w: int, t: int, current: int)
    requires total > 0 && current == total * w - total * t && current > -total
    ensures current >= 0 && (current == 0 ==> t == w)
  {
    var d := w - t;
    assert total * w - total * t == total * d;
    Sign(total, d);
    Sign(total, d + 1);
    assert total * (d + 1) == total * d + total;
  }

  lemma Sign(a: int, b: int)
    requires a > 0
    ensures (b <= 0 ==> a * b <= 0) && (b > 0 ==> a * b > 0)
  {
  }

  lemma SelectsUnique(items: seq<Item>, total: int, one: seq<Item>, b: nat, two: seq<Item>, c: nat)
    requires Selects(items, total, one, b) && Selects(items, total, two, c)
    ensures b == c && one == two
  {
  }

  /** The choices repeat themselves from round to round. */
  lemma {:induction false} Periodic(states: seq<seq<Item>>, picks: seq<nat>, total: nat, k: nat)
    requires states != [] && Fresh(states[0]) && Weights(states[0]) == total > 0 && Run(states, picks, total)
    requires k + total <= |picks|
    ensures states[k + total] == states[k] && (k + total < |picks| ==> picks[k + total] == picks[k])
  {
    if k == 0 {
      FullRound(states, picks, total);
    } else {
      var j := k - 1;
      Periodic(states, picks, total, j);
      assert Selects(states[j], total, states[j + 1], picks[j]);
      assert Selects(states[j + total], total, states[j + total + 1], picks[j + total]);
      SelectsUnique(states[j], total, states[j + 1], picks[j], states[j + total + 1], picks[j + total]);
    }
    if k + total < |picks| {
      assert Selects(states[k], total, states[k + 1], picks[k]);
      assert Selects(states[k + total], total, states[k + total + 1], picks[k + total]);
      SelectsUnique(states[k], total, states[k + 1], picks[k], states[k + total + 1], picks[k + total]);
    }
  }

  // ----- the selector -----

  const MAX_FAILS := 10

  class Selector {
    var n: int
    var totalWeight: int
    const maxFails: int
    var items: seq<Item>

    ghost predicate Valid()
      reads this
    {
      n == |items| && totalWeight == Weights(items) && maxFails > 0
    }

    constructor (maxFails: int)
      ensures Valid() && items == [] && this.maxFails == if maxFails > 0 then maxFails else MAX_FAILS
    {
      n, totalWeight, items := 0, 0, [];
      this.maxFails := if maxFails > 0 then maxFails else MAX_FAILS;
    }

    method Add(weight: int)
      requires Valid()
      modifies this
      ensures Valid() && items == old(items) + [Item(weight, 0, weight, 0)]
      ensures Currents(items) == Currents(old(items)) && totalWeight == old(totalWeight) + weight
    {
      SumsAdd(items, Item(weight, 0, weight, 0));
      items := items + [Item(weight, 0, weight, 0)];
      n := n + 1;
      totalWeight := totalWeight + weight;
    }

    method RemoveAll()
      modifies this
      ensures n == 0 && totalWeight == 0 && items == []
    {
      items, n, totalWeight := [], 0, 0;
    }

    /** Back to a fresh start. */
    method Reset()
      requires Valid()
      modifies this`items
      ensures Valid() && Full(items) && Currents(items) == 0 && |items| == |old(items)|
      ensures (forall i :: 0 <= i < |items| ==> items[i].weight >= 0) ==> Fresh(items)
      ensures forall i :: 0 <= i < |items| ==>
                items[i].weight == old(items)[i].weight && items[i].failed == old(items)[i].failed
    {
      for i := 0 to |items|
        invariant |items| == |old(items)| == n && totalWeight == Weights(items)
        invariant forall j :: 0 <= j < |items| ==>
                    items[j].weight == old(items)[j].weight && items[j].failed == old(items)[j].failed
        invariant forall j :: 0 <= j < i ==> items[j].effective == items[j].weight && items[j].current == 0
      {
        var x := items[i].(effective := items[i].weight, current := 0);
        SumsSet(items, i, x);
        items := items[i := x];
      }
      ZeroSum(items);
    }

    /** Nobody, the only one, or the one the selection step chooses. */
    method Next() returns (best: int)
      requires Valid()
      modifies this`items
      ensures Valid()
      ensures n == 0 ==> best == -1 && items == old(items)
      ensures n == 1 ==> best == 0 && items == old(items)
      ensures n >= 2 ==> best >= 0 && Selects(old(items), totalWeight, items, best)
    {
      if n == 0 {
        return -1;
      }
      if n == 1 {
        return 0;
      }
      ghost var before := items;
      best := -1;
      for i := 0 to |items|
        invariant |items| == |before| == n
        invariant forall j :: 0 <= j < i ==> items[j] == Raised(before[j])
        invariant forall j :: i <= j < |items| ==> items[j] == before[j]
        invariant best == -1 <==> i == 0
        invariant i > 0 ==> 0 <= best < i
        invariant i > 0 ==> forall j :: 0 <= j < i ==> items[j].current <= items[best].current
        invariant i > 0 ==> forall j :: 0 <= j < best ==> items[j].current < items[best].current
      {
        items := items[i := Raised(items[i])];
        if best == -1 || items[i].current > items[best].current {
          best := i;
        }
      }
      assert items == RaisedAll(before);
      items := items[best := items[best].(current := items[best].current - totalWeight)];
      SelectionSum(before, totalWeight, items, best);
    }

    /** Reports how a chosen item did; too many failures in a row cost effective weight. */
    method Release(index: int, success: bool)
      requires Valid()
      modifies this`items
      ensures Valid() && Currents(items) == Currents(old(items))
      ensures Bounded(old(items)) ==> Bounded(items)
      ensures !(0 <= index < n) ==> items == old(items)
      ensures 0 <= index < n ==>
                var x, y := old(items)[index], items[index];
                && items == old(items)[index := y] && y.weight == x.weight && y.current == x.current
                && y.failed == (if success then 0 else x.failed + 1)
                && y.effective ==
                   AtLeastZero(if y.failed > maxFails then x.effective - Fine(x.weight, maxFails) else x.effective)
    {
      if index < 0 {
        return;
      }
      if n <= index {
        return;
      }
      var it := items[index];
      if success {
        it := it.(failed := 0);
      } else {
        it := it.(failed := it.failed + 1);
        if it.failed > maxFails {
          it := it.(effective := it.effective - Fine(it.weight, maxFails));
        }
      }
      if it.effective < 0 {
        it := it.(effective := 0);
      }
      SumsSet(items, index, it);
      items := items[index := it];
    }
  }

  // ----- the selector makes such runs -----

  /** Any number of selections is a run. */
  method PickMany(s: Selector, rounds: nat) returns (picks: seq<nat>, ghost states: seq<seq<Item>>)
    requires s.Valid() && s.n >= 2
    modifies s`items
    ensures s.Valid() && |picks| == rounds && Run(states, picks, s.totalWeight)
    ensures states[0] == old(s.items) && states[rounds] == s.items
  {
    picks, states := [], [s.items];
    for k := 0 to rounds
      invariant s.Valid() && |picks| == k && Run(states, picks, s.totalWeight)
      invariant states[0] == old(s.items) && states[k] == s.items
    {
      ghost var before := s.items;
      var b := s.Next();
      RunOn(states, picks, s.totalWeight, s.items, b);
      picks, states := picks + [b], states + [s.items];
    }
  }

  lemma RunOn(states: seq<seq<Item>>, picks: seq<nat>, total: int, items: seq<Item>, b: nat)
    requires Run(states, picks, total) && Selects(states[|picks|], total, items, b)
    ensures Run(states + [items], picks + [b], total)
  {
    var ss, ps := states + [items], picks + [b];
    forall k | 0 <= k < |ps| ensures Selects(ss[k], total, ss[k + 1], ps[k]) {
      if k < |picks| {
        assert ss[k] == states[k] && ss[k + 1] == states[k + 1] && ps[k] == picks[k];
      } else {
        assert ss[k] == states[k] && ss[k + 1] == items && ps[k] == b;
      }
    }
  }

  /** After a reset, as many selections as the weights sum to choose each item as often as its weight says, and
      leave the selector reset. */
  method FairRound(s: Selector) returns (picks: seq<nat>)
    requires s.Valid() && s.n >= 2 && s.totalWeight > 0 && forall i :: 0 <= i < |s.items| ==> s.items[i].weight >= 0
    modifies s`items
    ensures s.Valid() && |picks| == s.totalWeight && Fresh(s.items) && |s.items| == |old(s.items)|
    ensures forall i :: 0 <= i < |s.items| ==> Times(picks, |picks|, i) == s.items[i].weight == old(s.items)[i].weight
  {
    s.Reset();
    ghost var states;
    picks, states := PickMany(s, s.totalWeight);
    FullRound(states, picks, s.totalWeight);
  }

  method FailOnce(s: Selector)
    requires s.Valid() && s.n == 2 && s.maxFails == 1 && s.items[0].weight == 1 && s.items[0].effective == 1 &&
             s.items[0].failed <= 1
    modifies s`items
    ensures s.Valid() && Currents(s.items) == Currents(old(s.items))
    ensures var x := old(s.items)[0];
            s.items == old(s.items)[0 := x.(failed := x.failed + 1, effective := if x.failed + 1 > 1 then 0 else 1)]
  {
    assert Fine(1, 1) == 2;
    s.Release(0, false);
  }

  /** Two items of weight one, the first of which has failed twice where one failure is tolerated. */
  method TwoFailed() returns (s: Selector)
    ensures fresh(s) && s.Valid() && Currents(s.items) == 0 && s.items == [Item(1, 0, 0, 2), Item(1, 0, 1, 0)]
  {
    s := new Selector(1);
    s.Add(1);
    s.Add(1);
    assert s.items == [Item(1, 0, 1, 0), Item(1, 0, 1, 0)];
    ZeroSum(s.items);
    FailOnce(s);
    FailOnce(s);
  }

  /** The next selection makes the sum of the current weights sink below zero. */
  method SumSinks() returns (s: Selector)
    ensures s.Valid() && Currents(s.items) < 0
  {
    s := TwoFailed();
    ghost var before := s.items;
    assert before[0].effective == 0 && !Full(before);
    var b := s.Next();
    SumKept(before, s.items, b);
  }
}
