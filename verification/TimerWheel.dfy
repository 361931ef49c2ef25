/** The hierarchical timer wheel, against a bag of timers that fires exactly what is due. */
module TimerWheel {
  import opened TimerClock

  datatype Timer = Timer(id: nat, trig: int, loop: bool, period: int)

  // ----- lists ordered by trigger time -----

  ghost predicate ByTrig(s: seq<Timer>) {
    forall i, j :: 0 <= i < j < |s| ==> s[i].trig <= s[j].trig
  }

  /** `s` with `n` behind everything that triggers no later. */
  ghost function Placed(s: seq<Timer>, n: Timer): seq<Timer> {
    if s == [] || n.trig < s[0].trig then [n] + s else [s[0]] + Placed(s[1..], n)
  }

  lemma {:induction false} PlacedBag(s: seq<Timer>, n: Timer)
    ensures multiset(Placed(s, n)) == multiset(s) + multiset{n}
  {
    if s != [] && s[0].trig <= n.trig {
      PlacedBag(s[1..], n);
      assert s == [s[0]] + s[1..];
    }
  }

  lemma PlacedIn(s: seq<Timer>, n: Timer)
    ensures forall m :: m in Placed(s, n) <==> m == n || m in s
  {
    PlacedBag(s, n);
    forall m ensures m in Placed(s, n) <==> m in multiset(Placed(s, n)) {}
  }

  lemma {:induction false} PlacedSorted(s: seq<Timer>, n: Timer)
    requires ByTrig(s)
    ensures ByTrig(Placed(s, n))
  {
    if s != [] && s[0].trig <= n.trig {
      PlacedSorted(s[1..], n);
      PlacedIn(s[1..], n);
      var p := Placed(s[1..], n);
      forall i | 0 <= i < |p| ensures s[0].trig <= p[i].trig { assert p[i] in p; }
    }
  }

  lemma {:induction false} PlacedAt(s: seq<Timer>, n: Timer, k: nat)
    requires k <= |s| && (forall i :: 0 <= i < k ==> s[i].trig <= n.trig) && (k < |s| ==> n.trig < s[k].trig)
    ensures s[..k] + [n] + s[k..] == Placed(s, n)
    decreases k
  {
    if k > 0 {
      PlacedAt(s[1..], n, k - 1);
      assert s[..k] == [s[0]] + s[1..][..k - 1] && s[k..] == s[1..][k - 1..];
    }
  }

  // ----- slots -----

  /** Which list a timer `diff` nanoseconds ahead goes to. The test for seconds divides by a
      minute, as the one before it does, so list 1 is never chosen. */
  function LevelOf(diff: int): (level: int)
    ensures 0 <= level < 5 && level != 1
    ensures level >= 2 ==> diff >= UNITS[level]
    ensures level < 4 && diff > 0 ==> diff < UNITS[if level == 0 then 2 else level + 1]
  {
    if diff <= 0 then 0
    else if diff / DAY != 0 then 4
    else if diff / HOUR != 0 then 3
    else if diff / MINUTE != 0 then 2
    else if SecondNum(diff) != 0 then 1
    else 0
  }

  function SecondNum(expire: int): int { expire / MINUTE }

  /** The cascade's test for leaving a timer where it is. */
  predicate StaysAt(level: nat, diff: int)
    requires 1 <= level < 5
    ensures level >= 2 ==> (StaysAt(level, diff) <==> diff >= UNITS[level])
  {
    diff > 0 &&
    match level
    case 1 => SecondNum(diff) > 0
    case 2 => diff / MINUTE > 0
    case 3 => diff / HOUR > 0
    case _ => diff / DAY > 0
  }

  /** The trigger lies in a later unit of the list's level than the clock. */
  ghost predicate Ahead(level: nat, start: int, clock: int, n: Timer)
    requires level < 5
  {
    n.trig > clock && Count(level, n.trig - start) > Count(level, clock - start)
  }

  /** A list that holds no timer the next ticks could miss. */
  ghost predicate Settled(level: nat, start: int, clock: int, s: seq<Timer>)
    requires level < 5
  {
    ByTrig(s) && (level == 1 ==> s == []) && (level >= 2 ==> forall n :: n in s ==> Ahead(level, start, clock, n))
  }

  lemma PlacedSettled(level: nat, start: int, clock: int, s: seq<Timer>, n: Timer)
    requires start <= clock && level == LevelOf(n.trig - clock) && Settled(level, start, clock, s)
    ensures Settled(level, start, clock, Placed(s, n))
  {
    PlacedSorted(s, n);
    PlacedIn(s, n);
    if level >= 2 { UnitAhead(level, clock - start, n.trig - start); }
  }

  lemma UnitAhead(level: nat, a: int, b: int)
    requires 0 <= a && 2 <= level < 5 && b - a >= UNITS[level]
    ensures Count(level, b) > Count(level, a)
  {
    if level == 2 {
      assert b / MINUTE > a / MINUTE;
    } else if level == 3 {
      assert b / HOUR > a / HOUR;
    } else {
      assert b / DAY > a / DAY;
    }
  }

  lemma UnitBehind(level: nat, start: int, clock: int, now: int, n: Timer)
    requires level < 5 && start <= clock <= now && Ahead(level, start, clock, n)
    requires Count(level, now - start) == Count(level, clock - start)
    ensures Ahead(level, start, now, n)
  {
    if n.trig <= now { CountMonotone(level, n.trig - start, now - start); }
  }

  lemma CountMonotone(level: nat, a: int, b: int)
    requires level < 5 && a <= b
    ensures Count(level, a) <= Count(level, b)
  {
    if level == 0 { assert a / MILLISECOND <= b / MILLISECOND; }
    else if level == 1 { assert a / SECOND <= b / SECOND; }
    else if level == 2 { assert a / MINUTE <= b / MINUTE; }
    else if level == 3 { assert a / HOUR <= b / HOUR; }
    else { assert a / DAY <= b / DAY; }
  }

  /** All timers in the lists. */
  ghost function Bag(slots: seq<seq<Timer>>): multiset<Timer> {
    if slots == [] then multiset{} else multiset(slots[0]) + Bag(slots[1..])
  }

  /** Replacing one list changes the bag by the difference. */
  lemma {:induction false} BagUpdate(slots: seq<seq<Timer>>, level: nat, s: seq<Timer>, a: multiset<Timer>,
                                     b: multiset<Timer>)
    requires level < |slots| && multiset(s) + a == multiset(slots[level]) + b
    ensures Bag(slots[level := s]) + a == Bag(slots) + b
  {
    if level > 0 {
      BagUpdate(slots[1..], level - 1, s, a, b);
      assert slots[level := s][1..] == slots[1..][level - 1 := s];
      var first := multiset(slots[0]);
      assert first + Bag(slots[1..][level - 1 := s]) + a == first + (Bag(slots[1..][level - 1 := s]) + a);
      assert first + Bag(slots[1..]) + b == first + (Bag(slots[1..]) + b);
    } else {
      assert slots[0 := s][1..] == slots[1..];
      var rest := Bag(slots[1..]);
      assert multiset(s) + rest + a == (multiset(s) + a) + rest;
      assert multiset(slots[0]) + rest + b == (multiset(slots[0]) + b) + rest;
    }
  }

  lemma {:induction false} BagIn(slots: seq<seq<Timer>>, n: Timer)
    requires n in Bag(slots)
    ensures exists i :: 0 <= i < |slots| && n in slots[i]
  {
    if n !in slots[0] {
      BagIn(slots[1..], n);
      var i :| 0 <= i < |slots[1..]| && n in slots[1..][i];
      assert n in slots[i + 1];
    }
  }

  lemma BagPlace(slot: seq<seq<Timer>>, level: nat, n: Timer)
    requires |slot| == 5 && level < 5
    ensures Bag(slot[level := Placed(slot[level], n)]) == Bag(slot) + multiset{n}
  {
    PlacedBag(slot[level], n);
    BagUpdate(slot, level, Placed(slot[level], n), multiset{}, multiset{n});
  }

  lemma BagPop(slot: seq<seq<Timer>>, level: nat)
    requires |slot| == 5 && level < 5 && slot[level] != []
    ensures Bag(slot) == Bag(slot[level := slot[level][1..]]) + multiset{slot[level][0]}
  {
    var s := slot[level];
    assert s == [s[0]] + s[1..];
    BagUpdate(slot, level, s[1..], multiset{s[0]}, multiset{});
  }

  /** Levels below `lo` and from `hi` on are settled; the others are still in order. */
  ghost predicate Partly(slot: seq<seq<Timer>>, start: int, clock: int, lo: nat, hi: nat)
    requires |slot| == 5
  {
    && slot[1] == []
    && (forall i :: 0 <= i < 5 ==> ByTrig(slot[i]))
    && (forall i :: 0 <= i < 5 && (i < lo || i >= hi) ==> Settled(i, start, clock, slot[i]))
  }

  /** The periodic timers among those fired whose callback did not fail. */
  function Survivors(fired: seq<Timer>, fails: Timer -> bool): seq<Timer> {
    if fired == [] then [] else
      var n := fired[|fired| - 1];
      Survivors(fired[..|fired| - 1], fails) + if !fails(n) && n.loop then [n] else []
  }

  /** A periodic timer is armed again one period after it was due. */
  function Rearmed(s: seq<Timer>): (r: seq<Timer>)
    ensures |r| == |s|
  {
    if s == [] then [] else Rearmed(s[..|s| - 1]) + [Rearm(s[|s| - 1])]
  }

  function Rearm(n: Timer): Timer { n.(trig := n.trig + n.period) }

  /** A timer given a new period, counted from when it was last armed. */
  function Repaced(n: Timer, period: int): Timer {
    n.(trig := n.trig - n.period + period, period := period)
  }

  /** The time shown by the first `i` hands. */
  ghost function ShownBy(h: seq<int>, i: nat): int
    requires |h| == 5 && i <= 5
  {
    if i == 0 then 0 else ShownBy(h, i - 1) + h[i - 1] * UNITS[i - 1]
  }

  lemma ShownByAll(h: seq<int>)
    requires |h| == 5
    ensures ShownBy(h, 5) == HandTime(h)
  {
    assert ShownBy(h, 1) == h[0] * MILLISECOND;
    assert ShownBy(h, 2) == h[0] * MILLISECOND + h[1] * SECOND;
    assert ShownBy(h, 3) == h[0] * MILLISECOND + h[1] * SECOND + h[2] * MINUTE;
    assert ShownBy(h, 4) == h[0] * MILLISECOND + h[1] * SECOND + h[2] * MINUTE + h[3] * HOUR;
  }

  ghost predicate AllDue(clock: int, s: seq<Timer>) {
    forall n :: n in s ==> n.trig <= clock
  }

  ghost predicate NoneDue(clock: int, b: multiset<Timer>) {
    forall n :: n in b ==> n.trig > clock
  }

  lemma {:induction false} BagEmpty(slots: seq<seq<Timer>>)
    requires forall i :: 0 <= i < |slots| ==> slots[i] == []
    ensures Bag(slots) == multiset{}
  {
    if slots != [] {
      assert slots[0] == [];
      BagEmpty(slots[1..]);
    }
  }

  class Wheel {
    const start: int
    var clock: int
    var number: int
    var hand: seq<int>
    var slot: seq<seq<Timer>>
    ghost var elapsed: int

    /** The hands are where the clock says, and the lists are settled. */
    ghost predicate Valid()
      reads this
    {
      Listed() && OnTime()
    }

    /** The hands show the time elapsed. */
    ghost predicate OnTime()
      reads this
    {
      0 <= elapsed == clock - start && Shows(hand, elapsed)
    }

    /** What adding, removing and resetting timers keeps, the clock and the hands being left alone. */
    ghost predicate Listed()
      reads this
    {
      start <= clock && |slot| == 5 && Partly(slot, start, clock, 5, 5)
    }

    constructor (now: int)
      ensures Valid() && clock == start == now && number == 0 && Bag(slot) == multiset{}
    {
      start, clock, number := now, now, 0;
      hand, slot := [0, 0, 0, 0, 0], [[], [], [], [], []];
      elapsed := 0;
      new;
      BagEmpty(slot);
    }

    /** Files a timer in list `idx`, behind those that trigger no later. */
    method InsertSlot(idx: nat, node: Timer)
      requires |slot| == 5 && idx < 5 && ByTrig(slot[idx])
      modifies this`slot
      ensures slot == old(slot)[idx := Placed(old(slot)[idx], node)]
    {
      var s := slot[idx];
      var pos := 0;
      while pos < |s| && s[pos].trig <= node.trig
        invariant pos <= |s| && forall i :: 0 <= i < pos ==> s[i].trig <= node.trig
      {
        pos := pos + 1;
      }
      PlacedAt(s, node, pos);
      slot := slot[idx := s[..pos] + [node] + s[pos..]];
    }

    /** Files a timer by how far ahead of the clock it triggers. */
    method InsertTimerNode(node: Timer)
      requires |slot| == 5 && forall i :: 0 <= i < 5 ==> ByTrig(slot[i])
      modifies this`slot
      ensures var level := LevelOf(node.trig - clock); slot == old(slot)[level := Placed(old(slot)[level], node)]
      ensures Bag(slot) == Bag(old(slot)) + multiset{node}
    {
      var idx := LevelOf(node.trig - clock);
      BagPlace(slot, idx, node);
      InsertSlot(idx, node);
    }

    /** Files a timer among settled lists. */
    method File(node: Timer)
      requires Listed()
      modifies this`slot
      ensures Listed() && Bag(slot) == Bag(old(slot)) + multiset{node}
    {
      PlacedPartly(slot, start, clock, node);
      InsertTimerNode(node);
    }

    /** Moves on to finer lists what is less than one unit of `level` ahead. */
    method TimerCascade(level: nat, ghost hi: nat)
      requires |slot| == 5 && 1 <= level < hi <= 5 && start <= clock && Partly(slot, start, clock, level, hi)
      modifies this`slot
      ensures |slot| == 5 && Bag(slot) == Bag(old(slot)) && Partly(slot, start, clock, level + 1, hi)
    {
      while |slot[level]| > 0
        invariant |slot| == 5 && Bag(slot) == Bag(old(slot)) && Partly(slot, start, clock, level, hi)
        decreases |slot[level]|
      {
        var cur := slot[level][0];
        var diff := cur.trig - clock;
        if StaysAt(level, diff) {
          Guarded(level, start, clock, slot[level]);
          return;
        }
        CascadeStep(slot, start, clock, level, hi);
        BagPop(slot, level);
        slot := slot[level := slot[level][1..]];
        InsertTimerNode(cur);
      }
    }

    /** How far the hands are behind the clock. */
    method DeltaDiff(clock: int) returns (delta: int)
      requires |hand| == 5
      ensures delta == clock - start - HandTime(hand)
    {
      var handTime := 0;
      for i := 0 to 5
        invariant handTime == ShownBy(hand, i)
      {
        handTime := handTime + hand[i] * UNITS[i];
      }
      ShownByAll(hand);
      return clock - start - handTime;
    }

    /** Advances the clock and the hands, and cascades the levels the advance reached.
        A tick too close to the last accepted one is refused. */
    method TimerUpdate(now: int) returns (accepted: bool)
      requires Valid() && clock <= now
      modifies this`clock, this`hand, this`slot, this`elapsed
      ensures accepted <==> now - start - HandTime(old(hand)) >= MIN_ADVANCE
      ensures !accepted ==> clock == old(clock) && hand == old(hand) && slot == old(slot) && Valid()
      ensures accepted ==> clock == now && |slot| == 5 && OnTime()
      ensures accepted ==> Partly(slot, start, now, 5, 5) && Bag(slot) == Bag(old(slot))
    {
      var delta := DeltaDiff(clock);
      var diff := now - clock + delta;
      if diff < MIN_ADVANCE {
        return false;
      }
      ghost var before := clock;
      clock := now;
      var reach;
      ghost var e := elapsed;
      elapsed := now - start;
      hand, reach := MoveHands(hand, diff, e, elapsed);
      var hi: nat := if reach == 0 then 1 else reach;
      Untouched(slot, start, before, now, e, elapsed, reach);
      for idx := 1 to hi
        invariant clock == now && OnTime() && |slot| == 5
        invariant Bag(slot) == Bag(old(slot)) && Partly(slot, start, now, idx, hi)
      {
        TimerCascade(idx, hi);
      }
      return true;
    }

    /** Fires what is due, in order, and arms the periodic timers again. */
    method Run(fails: Timer -> bool) returns (fired: seq<Timer>, ghost kept: multiset<Timer>)
      requires Listed()
      modifies this`number, this`slot
      ensures Listed() && AllDue(clock, fired) && NoneDue(clock, kept) && ByTrig(fired)
      ensures Bag(old(slot)) == multiset(fired) + kept && Bag(slot) == kept + multiset(Rearmed(Survivors(fired, fails)))
      ensures number == old(number) - |fired| + |Survivors(fired, fails)|
    {
      var again;
      fired, again := FireDue(fails);
      kept := Bag(slot);
      NothingDue(slot, start, clock);
      InsertAll(Rearmed(again));
    }

    /** Files timers one after the other. */
    method InsertAll(nodes: seq<Timer>)
      requires Listed()
      modifies this`slot
      ensures Listed() && Bag(slot) == Bag(old(slot)) + multiset(nodes)
    {
      for i := 0 to |nodes|
        invariant Listed() && Bag(slot) == Bag(old(slot)) + multiset(nodes[..i])
      {
        File(nodes[i]);
        assert nodes[..i + 1] == nodes[..i] + [nodes[i]];
      }
      assert nodes[..|nodes|] == nodes;
    }

    /** Takes the due timers off list 0 and calls them back. */
    method FireDue(fails: Timer -> bool) returns (fired: seq<Timer>, again: seq<Timer>)
      requires |slot| == 5 && Partly(slot, start, clock, 5, 5)
      modifies this`number, this`slot
      ensures |slot| == 5 && Partly(slot, start, clock, 5, 5)
      ensures old(slot)[0] == fired + slot[0] && Bag(old(slot)) == multiset(fired) + Bag(slot)
      ensures AllDue(clock, fired) && forall n :: n in slot[0] ==> n.trig > clock
      ensures ByTrig(fired) && again == Survivors(fired, fails)
      ensures number == old(number) - |fired| + |again|
    {
      fired, again := [], [];
      while |slot[0]| > 0 && slot[0][0].trig <= clock
        invariant |slot| == 5 && slot[1..] == old(slot)[1..] && old(slot)[0] == fired + slot[0]
        invariant Bag(old(slot)) == multiset(fired) + Bag(slot)
        invariant AllDue(clock, fired) && again == Survivors(fired, fails)
        invariant number == old(number) - |fired| + |again|
        decreases |slot[0]|
      {
        var node := slot[0][0];
        if !fails(node) && node.loop {
          again := again + [node];
        } else {
          number := number - 1;
        }
        FireStep(old(slot), slot, fired, fails);
        slot := slot[0 := slot[0][1..]];
        fired := fired + [node];
      }
      FiredOrder(old(slot), slot, start, clock, fired);
    }

    /** One tick: nothing, or exactly the due timers are fired. */
    method Tick(now: int, fails: Timer -> bool) returns (accepted: bool, fired: seq<Timer>, ghost kept: multiset<Timer>)
      requires Valid() && clock <= now
      modifies this
      ensures Valid()
      ensures accepted <==> now - start - HandTime(old(hand)) >= MIN_ADVANCE
      ensures !accepted ==> fired == [] && slot == old(slot) && clock == old(clock) && number == old(number)
      ensures accepted ==> clock == now && AllDue(now, fired) && NoneDue(now, kept) && ByTrig(fired)
      ensures accepted ==> Bag(old(slot)) == multiset(fired) + kept
      ensures accepted ==> Bag(slot) == kept + multiset(Rearmed(Survivors(fired, fails)))
      ensures accepted ==> number == old(number) - |fired| + |Survivors(fired, fails)|
    {
      accepted := TimerUpdate(now);
      fired, kept := [], multiset{};
      if accepted {
        fired, kept := Run(fails);
      }
    }

    /** Adds a timer. */
    method AddTimer(node: Timer)
      requires Listed()
      modifies this`number, this`slot
      ensures Listed() && Bag(slot) == Bag(old(slot)) + multiset{node} && number == old(number) + 1
    {
      number := number + 1;
      File(node);
    }

    /** The first timer with the given id, list by list. */
    method Locate(id: nat) returns (found: bool, level: nat, k: nat)
      requires |slot| == 5
      ensures found ==> level < 5 && k < |slot[level]| && slot[level][k].id == id
      ensures !found ==> forall i, j :: 0 <= i < 5 && 0 <= j < |slot[i]| ==> slot[i][j].id != id
    {
      level := 0;
      while level < 5
        invariant level <= 5
        invariant forall i, j :: 0 <= i < level && 0 <= j < |slot[i]| ==> slot[i][j].id != id
      {
        k := 0;
        while k < |slot[level]|
          invariant k <= |slot[level]|
          invariant forall j :: 0 <= j < k ==> slot[level][j].id != id
        {
          if slot[level][k].id == id {
            return true, level, k;
          }
          k := k + 1;
        }
        level := level + 1;
      }
      return false, 0, 0;
    }

    /** Takes one timer out of its list. */
    method TakeOut(level: nat, k: nat) returns (n: Timer)
      requires Listed() && level < 5 && k < |slot[level]|
      modifies this`slot
      ensures Listed() && n == old(slot)[level][k] && Bag(old(slot)) == Bag(slot) + multiset{n}
    {
      n := slot[level][k];
      OneOut(slot, start, clock, level, k);
      slot := slot[level := slot[level][..k] + slot[level][k + 1..]];
    }

    /** Removes the timer with the given id. The count drops whether or not there is one. */
    method DeleteTimer(id: nat) returns (found: bool, n: Timer)
      requires Listed()
      modifies this`number, this`slot
      ensures Listed() && number == old(number) - 1
      ensures found ==> n.id == id && Bag(old(slot)) == Bag(slot) + multiset{n}
      ensures !found ==> slot == old(slot) && forall m :: m in Bag(slot) ==> m.id != id
    {
      var level, k;
      found, level, k := Locate(id);
      number := number - 1;
      if found {
        n := TakeOut(level, k);
      } else {
        n := Timer(id, 0, false, 0);
        forall m | m in Bag(slot) ensures m.id != id { BagIn(slot, m); }
      }
    }

    /** Gives the timer with the given id a new period, counted from when it was last armed. */
    method ResetTimer(id: nat, period: int) returns (found: bool, n: Timer, ghost rest: multiset<Timer>)
      requires Listed()
      modifies this`slot
      ensures Listed()
      ensures found ==> n.id == id && Bag(old(slot)) == rest + multiset{n}
      ensures found ==> Bag(slot) == rest + multiset{Repaced(n, period)}
      ensures !found ==> slot == old(slot) && forall m :: m in Bag(slot) ==> m.id != id
    {
      var level, k;
      found, level, k := Locate(id);
      if !found {
        forall m | m in Bag(slot) ensures m.id != id { BagIn(slot, m); }
        return false, Timer(id, 0, false, 0), multiset{};
      }
      n := TakeOut(level, k);
      rest := Bag(slot);
      File(Repaced(n, period));
    }
  }

  /** A timer less than one unit ahead is filed in a finer list. */
  lemma CascadeStep(slot: seq<seq<Timer>>, start: int, clock: int, level: nat, hi: nat)
    requires |slot| == 5 && 1 <= level < hi <= 5 && start <= clock && Partly(slot, start, clock, level, hi)
    requires slot[level] != [] && slot[level][0].trig - clock < UNITS[level]
    ensures var cur, rest := slot[level][0], slot[level := slot[level][1..]];
            var to := LevelOf(cur.trig - clock);
            && (forall i :: 0 <= i < 5 ==> ByTrig(rest[i]))
            && to < level && Partly(rest[to := Placed(rest[to], cur)], start, clock, level, hi)
  {
    var cur, rest := slot[level][0], slot[level := slot[level][1..]];
    var to := LevelOf(cur.trig - clock);
    PlacedSettled(to, start, clock, rest[to], cur);
  }

  /** If the first timer is a whole unit ahead, all are. */
  lemma Guarded(level: nat, start: int, clock: int, s: seq<Timer>)
    requires start <= clock && 2 <= level < 5 && ByTrig(s) && s != [] && s[0].trig - clock >= UNITS[level]
    ensures Settled(level, start, clock, s)
  {
    forall n | n in s ensures Ahead(level, start, clock, n) {
      var i :| 0 <= i < |s| && s[i] == n;
      UnitAhead(level, clock - start, n.trig - start);
    }
  }

  /** Levels the advance did not reach need no cascade. */
  lemma Untouched(slot: seq<seq<Timer>>, start: int, clock: int, now: int, e0: int, e1: int, reach: nat)
    requires e0 == clock - start && e1 == now - start && |slot| == 5 && start <= clock <= now &&
             Partly(slot, start, clock, 5, 5) && reach <= 5
    requires forall i :: 1 <= i < 5 && reach <= i ==> SameCount(i, e0, e1)
    ensures Partly(slot, start, now, 1, if reach == 0 then 1 else reach)
  {
    var hi := if reach == 0 then 1 else reach;
    forall i | hi <= i < 5 ensures Settled(i, start, now, slot[i]) {
      assert Settled(i, start, clock, slot[i]) && SameCount(i, e0, e1);
      if i >= 2 {
        forall n | n in slot[i] ensures Ahead(i, start, now, n) { UnitBehind(i, start, clock, now, n); }
      }
    }
  }

  /** Past list 0 nothing is due. */
  lemma NothingDue(slot: seq<seq<Timer>>, start: int, clock: int)
    requires |slot| == 5 && Partly(slot, start, clock, 5, 5) && forall n :: n in slot[0] ==> n.trig > clock
    ensures NoneDue(clock, Bag(slot))
  {
    forall n | n in Bag(slot) ensures n.trig > clock {
      BagIn(slot, n);
      var i :| 0 <= i < 5 && n in slot[i];
      assert Settled(i, start, clock, slot[i]);
    }
  }

  lemma PlacedPartly(slot: seq<seq<Timer>>, start: int, clock: int, n: Timer)
    requires |slot| == 5 && start <= clock && Partly(slot, start, clock, 5, 5)
    ensures var level := LevelOf(n.trig - clock); Partly(slot[level := Placed(slot[level], n)], start, clock, 5, 5)
  {
    var level := LevelOf(n.trig - clock);
    PlacedSettled(level, start, clock, slot[level], n);
  }

  lemma FireStep(before: seq<seq<Timer>>, slot: seq<seq<Timer>>, fired: seq<Timer>, fails: Timer -> bool)
    requires |before| == |slot| == 5 && slot[0] != [] && before[0] == fired + slot[0]
    requires Bag(before) == multiset(fired) + Bag(slot)
    ensures var n, slot' := slot[0][0], slot[0 := slot[0][1..]];
            && slot'[1..] == slot[1..] && before[0] == fired + [n] + slot'[0]
            && Bag(before) == multiset(fired + [n]) + Bag(slot')
            && Survivors(fired + [n], fails) == Survivors(fired, fails) + if !fails(n) && n.loop then [n] else []
  {
    var n := slot[0][0];
    BagPop(slot, 0);
    assert slot[0] == [n] + slot[0][1..];
    assert (fired + [n])[..|fired|] == fired;
  }

  lemma FiredOrder(before: seq<seq<Timer>>, slot: seq<seq<Timer>>, start: int, clock: int, fired: seq<Timer>)
    requires |before| == |slot| == 5 && Partly(before, start, clock, 5, 5) && slot[1..] == before[1..]
    requires before[0] == fired + slot[0] && (slot[0] != [] ==> slot[0][0].trig > clock)
    ensures Partly(slot, start, clock, 5, 5) && ByTrig(fired) && forall n :: n in slot[0] ==> n.trig > clock
  {
    var s := before[0];
    assert forall i :: 0 <= i < |fired| ==> fired[i] == s[i];
    assert forall i :: 0 <= i < |slot[0]| ==> slot[0][i] == s[|fired| + i];
    forall i | 1 <= i < 5 ensures slot[i] == before[i] { assert slot[1..][i - 1] == before[1..][i - 1]; }
  }

  lemma OneOut(slot: seq<seq<Timer>>, start: int, clock: int, level: nat, k: nat)
    requires |slot| == 5 && Partly(slot, start, clock, 5, 5) && level < 5 && k < |slot[level]|
    ensures var rest := slot[level][..k] + slot[level][k + 1..];
            && Partly(slot[level := rest], start, clock, 5, 5)
            && Bag(slot) == Bag(slot[level := rest]) + multiset{slot[level][k]}
  {
    var s, n := slot[level], slot[level][k];
    var rest := s[..k] + s[k + 1..];
    assert s == s[..k] + [n] + s[k + 1..];
    BagUpdate(slot, level, rest, multiset{n}, multiset{});
    assert Settled(level, start, clock, s) && ByTrig(s);
    RestOf(s, k, level, start, clock);
  }

  lemma RestOf(s: seq<Timer>, k: nat, level: nat, start: int, clock: int)
    requires k < |s| && ByTrig(s) && level < 5 && Settled(level, start, clock, s)
    ensures var rest := s[..k] + s[k + 1..]; ByTrig(rest) && Settled(level, start, clock, rest)
  {
    var rest := s[..k] + s[k + 1..];
    forall i | 0 <= i < |rest| ensures rest[i] == s[if i < k then i else i + 1] {}
  }
}
