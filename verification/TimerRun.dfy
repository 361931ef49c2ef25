/** Whole runs of the timer wheel, against a bag of timers with a clock. */
module TimerRun {
  import opened TimerClock
  import opened TimerWheel

  datatype Event = TickAt(now: int) | Add(node: Timer) | Delete(id: nat) | Reset(id: nat, period: int)

  /** What there is to know of a wheel: the time of the last accepted tick, the timers, and their count as kept. */
  datatype State = State(clock: int, bag: multiset<Timer>, number: int)

  /** What an event does: timers leave, timers come, and timers are called back, in order. */
  datatype Change = Change(gone: multiset<Timer>, come: multiset<Timer>, fired: seq<Timer>)

  const NOTHING := Change(multiset{}, multiset{}, [])

  /** When a tick is accepted: seven milliseconds after the millisecond of the last accepted
      one, or at any time once 31 days of wheel time are over. */
  ghost predicate Accepts(start: int, clock: int, now: int) {
    var elapsed := clock - start;
    elapsed >= 31 * DAY || now - clock + elapsed % MILLISECOND >= MIN_ADVANCE
  }

  lemma AcceptedWhen(start: int, clock: int, elapsed: int, now: int)
    requires 0 <= elapsed == clock - start && clock <= now
    ensures now - start - HandTime(Hands(elapsed)) >= MIN_ADVANCE <==> Accepts(start, clock, now)
  {
    HandTimeOf(elapsed);
    var laps := elapsed / (31 * DAY);
    assert laps == 0 <==> elapsed < 31 * DAY;
    assert laps >= 1 ==> laps * (31 * DAY) >= 31 * DAY;
  }

  // ----- steps -----

  /** An accepted tick calls back exactly what is due, and arms again the periodic timers that did not fail. */
  ghost predicate Ticks(fails: Timer -> bool, s: State, now: int, c: Change) {
    && AllDue(now, c.fired) && ByTrig(c.fired)
    && c.gone == multiset(c.fired) && c.gone <= s.bag && NoneDue(now, s.bag - c.gone)
    && c.come == multiset(Rearmed(Survivors(c.fired, fails)))
  }

  ghost predicate NoneSuch(bag: multiset<Timer>, id: nat) {
    forall n :: n in bag ==> n.id != id
  }

  /** One timer with the given id leaves, if there is one. */
  ghost predicate Leaves(bag: multiset<Timer>, id: nat, c: Change, come: Timer -> multiset<Timer>) {
    || (NoneSuch(bag, id) && c == NOTHING)
    || exists n :: n in bag && n.id == id && c == Change(multiset{n}, come(n), [])
  }

  ghost predicate Explains(start: int, fails: Timer -> bool, s: State, e: Event, c: Change) {
    match e
    case TickAt(now) => if Accepts(start, s.clock, now) then Ticks(fails, s, now, c) else c == NOTHING
    case Add(node) => c == Change(multiset{}, multiset{node}, [])
    case Delete(id) => Leaves(s.bag, id, c, _ => multiset{})
    case Reset(id, period) => Leaves(s.bag, id, c, n => multiset{Repaced(n, period)})
  }

  /** The time after an event. */
  ghost function Later(start: int, clock: int, e: Event): int {
    if e.TickAt? && Accepts(start, clock, e.now) then e.now else clock
  }

  /** The kept count after an event; a deletion lowers it whether or not there is something to delete. */
  ghost function Counted(number: int, e: Event, c: Change): int {
    if e.Delete? then number - 1 else number - |c.gone| + |c.come|
  }

  ghost predicate Does(start: int, fails: Timer -> bool, s: State, e: Event, s': State, c: Change) {
    && Explains(start, fails, s, e, c)
    && s'.clock == Later(start, s.clock, e) && s'.number == Counted(s.number, e, c)
    && s'.bag + c.gone == s.bag + c.come
  }

  /** The changes a run of events makes on the way from state to state. */
  ghost predicate IsRun(start: int, fails: Timer -> bool, events: seq<Event>, path: seq<State>, changes: seq<Change>) {
    && |path| == |events| + 1 && |changes| == |events|
    && forall k :: 0 <= k < |events| ==> Does(start, fails, path[k], events[k], path[k + 1], changes[k])
  }

  // ----- what holds of every run -----

  ghost function Gone(changes: seq<Change>): multiset<Timer> {
    if changes == [] then multiset{} else Gone(changes[..|changes| - 1]) + changes[|changes| - 1].gone
  }

  ghost function Come(changes: seq<Change>): multiset<Timer> {
    if changes == [] then multiset{} else Come(changes[..|changes| - 1]) + changes[|changes| - 1].come
  }

  /** Nothing is lost and nothing made up: what is there, and what has been called back or deleted, is what
      was there, and what has been added or armed again. */
  lemma {:induction false} Conserved(start: int, fails: Timer -> bool, events: seq<Event>, path: seq<State>,
                                     changes: seq<Change>)
    requires IsRun(start, fails, events, path, changes)
    ensures path[|events|].bag + Gone(changes) == path[0].bag + Come(changes)
    decreases |events|
  {
    var n := |events|;
    if n > 0 {
      Shorter(start, fails, events, path, changes);
      Conserved(start, fails, events[..n - 1], path[..n], changes[..n - 1]);
      assert path[n].bag + changes[n - 1].gone == path[n - 1].bag + changes[n - 1].come;
      var (b, g, c, b', g', c') :=
        (path[n - 1].bag, Gone(changes[..n - 1]), Come(changes[..n - 1]), path[n].bag, changes[n - 1].gone,
         changes[n - 1].come);
      assert b' + (g + g') == (b' + g') + g == (b + c') + g == (b + g) + c' == path[0].bag + (c + c');
    }
  }

  lemma Shorter(start: int, fails: Timer -> bool, events: seq<Event>, path: seq<State>, changes: seq<Change>)
    requires IsRun(start, fails, events, path, changes) && events != []
    ensures var n := |events| - 1; IsRun(start, fails, events[..n], path[..n + 1], changes[..n])
  {
    var n := |events| - 1;
    forall k | 0 <= k < n
      ensures Does(start, fails, path[..n + 1][k], events[..n][k], path[..n + 1][k + 1], changes[..n][k]) {
      assert Does(start, fails, path[k], events[k], path[k + 1], changes[k]);
    }
  }

  /** No timer is called back before its time, nor except in an accepted tick. */
  lemma NeverEarly(start: int, fails: Timer -> bool, events: seq<Event>, path: seq<State>, changes: seq<Change>, k: nat,
                   n: Timer)
    requires IsRun(start, fails, events, path, changes) && k < |events| && n in changes[k].fired
    ensures events[k].TickAt? && Accepts(start, path[k].clock, events[k].now) &&
            n.trig <= events[k].now == path[k + 1].clock
  {
    assert Does(start, fails, path[k], events[k], path[k + 1], changes[k]);
  }

  /** Event `k` is none that takes `n` away before its time is up. */
  ghost predicate Spares(start: int, clock: int, e: Event, n: Timer) {
    match e
    case TickAt(now) => Accepts(start, clock, now) ==> now < n.trig
    case Add(_) => true
    case Delete(id) => id != n.id
    case Reset(id, _) => id != n.id
  }

  lemma SparedStays(start: int, fails: Timer -> bool, s: State, e: Event, s': State, c: Change, n: Timer)
    requires Does(start, fails, s, e, s', c) && Spares(start, s.clock, e, n)
    ensures n !in c.gone && s'.bag[n] >= s.bag[n]
  {
    assert (s'.bag + c.gone)[n] == (s.bag + c.come)[n];
  }

  lemma {:induction false} Spared(start: int, fails: Timer -> bool, events: seq<Event>, path: seq<State>,
                                  changes: seq<Change>, j: nat, k: nat, n: Timer)
    requires IsRun(start, fails, events, path, changes) && j <= k <= |events| && n in path[j].bag
    requires forall i :: j <= i < k ==> Spares(start, path[i].clock, events[i], n)
    ensures n in path[k].bag
    decreases k
  {
    if j < k {
      Spared(start, fails, events, path, changes, j, k - 1, n);
      assert Does(start, fails, path[k - 1], events[k - 1], path[k], changes[k - 1]);
      assert Spares(start, path[k - 1].clock, events[k - 1], n);
      SparedStays(start, fails, path[k - 1], events[k - 1], path[k], changes[k - 1], n);
    }
  }

  /** A timer that is neither deleted nor reset is called back in the first accepted tick that is not before
      its time. */
  lemma FiresWhenDue(start: int, fails: Timer -> bool, events: seq<Event>, path: seq<State>, changes: seq<Change>,
                     j: nat, k: nat, n: Timer)
    requires IsRun(start, fails, events, path, changes) && j <= k < |events| && n in path[j].bag
    requires forall i :: j <= i < k ==> Spares(start, path[i].clock, events[i], n)
    requires events[k].TickAt? && Accepts(start, path[k].clock, events[k].now) && n.trig <= events[k].now
    ensures n in changes[k].fired
  {
    Spared(start, fails, events, path, changes, j, k, n);
    assert Does(start, fails, path[k], events[k], path[k + 1], changes[k]);
    var c := changes[k];
    assert n in path[k].bag - c.gone || n in c.gone;
    assert n in multiset(c.fired);
  }

  /** The number of events up to and including the last accepted tick. */
  ghost function LastAccepted(start: int, events: seq<Event>, path: seq<State>, k: nat): (r: nat)
    requires k <= |events| < |path|
    ensures r <= k
  {
    if k == 0 then 0
    else if events[k - 1].TickAt? && Accepts(start, path[k - 1].clock, events[k - 1].now) then k
    else LastAccepted(start, events, path, k - 1)
  }

  /** `n` is periodic, and was called back by the event. */
  ghost predicate Again(fired: seq<Timer>, n: Timer) {
    exists m :: m in fired && m.loop && n == Rearm(m)
  }

  ghost predicate ArmedBy(e: Event, n: Timer) {
    (e.Add? && n == e.node) || (e.Reset? && n.id == e.id && n.period == e.period)
  }

  /** The events from `from` on, up to `k`, arm `n`. */
  ghost predicate ArmedSince(events: seq<Event>, from: nat, k: nat, n: Timer) {
    exists i :: from <= i < k && i < |events| && ArmedBy(events[i], n)
  }

  /** Why a timer may be overdue: it has been armed since the last accepted tick, or armed again by it; or
      there has been no such tick. */
  ghost predicate Excused(start: int, events: seq<Event>, path: seq<State>, changes: seq<Change>, k: nat, n: Timer)
    requires k <= |events| < |path| && |changes| == |events|
  {
    var last := LastAccepted(start, events, path, k);
    || ArmedSince(events, last, k, n)
    || (if last == 0 then n in path[0].bag else Again(changes[last - 1].fired, n))
  }

  /** Only an excused timer is ever overdue. */
  lemma {:induction false} OverdueOnlyIf(start: int, fails: Timer -> bool, events: seq<Event>, path: seq<State>,
                                         changes: seq<Change>, k: nat, n: Timer)
    requires IsRun(start, fails, events, path, changes) && k <= |events| && n in path[k].bag && n.trig <= path[k].clock
    ensures Excused(start, events, path, changes, k, n)
    decreases k
  {
    if k > 0 {
      var s, e, s', c := path[k - 1], events[k - 1], path[k], changes[k - 1];
      assert Does(start, fails, s, e, s', c);
      if e.TickAt? && Accepts(start, s.clock, e.now) {
        AfterTick(fails, s, e.now, s', c, n);
      } else {
        NotTick(start, fails, s, e, s', c, n);
        if ArmedBy(e, n) {
          assert ArmedSince(events, LastAccepted(start, events, path, k), k, n);
        } else {
          OverdueOnlyIf(start, fails, events, path, changes, k - 1, n);
        }
      }
    }
  }

  lemma AfterTick(fails: Timer -> bool, s: State, now: int, s': State, c: Change, n: Timer)
    requires Ticks(fails, s, now, c) && s'.bag + c.gone == s.bag + c.come && n in s'.bag && n.trig <= now
    ensures Again(c.fired, n)
  {
    assert (s'.bag + c.gone)[n] == (s.bag + c.come)[n];
    assert n in s.bag - c.gone || n in c.come;
    var m := RearmedFrom(c.fired, fails, n);
  }

  lemma NotTick(start: int, fails: Timer -> bool, s: State, e: Event, s': State, c: Change, n: Timer)
    requires Does(start, fails, s, e, s', c) && !(e.TickAt? && Accepts(start, s.clock, e.now)) && n in s'.bag
    ensures s'.clock == s.clock && (n in s.bag || ArmedBy(e, n))
  {
    assert (s'.bag + c.gone)[n] == (s.bag + c.come)[n];
  }

  lemma RearmedFrom(fired: seq<Timer>, fails: Timer -> bool, n: Timer) returns (m: Timer)
    requires n in Rearmed(Survivors(fired, fails))
    ensures m in fired && m.loop && n == Rearm(m)
  {
    var s := Survivors(fired, fails);
    var k := RearmedAt(s, n);
    m := s[k];
    SurvivorIn(fired, fails, m);
  }

  lemma {:induction false} RearmedAt(s: seq<Timer>, n: Timer) returns (k: nat)
    requires n in Rearmed(s)
    ensures k < |s| && n == Rearm(s[k])
    decreases |s|
  {
    if n == Rearm(s[|s| - 1]) { k := |s| - 1; } else { k := RearmedAt(s[..|s| - 1], n); }
  }

  lemma {:induction false} SurvivorIn(fired: seq<Timer>, fails: Timer -> bool, n: Timer)
    requires n in Survivors(fired, fails)
    ensures n in fired && n.loop
    decreases |fired|
  {
    var last := fired[|fired| - 1];
    if !(n == last && last.loop) { SurvivorIn(fired[..|fired| - 1], fails, n); }
  }

  /** How many deletions named no timer. */
  ghost function Misses(events: seq<Event>, changes: seq<Change>, k: nat): nat
    requires k <= |events| == |changes|
  {
    if k == 0 then 0 else
      Misses(events, changes, k - 1) + if events[k - 1].Delete? && changes[k - 1] == NOTHING then 1 else 0
  }

  /** The kept count is too low by the deletions that named no timer. */
  lemma {:induction false} CountDrifts(start: int, fails: Timer -> bool, events: seq<Event>, path: seq<State>,
                                       changes: seq<Change>, k: nat)
    requires IsRun(start, fails, events, path, changes) && k <= |events| && path[0].number == |path[0].bag|
    ensures path[k].number == |path[k].bag| - Misses(events, changes, k)
    decreases k
  {
    if k > 0 {
      CountDrifts(start, fails, events, path, changes, k - 1);
      var s, e, s', c := path[k - 1], events[k - 1], path[k], changes[k - 1];
      assert Does(start, fails, s, e, s', c);
      assert |s'.bag + c.gone| == |s.bag + c.come|;
    }
  }

  // ----- the wheel makes such runs -----

  ghost function Now(w: Wheel): State
    reads w
    requires |w.slot| == 5
  {
    State(w.clock, Bag(w.slot), w.number)
  }

  lemma TickDoes(start: int, fails: Timer -> bool, s: State, s': State, now: int, fired: seq<Timer>,
                 kept: multiset<Timer>)
    returns (c: Change)
    requires Accepts(start, s.clock, now) && s'.clock == now && AllDue(now, fired) && NoneDue(now, kept) &&
             ByTrig(fired)
    requires s.bag == multiset(fired) + kept && s'.bag == kept + multiset(Rearmed(Survivors(fired, fails)))
    requires s'.number == s.number - |fired| + |Survivors(fired, fails)|
    ensures c.fired == fired && Does(start, fails, s, TickAt(now), s', c)
  {
    c := Change(multiset(fired), multiset(Rearmed(Survivors(fired, fails))), fired);
    assert s.bag - c.gone == kept;
  }

  method HandleTick(w: Wheel, now: int, fails: Timer -> bool) returns (fired: seq<Timer>, ghost c: Change)
    requires w.Valid() && w.clock <= now
    modifies w
    ensures w.Valid() && c.fired == fired && Does(w.start, fails, old(Now(w)), TickAt(now), Now(w), c)
  {
    var accepted;
    ghost var kept;
    AcceptedWhen(w.start, w.clock, w.elapsed, now);
    accepted, fired, kept := w.Tick(now, fails);
    if accepted {
      c := TickDoes(w.start, fails, old(Now(w)), Now(w), now, fired, kept);
    } else {
      c := NOTHING;
    }
  }

  lemma AddDoes(start: int, fails: Timer -> bool, s: State, s': State, node: Timer) returns (c: Change)
    requires s'.clock == s.clock && s'.bag == s.bag + multiset{node} && s'.number == s.number + 1
    ensures c.fired == [] && Does(start, fails, s, Add(node), s', c)
  {
    c := Change(multiset{}, multiset{node}, []);
  }

  lemma DeleteDoes(start: int, fails: Timer -> bool, s: State, s': State, id: nat, found: bool, n: Timer)
    returns (c: Change)
    requires s'.clock == s.clock && s'.number == s.number - 1
    requires if found then n.id == id && s.bag == s'.bag + multiset{n} else s'.bag == s.bag && NoneSuch(s.bag, id)
    ensures c.fired == [] && Does(start, fails, s, Delete(id), s', c)
  {
    c := if found then Change(multiset{n}, multiset{}, []) else NOTHING;
    assert found ==> n in s.bag;
  }

  lemma ResetDoes(start: int, fails: Timer -> bool, s: State, s': State, id: nat, period: int, found: bool, n: Timer,
                  rest: multiset<Timer>)
    returns (c: Change)
    requires s'.clock == s.clock && s'.number == s.number
    requires if found then n.id == id && s.bag == rest + multiset{n} && s'.bag == rest + multiset{Repaced(n, period)}
             else s'.bag == s.bag && NoneSuch(s.bag, id)
    ensures c.fired == [] && Does(start, fails, s, Reset(id, period), s', c)
  {
    c := if found then Change(multiset{n}, multiset{Repaced(n, period)}, []) else NOTHING;
    assert found ==> n in s.bag;
  }

  method HandleRequest(w: Wheel, e: Event, ghost fails: Timer -> bool) returns (ghost c: Change)
    requires w.Valid() && !e.TickAt?
    modifies w
    ensures w.Valid() && c.fired == [] && Does(w.start, fails, old(Now(w)), e, Now(w), c)
  {
    match e {
      case Add(node) =>
        w.AddTimer(node);
        c := AddDoes(w.start, fails, old(Now(w)), Now(w), node);
      case Delete(id) =>
        var found, n := w.DeleteTimer(id);
        c := DeleteDoes(w.start, fails, old(Now(w)), Now(w), id, found, n);
      case Reset(id, period) =>
        var found, n;
        ghost var rest;
        found, n, rest := w.ResetTimer(id, period);
        c := ResetDoes(w.start, fails, old(Now(w)), Now(w), id, period, found, n, rest);
    }
  }

  /** Tick times never go back. */
  ghost predicate Rising(events: seq<Event>, clock: int) {
    && (forall i :: 0 <= i < |events| && events[i].TickAt? ==> clock <= events[i].now)
    && (forall i, j :: 0 <= i < j < |events| && events[i].TickAt? && events[j].TickAt? ==>
        events[i].now <= events[j].now)
  }

  /** Any run of ticks and requests is a run of the bag with the clock. */
  method Drive(w: Wheel, events: seq<Event>, fails: Timer -> bool)
    returns (log: seq<seq<Timer>>, ghost path: seq<State>, ghost changes: seq<Change>)
    requires w.Valid() && Rising(events, w.clock)
    modifies w
    ensures w.Valid() && IsRun(w.start, fails, events, path, changes)
    ensures path[0] == old(Now(w)) && path[|events|] == Now(w)
    ensures |log| == |events| && forall k :: 0 <= k < |log| ==> log[k] == changes[k].fired
  {
    log, path, changes := [], [Now(w)], [];
    for k := 0 to |events|
      invariant w.Valid() && |log| == k && |path| == k + 1 && path[0] == old(Now(w)) && path[k] == Now(w)
      invariant w.clock == old(w.clock) || exists i :: 0 <= i < k && events[i].TickAt? && w.clock == events[i].now
      invariant IsRun(w.start, fails, events[..k], path, changes)
      invariant forall i :: 0 <= i < k ==> log[i] == changes[i].fired
    {
      var fired := [];
      ghost var c;
      ghost var s := Now(w);
      if events[k].TickAt? {
        fired, c := HandleTick(w, events[k].now, fails);
      } else {
        c := HandleRequest(w, events[k], fails);
      }
      Longer(w.start, fails, events[..k], path, changes, events[k], Now(w), c);
      assert events[..k + 1] == events[..k] + [events[k]];
      log, path, changes := log + [fired], path + [Now(w)], changes + [c];
    }
    assert events[..|events|] == events;
  }

  lemma Longer(start: int, fails: Timer -> bool, events: seq<Event>, path: seq<State>, changes: seq<Change>, e: Event,
               s: State, c: Change)
    requires IsRun(start, fails, events, path, changes) && Does(start, fails, path[|events|], e, s, c)
    ensures IsRun(start, fails, events + [e], path + [s], changes + [c])
  {
    var n := |events|;
    var es, p, cs := events + [e], path + [s], changes + [c];
    forall k | 0 <= k < |es| ensures Does(start, fails, p[k], es[k], p[k + 1], cs[k]) {
      if k < n {
        assert p[k] == path[k] && p[k + 1] == path[k + 1] && es[k] == events[k] && cs[k] == changes[k];
      } else {
        assert p[k] == path[n] && p[k + 1] == s && es[k] == e && cs[k] == c;
      }
    }
  }
}
