/** Wheel time: a count of milliseconds in mixed radix (ms, s, min, h, day of 31). */
module TimerClock {
  import opened Arithmetic

  const MILLISECOND := 1_000_000
  const SECOND := 1_000 * MILLISECOND
  const MINUTE := 60 * SECOND
  const HOUR := 60 * MINUTE
  const DAY := 24 * HOUR

  /** The least advance, in nanoseconds, at which a tick is accepted. */
  const MIN_ADVANCE := 7 * MILLISECOND

  const UNITS: seq<int> := [MILLISECOND, SECOND, MINUTE, HOUR, DAY]
  const LIMITS: seq<int> := [1000, 60, 60, 24, 31]

  /** The five digits of a time span, modulo 31 days. */
  function Hands(elapsed: int): (h: seq<int>)
    requires elapsed >= 0
    ensures |h| == 5 && forall i :: 0 <= i < 5 ==> 0 <= h[i] < LIMITS[i]
  {
    seq(5, i requires 0 <= i < 5 => Count(i, elapsed) % LIMITS[i])
  }

  /** The hands are at the digits of the span. */
  ghost predicate Shows(h: seq<int>, elapsed: int)
    requires elapsed >= 0
  {
    h == Hands(elapsed)
  }

  function HandTime(h: seq<int>): int
    requires |h| == 5
  {
    h[0] * MILLISECOND + h[1] * SECOND + h[2] * MINUTE + h[3] * HOUR + h[4] * DAY
  }

  /** The hands show the span, but for whole rounds of 31 days and a part of a millisecond. */
  lemma HandTimeOf(elapsed: int)
    requires elapsed >= 0
    ensures elapsed == HandTime(Hands(elapsed)) + elapsed / (31 * DAY) * (31 * DAY) + elapsed % MILLISECOND
  {
    var ms := elapsed / MILLISECOND;
    DivDiv(elapsed, MILLISECOND, 1000);
    DivDiv(elapsed, SECOND, 60);
    DivDiv(elapsed, MINUTE, 60);
    DivDiv(elapsed, HOUR, 24);
    DivDiv(elapsed, DAY, 31);
    Digits(elapsed, ms, ms / 1000, ms / 1000 / 60, ms / 1000 / 60 / 60, ms / 1000 / 60 / 60 / 24);
  }

  lemma Digits(elapsed: int, ms: int, s: int, m: int, h: int, d: int)
    requires ms == elapsed / MILLISECOND && s == ms / 1000 && m == s / 60 && h == m / 60 && d == h / 24
    ensures elapsed == ms % 1000 * MILLISECOND + s % 60 * SECOND + m % 60 * MINUTE + h % 24 * HOUR + d % 31 * DAY
                       + d / 31 * (31 * DAY) + elapsed % MILLISECOND
  {
    assert h == d / 31 * 31 * 24 + d % 31 * 24 + h % 24;
    assert s == h * 3600 + m % 60 * 60 + s % 60;
  }

  /** How many whole units `i` the span holds. */
  function Count(i: nat, span: int): int
    requires i < 5
  {
    span / UNITS[i]
  }

  // ----- taking an advance apart, from the longest unit down -----

  /** Digit `i` of an advance; the days are not reduced. */
  function Inc(advance: int, i: nat): int
    requires i < 5
  {
    if i == 4 then Count(4, advance) else Count(i, advance) % LIMITS[i]
  }

  /** What is left of an advance once units from `i` on are taken out. */
  function Rest(advance: int, i: nat): int
    requires i <= 5
  {
    if i == 5 then advance else advance % UNITS[i]
  }

  lemma IncStep(advance: int, i: nat)
    requires advance >= 0 && i < 5
    ensures Rest(advance, i + 1) / UNITS[i] == Inc(advance, i)
    ensures Rest(advance, i + 1) % UNITS[i] == Rest(advance, i)
  {
    if i < 4 {
      ModDiv(advance, UNITS[i], LIMITS[i]);
    }
  }

  // ----- adding it to the hands, from the shortest unit up -----

  /** Whether the units below `i` overflow into `i`. */
  function Carry(shown: int, advance: int, i: nat): int
    requires i < 5
  {
    Count(i, shown + advance) - Count(i, shown) - Count(i, advance)
  }

  /** Hands that show a span show it whichever way they came to it. */
  lemma HandsOfShown(h: seq<int>)
    requires |h| == 5 && forall i :: 0 <= i < 5 ==> 0 <= h[i] < LIMITS[i]
    ensures HandTime(h) >= 0 && Hands(HandTime(h)) == h
    ensures HandTime(h) / DAY < 31 && HandTime(h) % MILLISECOND == 0
  {
    var shown := HandTime(h);
    var days := h[4];
    var hours := h[3] + 24 * days;
    var minutes := h[2] + 60 * hours;
    var seconds := h[1] + 60 * minutes;
    var ms := h[0] + 1000 * seconds;
    assert shown == ms * MILLISECOND;
    Whole(shown, ms);
    assert ms / 1000 == seconds && ms % 1000 == h[0];
    assert seconds / 60 == minutes && seconds % 60 == h[1];
    assert minutes / 60 == hours && minutes % 60 == h[2];
    assert hours / 24 == days && hours % 24 == h[3];
    assert days % 31 == h[4];
  }

  lemma Whole(span: int, ms: int)
    requires ms >= 0 && span == ms * MILLISECOND
    ensures span / MILLISECOND == ms && span / SECOND == ms / 1000 && span / MINUTE == ms / 1000 / 60
    ensures span / HOUR == ms / 1000 / 60 / 60 && span / DAY == ms / 1000 / 60 / 60 / 24 && span % MILLISECOND == 0
  {
    CountStep(span, 0);
    CountStep(span, 1);
    CountStep(span, 2);
    CountStep(span, 3);
  }

  lemma CarryStep(shown: int, advance: int, now: int, i: nat)
    requires shown >= 0 && advance >= 0 && shown % MILLISECOND == 0 && shown / DAY < 31 && i < 5
    requires now == shown + advance
    ensures Carry(shown, advance, 0) == 0 && Carry(shown, advance, i) >= 0
    ensures var sum := Hands(shown)[i] + Inc(advance, i) + Carry(shown, advance, i);
            sum % LIMITS[i] == Hands(now)[i] && (i < 4 ==> sum / LIMITS[i] == Carry(shown, advance, i + 1))
  {
    CarryBounds(shown, advance, i);
    if i == 4 {
      DaySum(shown, advance);
    } else {
      CountStep(shown, i);
      CountStep(advance, i);
      CountStep(shown + advance, i);
      CarryDigit(Count(i, shown), Count(i, advance), Carry(shown, advance, i), Count(i, shown + advance), LIMITS[i],
                 Hands(shown)[i], Inc(advance, i));
    }
  }

  lemma DaySum(shown: int, advance: int)
    requires shown >= 0 && advance >= 0 && shown / DAY < 31
    ensures Hands(shown)[4] + Inc(advance, 4) + Carry(shown, advance, 4) == (shown + advance) / DAY
  {
    SmallDigit(shown / DAY, 31);
  }

  lemma CarryDigit(a: int, b: int, c: int, e: int, n: int, x: int, y: int)
    requires n > 0 && x == a % n && y == b % n && e == a + b + c
    ensures (x + y + c) % n == e % n && (x + y + c) / n == e / n - a / n - b / n
  {
    DivSum(a, b, c, n);
  }

  lemma CarryBounds(shown: int, advance: int, i: nat)
    requires shown >= 0 && advance >= 0 && shown % MILLISECOND == 0 && i < 5
    ensures Carry(shown, advance, 0) == 0 && Carry(shown, advance, i) >= 0
  {
    CarryIs(shown, advance, MILLISECOND);
    CarryIs(shown, advance, UNITS[i]);
  }

  lemma CarryIs(a: int, b: int, n: int)
    requires n > 0
    ensures (a + b) / n - a / n - b / n >= 0
    ensures a % n == 0 ==> (a + b) / n == a / n + b / n
  {
    DivSum(a, b, 0, n);
    if a % n == 0 {
      SmallDigit(b % n, n);
    }
  }

  lemma CountStep(span: int, i: nat)
    requires span >= 0 && i < 4
    ensures Count(i, span) / LIMITS[i] == Count(i + 1, span)
    ensures Hands(span)[i] == Count(i, span) % LIMITS[i]
  {
    DivDiv(span, UNITS[i], LIMITS[i]);
  }

  /** What unit `i` gains when the hands move, the carry from below included. */
  ghost function Gain(shown: int, advance: int, i: nat): int
    requires i < 5
  {
    Inc(advance, i) + Carry(shown, advance, i)
  }

  /** If no unit from `i` on gains, the count of units `i` has not changed. */
  lemma NoGain(elapsed: int, shown: int, advance: int, now: int, i: nat)
    requires 0 <= elapsed <= now == shown + advance && 1 <= i < 5 && advance >= 0
    requires shown == HandTime(Hands(elapsed)) && forall j :: i <= j < 5 ==> Gain(shown, advance, j) == 0
    ensures Count(i, now) == Count(i, elapsed)
  {
    HandsOfShown(Hands(elapsed));
    forall j | i <= j < 5 ensures Inc(advance, j) == 0 && Carry(shown, advance, j) == 0 {
      assert Gain(shown, advance, j) == 0;
      CarryBounds(shown, advance, j);
    }
    NothingFrom(advance, i);
    FirstLap(elapsed, shown, advance);
    PartOfMs(shown, elapsed - shown, i);
    assert Carry(shown, advance, i) == 0;
  }

  /** Less than a day after the hands were set, they are behind by a part of a millisecond only. */
  lemma FirstLap(elapsed: int, shown: int, advance: int)
    requires 0 <= elapsed <= shown + advance && advance < DAY && shown == HandTime(Hands(elapsed))
    ensures 0 <= elapsed - shown < MILLISECOND
  {
    HandTimeOf(elapsed);
  }

  /** A span with no digit from unit `i` on is shorter than that unit. */
  lemma {:induction false} NothingFrom(span: int, i: nat)
    requires span >= 0 && i < 5 && forall j :: i <= j < 5 ==> Inc(span, j) == 0
    ensures Count(i, span) == 0 && span < DAY
    decreases 5 - i
  {
    assert Inc(span, i) == 0;
    if i < 4 {
      NothingFrom(span, i + 1);
      CountStep(span, i);
      assert LIMITS[i] > 0;
    }
  }

  lemma PartOfMs(shown: int, part: int, i: nat)
    requires shown >= 0 && shown % MILLISECOND == 0 && 0 <= part < MILLISECOND && i < 5
    ensures Count(i, shown + part) == Count(i, shown)
  {
    PartOf(shown, part, MILLISECOND, UNITS[i] / MILLISECOND);
  }

  ghost predicate SameCount(i: nat, a: int, b: int)
    requires i < 5
  {
    Count(i, a) == Count(i, b)
  }

  /** Takes an advance apart, from the longest unit down. */
  method TakeApart(advance: int) returns (inc: seq<int>)
    requires advance >= 0
    ensures |inc| == 6 && forall j :: 0 <= j < 5 ==> inc[j] == Inc(advance, j)
  {
    inc := seq(6, _ => 0);
    var rest := advance;
    for i := 5 downto 0
      invariant |inc| == 6 && rest == Rest(advance, i)
      invariant forall j :: i <= j < 5 ==> inc[j] == Inc(advance, j)
    {
      IncStep(advance, i);
      inc := inc[i := rest / UNITS[i]];
      rest := rest % UNITS[i];
    }
  }

  /** Adds the parts to the hands, from the shortest unit up, and tells how many units that reached. */
  method AddUp(hand: seq<int>, parts: seq<int>, ghost shown: int, ghost advance: int, ghost now: int)
    returns (moved: seq<int>, reach: nat)
    requires 0 <= shown && hand == Hands(shown) && shown % MILLISECOND == 0 && shown / DAY < 31
    requires 0 <= advance && now == shown + advance
    requires |parts| == 6 && forall j :: 0 <= j < 5 ==> parts[j] == Inc(advance, j)
    ensures Shows(moved, now) && reach <= 5
    ensures forall j :: reach <= j < 5 ==> Gain(shown, advance, j) == 0
  {
    CarryBounds(shown, advance, 0);
    var inc := parts;
    moved, reach := hand, 0;
    for i := 0 to 5
      invariant |inc| == 6 && |moved| == 5 && reach <= i
      invariant forall j :: 0 <= j < i ==> moved[j] == Hands(now)[j]
      invariant forall j :: i <= j < 5 ==> moved[j] == hand[j]
      invariant i < 5 ==> inc[i] == Gain(shown, advance, i)
      invariant forall j :: i < j < 5 ==> inc[j] == Inc(advance, j)
      invariant forall j :: reach <= j < i ==> Gain(shown, advance, j) == 0
    {
      CarryStep(shown, advance, now, i);
      if inc[i] != 0 {
        var sum := moved[i] + inc[i];
        inc := inc[i + 1 := inc[i + 1] + sum / LIMITS[i]];
        moved := moved[i := sum % LIMITS[i]];
        reach := i + 1;
      } else {
        SmallDigit(hand[i], LIMITS[i]);
      }
    }
  }

  /** Moves the hands by an advance, and tells how many units it reached. */
  method MoveHands(hand: seq<int>, advance: int, ghost before: int, ghost now: int)
    returns (moved: seq<int>, reach: nat)
    requires 0 <= before <= now && Shows(hand, before) && advance == now - HandTime(hand) && advance >= 0
    ensures Shows(moved, now) && reach <= 5
    ensures forall i :: 1 <= i < 5 && reach <= i ==> SameCount(i, before, now)
  {
    HandsOfShown(hand);
    ghost var shown := HandTime(hand);
    var inc := TakeApart(advance);
    moved, reach := AddUp(hand, inc, shown, advance, now);
    forall i | 1 <= i < 5 && reach <= i ensures SameCount(i, before, now) {
      NoGain(before, shown, advance, now, i);
    }
  }

  lemma SmallDigit(x: int, n: int)
    requires 0 <= x < n
    ensures x % n == x && x / n == 0
  {
  }
}
