/** Unions and intersections of time spans, as sets of points. */
module TimeSpan {

  datatype Kind = Open | Closed

  datatype Span = Span(start: real, startType: Kind, end: real, endType: Kind)

  /** A span that starts before it ends, or a single point. */
  ghost predicate WellFormed(s: Span) {
    s.start < s.end || (s.start == s.end && s.startType.Closed? && s.endType.Closed?)
  }

  ghost predicate AllWellFormed(spans: seq<Span>) {
    forall i :: 0 <= i < |spans| ==> WellFormed(spans[i])
  }

  /** The points of a span. */
  ghost predicate Has(s: Span, p: real) {
    && (s.start < p || (s.start == p && s.startType.Closed?))
    && (p < s.end || (p == s.end && s.endType.Closed?))
  }

  /** How many of the spans a point is in. */
  ghost function Depth(spans: seq<Span>, p: real): nat {
    if spans == [] then 0 else (if Has(spans[0], p) then 1 else 0) + Depth(spans[1..], p)
  }

  lemma {:induction false} DepthJoin(a: seq<Span>, b: seq<Span>, p: real)
    ensures Depth(a + b, p) == Depth(a, p) + Depth(b, p)
  {
    if a == [] {
      assert a + b == b;
    } else {
      DepthJoin(a[1..], b, p);
      assert (a + b)[1..] == a[1..] + b;
    }
  }

  lemma DepthMore(a: seq<Span>, s: Span, p: real)
    ensures Depth(a + [s], p) == Depth(a, p) + if Has(s, p) then 1 else 0
  {
    DepthJoin(a, [s], p);
    assert [s][1..] == [];
  }

  /** A point is in one of the spans. */
  ghost predicate InSome(spans: seq<Span>, p: real) {
    exists i :: 0 <= i < |spans| && Has(spans[i], p)
  }

  /** A point is in two of the spans. */
  ghost predicate InTwo(spans: seq<Span>, p: real) {
    exists i, j :: 0 <= i < j < |spans| && Has(spans[i], p) && Has(spans[j], p)
  }

  lemma {:induction false} DepthSome(spans: seq<Span>, p: real)
    ensures Depth(spans, p) > 0 <==> InSome(spans, p)
  {
    if spans != [] {
      DepthSome(spans[1..], p);
      if Depth(spans[1..], p) > 0 {
        var i :| 0 <= i < |spans[1..]| && Has(spans[1..][i], p);
        assert Has(spans[i + 1], p);
      }
      if i :| 0 < i < |spans| && Has(spans[i], p) {
        assert Has(spans[1..][i - 1], p);
      }
    }
  }

  lemma {:induction false} DepthTwo(spans: seq<Span>, p: real)
    ensures Depth(spans, p) >= 2 <==> InTwo(spans, p)
  {
    if spans != [] {
      var rest := spans[1..];
      DepthTwo(rest, p);
      DepthSome(rest, p);
      if Depth(spans, p) >= 2 {
        if Depth(rest, p) >= 2 {
          var i, j :| 0 <= i < j < |rest| && Has(rest[i], p) && Has(rest[j], p);
          assert Has(spans[i + 1], p) && Has(spans[j + 1], p);
        } else {
          var j :| 0 <= j < |rest| && Has(rest[j], p);
          assert Has(spans[0], p) && Has(spans[j + 1], p);
        }
      }
      if InTwo(spans, p) {
        var i, j :| 0 <= i < j < |spans| && Has(spans[i], p) && Has(spans[j], p);
        assert Has(rest[j - 1], p);
        if i > 0 {
          assert Has(rest[i - 1], p);
        }
      }
    }
  }

  // ----- two spans -----

  function Looser(x: Kind, y: Kind): Kind { if x.Closed? then x else y }

  function Tighter(x: Kind, y: Kind): Kind { if x.Open? then x else y }

  predicate IsInstant(s: Span) { s.start == s.end }

  /** Side by side: one of them has the point where they meet, the other not. */
  predicate Contiguous(x: Span, y: Span) {
    if IsInstant(x) && IsInstant(y) then false else
      var (a, b) := if y.start < x.start then (y, x) else (x, y);
      var aStart := if IsInstant(a) then Closed else a.startType;
      var aEnd := if IsInstant(a) then Closed else a.endType;
      var bStart := if IsInstant(b) then Closed else b.startType;
      if a.start == b.start then aStart != bStart
      else a.end == b.start && aEnd != bStart
  }

  predicate Overlap(a: Span, b: Span) {
    var aStart := if IsInstant(a) then Closed else a.startType;
    var aEnd := if IsInstant(a) then Closed else a.endType;
    var bStart := if IsInstant(b) then Closed else b.startType;
    var bEnd := if IsInstant(b) then Closed else b.endType;
    var after := a.start > b.end || (a.start == b.end && (aStart.Open? || bEnd.Open?));
    var before := a.end < b.start || (a.end == b.start && (aEnd.Open? || bStart.Open?));
    !after && !before
  }

  /** Spans overlap just when they have a point in common. */
  lemma OverlapMeans(a: Span, b: Span)
    requires WellFormed(a) && WellFormed(b)
    ensures Overlap(a, b) <==> exists p :: Has(a, p) && Has(b, p)
  {
    if Overlap(a, b) {
      var lo := if a.start > b.start then a.start else b.start;
      var hi := if a.end < b.end then a.end else b.end;
      var p := (lo + hi) / 2.0;
      assert Has(a, p) && Has(b, p);
    }
  }

  /** The span from the earlier start to the later end. */
  function Merged(a: Span, b: Span): Span {
    var startType := if a.start == b.start then Looser(a.startType, b.startType)
                     else if a.start < b.start then a.startType else b.startType;
    var endType := if a.end == b.end then Looser(a.endType, b.endType)
                   else if a.end > b.end then a.endType else b.endType;
    Span(if a.start < b.start then a.start else b.start, startType, if a.end > b.end then a.end else b.end, endType)
  }

  lemma MergedIs(a: Span, b: Span, p: real)
    requires WellFormed(a) && WellFormed(b) && (Overlap(a, b) || Contiguous(a, b))
    ensures WellFormed(Merged(a, b)) && (Has(Merged(a, b), p) <==> Has(a, p) || Has(b, p))
  {
  }

  /** The span from the later start to the earlier end. */
  function Common(a: Span, b: Span): Span {
    var startType := if a.start == b.start then Tighter(a.startType, b.startType)
                     else if a.start > b.start then a.startType else b.startType;
    var endType := if a.end == b.end then Tighter(a.endType, b.endType)
                   else if a.end < b.end then a.endType else b.endType;
    Span(if a.start > b.start then a.start else b.start, startType, if a.end < b.end then a.end else b.end, endType)
  }

  lemma CommonIs(a: Span, b: Span, p: real)
    requires WellFormed(a) && WellFormed(b)
    ensures Has(Common(a, b), p) <==> Has(a, p) && Has(b, p)
    ensures Overlap(a, b) ==> WellFormed(Common(a, b))
    ensures Has(a, p) && Has(b, p) ==> Overlap(a, b)
  {
  }

  // ----- sorting -----

  ghost predicate ByStart(spans: seq<Span>) {
    forall i, j :: 0 <= i < j < |spans| ==> spans[i].start <= spans[j].start
  }

  /** The same spans, as far as any point can tell. */
  ghost predicate SameDepths(a: seq<Span>, b: seq<Span>) {
    forall p :: Depth(a, p) == Depth(b, p)
  }

  /** The spans that start at `x`, in order. */
  ghost function StartingAt(spans: seq<Span>, x: real): (f: seq<Span>)
    ensures forall i :: 0 <= i < |f| ==> f[i].start == x && f[i] in spans
  {
    if spans == [] then [] else
      var last := spans[|spans| - 1];
      StartingAt(spans[..|spans| - 1], x) + if last.start == x then [last] else []
  }

  lemma StartingMore(spans: seq<Span>, s: Span, x: real)
    ensures StartingAt(spans + [s], x) == if s.start == x then StartingAt(spans, x) + [s] else StartingAt(spans, x)
  {
    assert (spans + [s])[..|spans|] == spans;
  }

  lemma {:induction false} StartingJoin(a: seq<Span>, b: seq<Span>, x: real)
    ensures StartingAt(a + b, x) == StartingAt(a, x) + StartingAt(b, x)
    decreases |b|
  {
    if b == [] {
      assert a + b == a;
    } else {
      var front, last := b[..|b| - 1], b[|b| - 1];
      StartingJoin(a, front, x);
      assert b == front + [last] && a + b == (a + front) + [last];
      StartingMore(a + front, last, x);
    }
  }

  lemma {:induction false} StartingNone(spans: seq<Span>, x: real)
    requires forall i :: 0 <= i < |spans| ==> spans[i].start != x
    ensures StartingAt(spans, x) == []
  {
    if spans != [] {
      StartingNone(spans[..|spans| - 1], x);
    }
  }

  /** A span that starts at `x` is among those. */
  lemma {:induction false} StartingHas(spans: seq<Span>, i: nat)
    requires i < |spans|
    ensures spans[i] in StartingAt(spans, spans[i].start)
    decreases |spans|
  {
    if i < |spans| - 1 {
      StartingHas(spans[..|spans| - 1], i);
    }
  }

  /** The same spans, those that start together in the same order. */
  ghost predicate SameOrder(a: seq<Span>, b: seq<Span>) {
    forall x :: StartingAt(a, x) == StartingAt(b, x)
  }

  /** Puts a span behind those that start no later. */
  method Insert(sorted: seq<Span>, s: Span) returns (next: seq<Span>)
    requires ByStart(sorted)
    ensures ByStart(next) && multiset(next) == multiset(sorted + [s]) && SameDepths(next, sorted + [s])
    ensures SameOrder(next, sorted + [s])
  {
    var pos: nat := |sorted|;
    while pos > 0 && sorted[pos - 1].start > s.start
      invariant pos <= |sorted| && forall j :: pos <= j < |sorted| ==> sorted[j].start > s.start
    {
      pos := pos - 1;
    }
    next := sorted[..pos] + [s] + sorted[pos..];
    Placed(sorted, s, pos);
    PlacedSame(sorted, s, pos);
  }

  lemma PlacedSame(sorted: seq<Span>, s: Span, pos: nat)
    requires pos <= |sorted| && forall j :: pos <= j < |sorted| ==> sorted[j].start > s.start
    ensures SameOrder(sorted[..pos] + [s] + sorted[pos..], sorted + [s])
  {
    var front, back := sorted[..pos], sorted[pos..];
    assert sorted == front + back;
    forall x ensures StartingAt(front + [s] + back, x) == StartingAt(sorted + [s], x) {
      PlacedOrder(front, s, back, x);
    }
  }

  lemma PlacedOrder(front: seq<Span>, s: Span, back: seq<Span>, x: real)
    requires forall j :: 0 <= j < |back| ==> back[j].start > s.start
    ensures StartingAt(front + [s] + back, x) == StartingAt(front + back + [s], x)
  {
    StartingMore(front + back, s, x);
    StartingMore(front, s, x);
    StartingJoin(front + [s], back, x);
    StartingJoin(front, back, x);
    if x == s.start {
      StartingNone(back, x);
    }
  }

  lemma Placed(sorted: seq<Span>, s: Span, pos: nat)
    requires pos <= |sorted|
    ensures var next := sorted[..pos] + [s] + sorted[pos..];
            SameDepths(next, sorted + [s]) && multiset(next) == multiset(sorted + [s])
  {
    var front, back := sorted[..pos], sorted[pos..];
    assert sorted == front + back;
    forall p ensures Depth(front + [s] + back, p) == Depth(sorted + [s], p) {
      DepthMore(sorted, s, p);
      DepthMore(front, s, p);
      DepthJoin(front + [s], back, p);
      DepthJoin(front, back, p);
    }
  }

  /** Sorts by start, keeping the order of those that start together. */
  method Sorted(spans: seq<Span>) returns (sorted: seq<Span>)
    ensures ByStart(sorted) && multiset(sorted) == multiset(spans) && SameDepths(sorted, spans) &&
            SameOrder(sorted, spans)
  {
    sorted := [];
    for k := 0 to |spans|
      invariant ByStart(sorted) && multiset(sorted) == multiset(spans[..k]) && SameDepths(sorted, spans[..k])
      invariant SameOrder(sorted, spans[..k])
    {
      ghost var before := sorted;
      sorted := Insert(sorted, spans[k]);
      SortedStep(before, sorted, spans, k);
    }
    assert spans[..|spans|] == spans;
  }

  lemma SortedStep(before: seq<Span>, sorted: seq<Span>, spans: seq<Span>, k: nat)
    requires k < |spans| && multiset(before) == multiset(spans[..k]) && SameDepths(before, spans[..k])
    requires multiset(sorted) == multiset(before + [spans[k]]) && SameDepths(sorted, before + [spans[k]])
    requires SameOrder(before, spans[..k]) && SameOrder(sorted, before + [spans[k]])
    ensures multiset(sorted) == multiset(spans[..k + 1]) && SameDepths(sorted, spans[..k + 1])
    ensures SameOrder(sorted, spans[..k + 1])
  {
    assert spans[..k + 1] == spans[..k] + [spans[k]];
    DepthsStep(before, sorted, spans[..k], spans[k]);
    OrderStep(before, sorted, spans[..k], spans[k]);
  }

  lemma DepthsStep(before: seq<Span>, sorted: seq<Span>, spans: seq<Span>, s: Span)
    requires SameDepths(before, spans) && SameDepths(sorted, before + [s])
    ensures SameDepths(sorted, spans + [s])
  {
    forall p ensures Depth(sorted, p) == Depth(spans + [s], p) {
      DepthMore(before, s, p);
      DepthMore(spans, s, p);
    }
  }

  lemma OrderStep(before: seq<Span>, sorted: seq<Span>, spans: seq<Span>, s: Span)
    requires SameOrder(before, spans) && SameOrder(sorted, before + [s])
    ensures SameOrder(sorted, spans + [s])
  {
    forall x ensures StartingAt(sorted, x) == StartingAt(spans + [s], x) {
      StartingMore(before, s, x);
      StartingMore(spans, s, x);
    }
  }

  lemma WellFormedSorted(spans: seq<Span>, sorted: seq<Span>)
    requires AllWellFormed(spans) && multiset(sorted) == multiset(spans)
    ensures AllWellFormed(sorted) && |sorted| == |spans|
  {
    assert |sorted| == |multiset(sorted)| == |multiset(spans)| == |spans|;
    forall i | 0 <= i < |sorted| ensures WellFormed(sorted[i]) {
      assert sorted[i] in multiset(spans);
    }
  }

  // ----- union -----

  /** `a` ends before `b` starts, or where it starts without having that point. */
  ghost predicate Clear(a: Span, b: Span) {
    a.end < b.start || (a.end == b.start && a.endType.Open?)
  }

  ghost predicate Disjoint(spans: seq<Span>) {
    forall i, j :: 0 <= i < j < |spans| ==> Clear(spans[i], spans[j])
  }

  /** Spans that are clear of one another have no point in common. */
  lemma DisjointMeans(spans: seq<Span>, i: nat, j: nat, p: real)
    requires Disjoint(spans) && i < j < |spans|
    ensures !(Has(spans[i], p) && Has(spans[j], p))
  {
    assert Clear(spans[i], spans[j]);
  }

  ghost predicate Covers(spans: seq<Span>, others: seq<Span>) {
    forall p :: Depth(spans, p) > 0 <==> Depth(others, p) > 0
  }

  // ----- spans side by side that are not merged -----

  /** `e` is where the last of the spans that start before `y` ends, and `t` whether it has that point. */
  ghost predicate EndBefore(spans: seq<Span>, y: real, e: real, t: Kind) {
    && (exists i :: 0 <= i < |spans| && spans[i].start < y && spans[i].end == e && spans[i].endType == t)
    && (forall i :: 0 <= i < |spans| && spans[i].start < y ==> NotPast(spans[i], e, t))
  }

  ghost predicate NotPast(s: Span, e: real, t: Kind) {
    s.end < e || (s.end == e && (s.endType.Open? || t.Closed?))
  }

  /** The same of all spans. */
  ghost predicate EndOf(spans: seq<Span>, e: real, t: Kind) {
    && (exists i :: 0 <= i < |spans| && spans[i].end == e && spans[i].endType == t)
    && (forall i :: 0 <= i < |spans| ==> NotPast(spans[i], e, t))
  }

  ghost predicate AnyClosed(f: seq<Span>) {
    exists i :: 0 <= i < |f| && f[i].startType.Closed?
  }

  /** What starts earlier comes up to `x` and no further, and the first of the spans that start there does not
      have that point. */
  ghost predicate GapAt(spans: seq<Span>, x: real) {
    var f := StartingAt(spans, x);
    f != [] && f[0].startType.Open? && EndBefore(spans, x, x, Open)
  }

  /** Another of them has it. */
  ghost predicate SeamAt(spans: seq<Span>, x: real) {
    GapAt(spans, x) && AnyClosed(StartingAt(spans, x))
  }

  ghost predicate Seam(spans: seq<Span>) {
    exists x :: SeamAt(spans, x)
  }

  /** Some neighbours in the result are side by side. */
  ghost predicate SideBySide(result: seq<Span>) {
    exists i :: 0 <= i < |result| - 1 && Contiguous(result[i], result[i + 1])
  }

  /** The last span of the result, against the spans so far: how it starts, where it ends, what comes before it,
      and that there is no gap inside it. */
  ghost predicate LastFits(spans: seq<Span>, result: seq<Span>)
    requires result != []
  {
    var n := |result| - 1;
    var last := result[n];
    var f := StartingAt(spans, last.start);
    && f != [] && (last.startType.Closed? <==> AnyClosed(f)) && EndOf(spans, last.end, last.endType)
    && (if n == 0 then forall i :: 0 <= i < |spans| ==> spans[i].start >= last.start
        else EndBefore(spans, last.start, result[n - 1].end, result[n - 1].endType) &&
             (result[n - 1].end == last.start ==> f[0].startType.Open?))
    && NoGapPast(spans, last.start)
  }

  ghost predicate NoGapPast(spans: seq<Span>, y: real) {
    forall x :: x > y ==> !GapAt(spans, x)
  }

  /** None of the spans starts after `b`. */
  ghost predicate AllBefore(spans: seq<Span>, b: Span) {
    forall i :: 0 <= i < |spans| ==> spans[i].start <= b.start
  }

  /** The spans before the last are side by side just where there are seams before it. */
  ghost predicate RestFits(spans: seq<Span>, result: seq<Span>)
    requires result != []
  {
    SideBySide(result[..|result| - 1]) <==> SeamBelow(spans, result[|result| - 1].start)
  }

  ghost predicate SeamBelow(spans: seq<Span>, y: real) {
    exists x :: x < y && SeamAt(spans, x)
  }

  lemma EndUnique(spans: seq<Span>, y: real, e: real, t: Kind, e': real, t': Kind)
    requires EndBefore(spans, y, e, t) && EndBefore(spans, y, e', t')
    ensures e == e' && t == t'
  {
    var i :| 0 <= i < |spans| && spans[i].start < y && spans[i].end == e && spans[i].endType == t;
    var j :| 0 <= j < |spans| && spans[j].start < y && spans[j].end == e' && spans[j].endType == t';
    assert NotPast(spans[i], e', t') && NotPast(spans[j], e, t);
  }

  /** The last span and the one before it. */
  lemma LastSeam(spans: seq<Span>, result: seq<Span>)
    requires result != [] && AllWellFormed(result) && Disjoint(result) && LastFits(spans, result)
    ensures var n := |result| - 1; SeamAt(spans, result[n].start) <==> n > 0 && Contiguous(result[n - 1], result[n])
  {
    var n := |result| - 1;
    if n > 0 {
      var p, last := result[n - 1], result[n];
      assert Clear(p, last);
      if SeamAt(spans, last.start) {
        EndUnique(spans, last.start, last.start, Open, p.end, p.endType);
      }
    }
  }

  /** Together they tell whether any spans of the result are side by side. */
  lemma SeamsAre(spans: seq<Span>, result: seq<Span>)
    requires result != [] && AllWellFormed(result) && Disjoint(result) && LastFits(spans, result)
    requires RestFits(spans, result)
    ensures SideBySide(result) <==> Seam(spans)
  {
    LastSeam(spans, result);
    SideLast(result);
    SeamLast(spans, result[|result| - 1].start);
  }

  lemma SideLast(result: seq<Span>)
    requires result != []
    ensures var n := |result| - 1;
            SideBySide(result) <==> SideBySide(result[..n]) || (n > 0 && Contiguous(result[n - 1], result[n]))
  {
    var n := |result| - 1;
    var rest := result[..n];
    if SideBySide(result) {
      var i :| 0 <= i < n && Contiguous(result[i], result[i + 1]);
      if i < n - 1 {
        assert Contiguous(rest[i], rest[i + 1]);
      }
    }
    if SideBySide(rest) {
      var i :| 0 <= i < n - 1 && Contiguous(rest[i], rest[i + 1]);
      assert Contiguous(result[i], result[i + 1]);
    }
  }

  lemma SeamLast(spans: seq<Span>, y: real)
    requires NoGapPast(spans, y)
    ensures Seam(spans) <==> SeamAt(spans, y) || SeamBelow(spans, y)
  {
    if x :| SeamAt(spans, x) {
      assert x <= y;
    }
  }

  lemma EndMore(spans: seq<Span>, b: Span, y: real, e: real, t: Kind)
    requires b.start >= y
    ensures EndBefore(spans + [b], y, e, t) <==> EndBefore(spans, y, e, t)
  {
    var more := spans + [b];
    if EndBefore(spans, y, e, t) {
      var i :| 0 <= i < |spans| && spans[i].start < y && spans[i].end == e && spans[i].endType == t;
      assert more[i] == spans[i];
    }
    if EndBefore(more, y, e, t) {
      var i :| 0 <= i < |more| && more[i].start < y && more[i].end == e && more[i].endType == t;
      assert spans[i] == more[i];
      forall j | 0 <= j < |spans| && spans[j].start < y ensures NotPast(spans[j], e, t) { assert more[j] == spans[j]; }
    }
  }

  /** A later span changes nothing about gaps and seams where it does not start. */
  lemma SeamMore(spans: seq<Span>, b: Span, x: real)
    requires b.start > x || StartingAt(spans, x) != []
    requires b.start >= x
    ensures GapAt(spans + [b], x) <==> GapAt(spans, x)
    ensures b.start > x ==> (SeamAt(spans + [b], x) <==> SeamAt(spans, x))
  {
    StartingMore(spans, b, x);
    EndMore(spans, b, x, x, Open);
  }

  lemma EndOfMore(spans: seq<Span>, b: Span, e: real, t: Kind, e': real, t': Kind)
    requires EndOf(spans, e, t)
    requires if b.end > e then e' == b.end && t' == b.endType
             else e' == e && t' == if b.end == e then Looser(t, b.endType) else t
    ensures EndOf(spans + [b], e', t')
  {
    var more := spans + [b];
    var i :| 0 <= i < |spans| && spans[i].end == e && spans[i].endType == t;
    assert more[i] == spans[i] && more[|spans|] == b;
    forall j | 0 <= j < |more| ensures NotPast(more[j], e', t') {
      if j < |spans| {
        assert NotPast(spans[j], e, t) && more[j] == spans[j];
      }
    }
  }

  lemma ClosedMore(f: seq<Span>, b: Span)
    ensures AnyClosed(f + [b]) <==> AnyClosed(f) || b.startType.Closed?
  {
    var more := f + [b];
    assert more[|f|] == b;
    if AnyClosed(f) {
      var i :| 0 <= i < |f| && f[i].startType.Closed?;
      assert more[i] == f[i];
    }
  }

  /** The next span is merged into the last of the result. */
  lemma MergeFits(spans: seq<Span>, result: seq<Span>, b: Span)
    requires result != [] && AllWellFormed(result) && WellFormed(b) && LastFits(spans, result)
    requires AllBefore(spans, b)
    requires var a := result[|result| - 1]; a.start <= b.start && (Overlap(a, b) || Contiguous(a, b))
    ensures var n := |result| - 1; LastFits(spans + [b], result[n := Merged(result[n], b)])
  {
    var n := |result| - 1;
    var a := result[n];
    var m, more, f := Merged(a, b), spans + [b], StartingAt(spans, a.start);
    StartingMore(spans, b, a.start);
    ClosedMore(f, b);
    EndOfMore(spans, b, a.end, a.endType, m.end, m.endType);
    if n > 0 {
      EndMore(spans, b, a.start, result[n - 1].end, result[n - 1].endType);
    }
    forall x | x > a.start ensures !GapAt(more, x) { MergeNoGap(spans, a, b, x); }
  }

  /** No gap comes up inside it. */
  lemma MergeNoGap(spans: seq<Span>, a: Span, b: Span, x: real)
    requires WellFormed(a) && WellFormed(b) && EndOf(spans, a.end, a.endType) && !GapAt(spans, x)
    requires AllBefore(spans, b)
    requires a.start <= b.start && (Overlap(a, b) || Contiguous(a, b)) && x > a.start
    ensures !GapAt(spans + [b], x)
  {
    StartingMore(spans, b, x);
    if b.start >= x {
      EndMore(spans, b, x, x, Open);
      if StartingAt(spans, x) == [] && b.start == x && EndBefore(spans, x, x, Open) {
        EndIsAll(spans, x, a.end, a.endType);
        EndUnique(spans, x, x, Open, a.end, a.endType);
      }
    } else {
      BeyondNone(spans, b, x);
    }
  }

  /** Where nothing starts at `x` or later, the end of what starts before is the end of all. */
  lemma EndIsAll(spans: seq<Span>, x: real, e: real, t: Kind)
    requires EndOf(spans, e, t) && StartingAt(spans, x) == [] && forall i :: 0 <= i < |spans| ==> spans[i].start <= x
    ensures EndBefore(spans, x, e, t)
  {
    forall i | 0 <= i < |spans| ensures spans[i].start < x { StartingHas(spans, i); }
    var i :| 0 <= i < |spans| && spans[i].end == e && spans[i].endType == t;
    assert spans[i].start < x;
  }

  lemma BeyondNone(spans: seq<Span>, b: Span, x: real)
    requires b.start < x && AllBefore(spans, b)
    ensures StartingAt(spans + [b], x) == []
  {
    StartingNone(spans + [b], x);
  }

  /** The next span is put behind the last of the result. */
  lemma AppendFits(spans: seq<Span>, result: seq<Span>, b: Span)
    requires result != [] && LastFits(spans, result) && StartingAt(spans, b.start) == [] && AllBefore(spans, b)
    requires var a := result[|result| - 1];
             EndBefore(spans, b.start, a.end, a.endType) && (a.end == b.start ==> b.startType.Open?)
    requires EndOf(spans + [b], b.end, b.endType)
    ensures LastFits(spans + [b], result + [b])
  {
    var a, more := result[|result| - 1], spans + [b];
    StartingMore(spans, b, b.start);
    var f := StartingAt(more, b.start);
    assert f == [b] && f[0] == b;
    EndMore(spans, b, b.start, a.end, a.endType);
    forall x | x > b.start ensures !GapAt(more, x) { BeyondNone(spans, b, x); }
    assert NoGapPast(more, b.start);
  }

  /** It starts past everything before it. */
  lemma AppendEnds(spans: seq<Span>, a: Span, b: Span)
    requires AllWellFormed(spans) && WellFormed(a) && WellFormed(b) && EndOf(spans, a.end, a.endType)
    requires AllBefore(spans, b) && a.start <= b.start && !Overlap(a, b) && !Contiguous(a, b)
    ensures StartingAt(spans, b.start) == [] && EndBefore(spans, b.start, a.end, a.endType)
    ensures (a.end == b.start ==> b.startType.Open?) && EndOf(spans + [b], b.end, b.endType)
  {
    assert a.end < b.start || (a.end == b.start && a.endType.Open? && b.startType.Open?);
    forall i | 0 <= i < |spans| ensures spans[i].start != b.start {
      assert WellFormed(spans[i]) && NotPast(spans[i], a.end, a.endType);
    }
    StartingNone(spans, b.start);
    EndIsAll(spans, b.start, a.end, a.endType);
    EndOfMore(spans, b, a.end, a.endType, b.end, b.endType);
  }

  lemma RestMerged(spans: seq<Span>, result: seq<Span>, b: Span, m: Span)
    requires result != [] && RestFits(spans, result) && m.start == result[|result| - 1].start <= b.start
    ensures RestFits(spans + [b], result[|result| - 1 := m])
  {
    var n := |result| - 1;
    assert result[n := m][..n] == result[..n];
    SeamsBelow(spans, b, m.start);
  }

  lemma RestAppended(spans: seq<Span>, result: seq<Span>, b: Span)
    requires result != [] && (SideBySide(result) <==> Seam(spans))
    requires StartingAt(spans, b.start) == [] && AllBefore(spans, b)
    ensures RestFits(spans + [b], result + [b])
  {
    var next := result + [b];
    assert next[..|result|] == result && next[|result|] == b;
    SeamsBelow(spans, b, b.start);
    forall x | SeamAt(spans, x) ensures x < b.start { SeamBefore(spans, b, x); }
  }

  lemma SeamsBelow(spans: seq<Span>, b: Span, y: real)
    requires y <= b.start
    ensures SeamBelow(spans + [b], y) <==> SeamBelow(spans, y)
  {
    forall x | x < y ensures SeamAt(spans + [b], x) <==> SeamAt(spans, x) { SeamMore(spans, b, x); }
  }

  lemma SeamBefore(spans: seq<Span>, b: Span, x: real)
    requires StartingAt(spans, b.start) == [] && AllBefore(spans, b) && SeamAt(spans, x)
    ensures x < b.start
  {
    var f := StartingAt(spans, x);
    assert f[0] in spans && f[0].start == x;
  }

  // ----- the union -----

  /** Disjoint spans in order, with the points of the given ones. */
  ghost predicate Joined(spans: seq<Span>, result: seq<Span>) {
    result != [] && AllWellFormed(result) && Disjoint(result) && ByStart(result) && Covers(result, spans)
  }

  /** The union so far. */
  ghost predicate United(spans: seq<Span>, result: seq<Span>) {
    Joined(spans, result) && LastFits(spans, result) && RestFits(spans, result)
  }

  /** The union: disjoint spans with exactly the points of the given ones. None of them are side by side, unless
      the given ones leave a seam. */
  method Union(spans: seq<Span>) returns (result: seq<Span>)
    requires AllWellFormed(spans)
    ensures AllWellFormed(result) && Disjoint(result) && forall p :: InSome(result, p) <==> InSome(spans, p)
    ensures SideBySide(result) <==> Seam(spans)
  {
    if |spans| < 2 {
      NoSeam(spans);
      return spans;
    }
    var sorted := Sorted(spans);
    WellFormedSorted(spans, sorted);
    result := Swept(sorted);
    UnitedSorted(spans, sorted, result);
  }

  /** Takes the spans in order of their starts. */
  method Swept(sorted: seq<Span>) returns (result: seq<Span>)
    requires sorted != [] && ByStart(sorted) && AllWellFormed(sorted)
    ensures United(sorted, result)
  {
    result := [sorted[0]];
    UniteFirst(sorted[0]);
    assert sorted[..1] == [sorted[0]];
    for k := 1 to |sorted|
      invariant United(sorted[..k], result)
    {
      Preceding(sorted, k);
      result := Unite(result, sorted[k], sorted[..k]);
    }
    assert sorted[..|sorted|] == sorted;
  }

  /** The next span: merged into the last, or behind it. */
  method Unite(result: seq<Span>, b: Span, ghost spans: seq<Span>) returns (next: seq<Span>)
    requires United(spans, result) && AllBefore(spans, b) && AllWellFormed(spans) && WellFormed(b)
    ensures United(spans + [b], next)
  {
    var n := |result| - 1;
    var a := result[n];
    if Overlap(a, b) || Contiguous(a, b) {
      UniteMerged(spans, result, b);
      return result[n := Merged(a, b)];
    }
    UniteApart(spans, result, b);
    return result + [b];
  }

  lemma Preceding(sorted: seq<Span>, k: nat)
    requires k < |sorted| && ByStart(sorted) && AllWellFormed(sorted)
    ensures sorted[..k + 1] == sorted[..k] + [sorted[k]]
    ensures AllBefore(sorted[..k], sorted[k]) && AllWellFormed(sorted[..k]) && WellFormed(sorted[k])
  {
  }

  lemma NoSeam(spans: seq<Span>)
    requires |spans| < 2
    ensures !Seam(spans) && !SideBySide(spans)
  {
    forall x ensures !SeamAt(spans, x) {
      if spans != [] {
        assert spans == [] + [spans[0]];
        StartingMore([], spans[0], x);
      }
    }
  }

  lemma UniteFirst(first: Span)
    requires WellFormed(first)
    ensures United([first], [first])
  {
    FirstFits(first);
    NoSeam([first]);
    assert [first][..0] == [];
  }

  lemma FirstFits(first: Span)
    ensures LastFits([first], [first])
  {
    var spans := [first];
    assert spans == [] + [first];
    StartingMore([], first, first.start);
    var f := StartingAt(spans, first.start);
    assert f == [first] && f[0] == first && spans[0] == first;
    assert NoGapPast(spans, first.start) by {
      forall x | x > first.start ensures !GapAt(spans, x) { StartingMore([], first, x); }
    }
  }

  lemma UniteMerged(spans: seq<Span>, result: seq<Span>, b: Span)
    requires United(spans, result) && AllBefore(spans, b) && WellFormed(b)
    requires var a := result[|result| - 1]; Overlap(a, b) || Contiguous(a, b)
    ensures var n := |result| - 1; United(spans + [b], result[n := Merged(result[n], b)])
  {
    var n := |result| - 1;
    LastBefore(spans, result, b);
    JoinLast(spans, result, b);
    MergeFits(spans, result, b);
    RestMerged(spans, result, b, Merged(result[n], b));
  }

  lemma UniteApart(spans: seq<Span>, result: seq<Span>, b: Span)
    requires United(spans, result) && AllBefore(spans, b) && AllWellFormed(spans) && WellFormed(b)
    requires var a := result[|result| - 1]; !Overlap(a, b) && !Contiguous(a, b)
    ensures United(spans + [b], result + [b])
  {
    LastBefore(spans, result, b);
    AddLast(spans, result, b);
    SeamsAre(spans, result);
    AppendEnds(spans, result[|result| - 1], b);
    AppendFits(spans, result, b);
    RestAppended(spans, result, b);
  }

  lemma LastBefore(spans: seq<Span>, result: seq<Span>, b: Span)
    requires result != [] && LastFits(spans, result) && AllBefore(spans, b)
    ensures result[|result| - 1].start <= b.start
  {
    var y := result[|result| - 1].start;
    assert StartingAt(spans, y)[0] in spans;
  }

  lemma JoinLast(spans: seq<Span>, result: seq<Span>, b: Span)
    requires Joined(spans, result) && WellFormed(b)
    requires var a := result[|result| - 1]; a.start <= b.start && (Overlap(a, b) || Contiguous(a, b))
    ensures var n := |result| - 1; Joined(spans + [b], result[n := Merged(result[n], b)])
  {
    var n := |result| - 1;
    var a := result[n];
    var front, m := result[..n], Merged(a, b);
    MergedIs(a, b, 0.0);
    assert result == front + [a] && result[n := m] == front + [m];
    forall p ensures Depth(front + [m], p) > 0 <==> Depth(spans + [b], p) > 0 {
      DepthMore(front, m, p);
      DepthMore(front, a, p);
      DepthMore(spans, b, p);
      MergedIs(a, b, p);
      assert Depth(result, p) > 0 <==> Depth(spans, p) > 0;
    }
  }

  lemma AddLast(spans: seq<Span>, result: seq<Span>, b: Span)
    requires Joined(spans, result) && WellFormed(b)
    requires var a := result[|result| - 1]; a.start <= b.start && !Overlap(a, b) && !Contiguous(a, b)
    ensures Joined(spans + [b], result + [b])
  {
    var n := |result| - 1;
    var a := result[n];
    assert Clear(a, b);
    forall i | 0 <= i < n ensures Clear(result[i], b) {
      assert Clear(result[i], a);
    }
    forall p ensures Depth(result + [b], p) > 0 <==> Depth(spans + [b], p) > 0 {
      DepthMore(result, b, p);
      DepthMore(spans, b, p);
      assert Depth(result, p) > 0 <==> Depth(spans, p) > 0;
    }
  }

  lemma UnitedSorted(spans: seq<Span>, sorted: seq<Span>, result: seq<Span>)
    requires United(sorted, result)
    requires multiset(sorted) == multiset(spans) && SameDepths(sorted, spans) && SameOrder(sorted, spans)
    ensures (forall p :: InSome(result, p) <==> InSome(spans, p)) && (SideBySide(result) <==> Seam(spans))
  {
    forall p ensures InSome(result, p) <==> InSome(spans, p) {
      DepthSome(result, p);
      DepthSome(spans, p);
      assert Depth(result, p) > 0 <==> Depth(sorted, p) > 0;
    }
    SeamsAre(sorted, result);
    forall x ensures SeamAt(sorted, x) <==> SeamAt(spans, x) {
      SameEnd(sorted, spans, x, x, Open);
      SameEnd(spans, sorted, x, x, Open);
      assert StartingAt(sorted, x) == StartingAt(spans, x);
    }
  }

  lemma SameEnd(a: seq<Span>, b: seq<Span>, y: real, e: real, t: Kind)
    requires multiset(a) == multiset(b)
    ensures EndBefore(a, y, e, t) ==> EndBefore(b, y, e, t)
  {
    if EndBefore(a, y, e, t) {
      var i :| 0 <= i < |a| && a[i].start < y && a[i].end == e && a[i].endType == t;
      assert a[i] in multiset(b);
      var j :| 0 <= j < |b| && b[j] == a[i];
      forall j | 0 <= j < |b| && b[j].start < y ensures NotPast(b[j], e, t) {
        assert b[j] in multiset(a);
        var i :| 0 <= i < |a| && a[i] == b[j];
        assert NotPast(a[i], e, t);
      }
    }
  }

  /** Three spans that leave a seam: the second starts where the first ends, without that point, and the third
      starts there with it. */
  method SeamLeft() returns (result: seq<Span>)
    ensures SideBySide(result)
  {
    var spans := [Span(0.0, Open, 1.0, Open), Span(1.0, Open, 2.0, Open), Span(1.0, Closed, 3.0, Open)];
    SeamThere(spans);
    result := Union(spans);
  }

  lemma SeamThere(spans: seq<Span>)
    requires spans == [Span(0.0, Open, 1.0, Open), Span(1.0, Open, 2.0, Open), Span(1.0, Closed, 3.0, Open)]
    ensures Seam(spans)
  {
    var f := StartingAt(spans, 1.0);
    assert f == [spans[1], spans[2]] by { SeamStarts(spans); }
    assert f[0] == spans[1] && f[1] == spans[2];
    assert spans[0].start < 1.0 && spans[0].end == 1.0 && spans[0].endType == Open;
    assert EndBefore(spans, 1.0, 1.0, Open);
    assert SeamAt(spans, 1.0);
  }

  lemma SeamStarts(spans: seq<Span>)
    requires |spans| == 3 && spans[0].start != 1.0 && spans[1].start == 1.0 && spans[2].start == 1.0
    ensures StartingAt(spans, 1.0) == [spans[1], spans[2]]
  {
    var one, two := [spans[0]], [spans[0], spans[1]];
    assert one == [] + [spans[0]] && two == one + [spans[1]] && spans == two + [spans[2]];
    StartingMore([], spans[0], 1.0);
    StartingMore(one, spans[1], 1.0);
    StartingMore(two, spans[2], 1.0);
  }

  // ----- intersection -----

  /** The active spans hold every earlier one that reaches as far as `from`. */
  ghost predicate Active(actives: seq<Span>, earlier: seq<Span>, from: real) {
    forall p :: p >= from ==> Depth(actives, p) == Depth(earlier, p)
  }

  /** Drops the active spans that end before `b` starts. */
  method Filtered(spans: seq<Span>, b: Span) returns (kept: seq<Span>)
    requires AllWellFormed(spans) && WellFormed(b)
    ensures AllWellFormed(kept) && forall p :: p >= b.start ==> Depth(kept, p) == Depth(spans, p)
  {
    kept := [];
    for i := 0 to |spans|
      invariant AllWellFormed(kept) && forall p :: p >= b.start ==> Depth(kept, p) == Depth(spans[..i], p)
    {
      var t := spans[i];
      ghost var before := kept;
      if (b.start == t.start && b.end == t.end) || !(b.start > t.end) {
        kept := kept + [t];
      }
      FilterStep(before, kept, spans, i, b);
    }
    assert spans[..|spans|] == spans;
  }

  lemma FilterStep(before: seq<Span>, kept: seq<Span>, spans: seq<Span>, i: nat, b: Span)
    requires i < |spans| && WellFormed(b) && forall p :: p >= b.start ==> Depth(before, p) == Depth(spans[..i], p)
    requires kept == before + [spans[i]] || (kept == before && b.start > spans[i].end)
    ensures forall p :: p >= b.start ==> Depth(kept, p) == Depth(spans[..i + 1], p)
  {
    assert spans[..i + 1] == spans[..i] + [spans[i]];
    forall p | p >= b.start ensures Depth(kept, p) == Depth(spans[..i + 1], p) {
      DepthMore(before, spans[i], p);
      DepthMore(spans[..i], spans[i], p);
    }
  }

  /** What `b` has in common with each of the active spans it overlaps. */
  method Pairs(actives: seq<Span>, b: Span) returns (more: seq<Span>)
    requires AllWellFormed(actives) && WellFormed(b)
    ensures AllWellFormed(more) && forall p :: Depth(more, p) > 0 <==> Depth(actives, p) > 0 && Has(b, p)
  {
    more := [];
    for i := 0 to |actives|
      invariant AllWellFormed(more)
      invariant forall p :: Depth(more, p) > 0 <==> Depth(actives[..i], p) > 0 && Has(b, p)
    {
      var a := actives[i];
      ghost var before := more;
      if Overlap(a, b) {
        CommonIs(a, b, 0.0);
        more := more + [Common(a, b)];
      }
      PairStep(before, more, actives, i, b);
    }
    assert actives[..|actives|] == actives;
  }

  lemma PairStep(before: seq<Span>, more: seq<Span>, actives: seq<Span>, i: nat, b: Span)
    requires i < |actives| && WellFormed(actives[i]) && WellFormed(b)
    requires forall p :: Depth(before, p) > 0 <==> Depth(actives[..i], p) > 0 && Has(b, p)
    requires more == if Overlap(actives[i], b) then before + [Common(actives[i], b)] else before
    ensures forall p :: Depth(more, p) > 0 <==> Depth(actives[..i + 1], p) > 0 && Has(b, p)
  {
    var a := actives[i];
    assert actives[..i + 1] == actives[..i] + [a];
    forall p ensures Depth(more, p) > 0 <==> Depth(actives[..i + 1], p) > 0 && Has(b, p) {
      CommonIs(a, b, p);
      DepthMore(actives[..i], a, p);
      DepthMore(before, Common(a, b), p);
      assert Depth(before, p) > 0 <==> Depth(actives[..i], p) > 0 && Has(b, p);
    }
  }

  lemma StillActive(before: seq<Span>, kept: seq<Span>, sorted: seq<Span>, k: nat)
    requires 1 <= k < |sorted| && sorted[k - 1].start <= sorted[k].start
    requires Active(before, sorted[..k], sorted[k - 1].start)
    requires forall p :: p >= sorted[k].start ==> Depth(kept, p) == Depth(before, p)
    ensures Active(kept, sorted[..k], sorted[k].start) && Active(kept + [sorted[k]], sorted[..k + 1], sorted[k].start)
  {
    assert sorted[..k + 1] == sorted[..k] + [sorted[k]];
    forall p | p >= sorted[k].start ensures Depth(kept + [sorted[k]], p) == Depth(sorted[..k + 1], p) {
      DepthMore(kept, sorted[k], p);
      DepthMore(sorted[..k], sorted[k], p);
    }
  }

  lemma Deeper(result: seq<Span>, more: seq<Span>, actives: seq<Span>, sorted: seq<Span>, k: nat)
    requires k < |sorted| && Active(actives, sorted[..k], sorted[k].start)
    requires forall p :: Depth(result, p) > 0 <==> Depth(sorted[..k], p) >= 2
    requires forall p :: Depth(more, p) > 0 <==> Depth(actives, p) > 0 && Has(sorted[k], p)
    ensures forall p :: Depth(result + more, p) > 0 <==> Depth(sorted[..k + 1], p) >= 2
  {
    assert sorted[..k + 1] == sorted[..k] + [sorted[k]];
    forall p ensures Depth(result + more, p) > 0 <==> Depth(sorted[..k + 1], p) >= 2 {
      DepthJoin(result, more, p);
      DepthMore(sorted[..k], sorted[k], p);
      assert Depth(result, p) > 0 <==> Depth(sorted[..k], p) >= 2;
      assert Depth(more, p) > 0 <==> Depth(actives, p) > 0 && Has(sorted[k], p);
    }
  }

  /** The intersection: exactly the points that lie in two of the spans or more. */
  method Intersection(spans: seq<Span>) returns (result: seq<Span>)
    requires AllWellFormed(spans) && spans != []
    ensures AllWellFormed(result) && forall p :: InSome(result, p) <==> InTwo(spans, p)
  {
    var sorted := Sorted(spans);
    WellFormedSorted(spans, sorted);
    var actives := [sorted[0]];
    result := [];
    assert sorted[..1] == [sorted[0]];
    for k := 1 to |sorted|
      invariant AllWellFormed(result) && AllWellFormed(actives)
      invariant Active(actives, sorted[..k], sorted[k - 1].start)
      invariant forall p :: Depth(result, p) > 0 <==> Depth(sorted[..k], p) >= 2
    {
      var b := sorted[k];
      ghost var before := actives;
      actives := Filtered(actives, b);
      var more := Pairs(actives, b);
      StillActive(before, actives, sorted, k);
      Deeper(result, more, actives, sorted, k);
      result := result + more;
      actives := actives + [b];
    }
    assert sorted[..|sorted|] == sorted;
    forall p ensures InSome(result, p) <==> InTwo(spans, p) {
      DepthSome(result, p);
      DepthTwo(spans, p);
      assert Depth(result, p) > 0 <==> Depth(sorted, p) >= 2;
    }
  }
}
