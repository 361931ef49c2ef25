/** Range iteration over a B-tree, against a filter over its sorted contents. */
module BTreeIterate {
  import opened BTreeOrder
  import opened BTreeShape
  import opened BTreeSearch
  import opened BTreeMemory
  import opened BTreeUpdate
  import opened BTreeForest

  /** What to visit. The callback answers, from all calls made so far, whether to go on. */
  datatype Query<!T> = Query(lt: (T, T) -> bool, start: Option<T>, stop: Option<T>, includeStart: bool,
                             visit: seq<T> -> bool)

  /** Progress: whether an item was reached, whether to go on, and the calls made. */
  datatype Walk<T> = Walk(hit: bool, ok: bool, seen: seq<T>)

  function Call<T>(q: Query<T>, x: T, w: Walk<T>): Walk<T> {
    Walk(true, q.visit(w.seen + [x]), w.seen + [x])
  }

  /** One call after another, until one answers no. */
  ghost function VisitAll<T>(visit: seq<T> -> bool, seen: seq<T>, r: seq<T>): seq<T>
    decreases |r|
  {
    if r == [] then seen
    else if visit(seen + [r[0]]) then VisitAll(visit, seen + [r[0]], r[1..])
    else seen + [r[0]]
  }

  // ----- ascending -----

  function UpItem<T>(q: Query<T>, x: T, w: Walk<T>): Walk<T> {
    if q.start.Some? && q.lt(x, q.start.value) then w
    else if !q.includeStart && !w.hit && q.start.Some? && !q.lt(q.start.value, x) then w.(hit := true)
    else if q.stop.Some? && !q.lt(x, q.stop.value) then Walk(true, false, w.seen)
    else Call(q, x, w)
  }

  ghost function ScanUp<T>(q: Query<T>, s: seq<T>, w: Walk<T>): Walk<T> {
    if s == [] || !w.ok then w else ScanUp(q, s[1..], UpItem(q, s[0], w))
  }

  lemma {:induction false} ScanUpJoin<T>(q: Query<T>, a: seq<T>, b: seq<T>, w: Walk<T>)
    ensures ScanUp(q, a + b, w) == ScanUp(q, b, ScanUp(q, a, w))
    decreases |a|
  {
    if a == [] {
      assert a + b == b;
    } else if w.ok {
      assert (a + b)[1..] == a[1..] + b;
      ScanUpJoin(q, a[1..], b, UpItem(q, a[0], w));
    }
  }

  /** Items below the start are passed over. */
  lemma {:induction false} ScanUpBelow<T(!new)>(q: Query<T>, s: seq<T>, w: Walk<T>)
    requires q.start.Some? && AllBelow(q.lt, s, q.start.value)
    ensures ScanUp(q, s, w) == w
    decreases |s|
  {
    if s != [] { ScanUpBelow(q, s[1..], w); }
  }

  predicate InRangeUp<T>(q: Query<T>, x: T) {
    && (q.start.None? || q.lt(q.start.value, x) || (q.includeStart && !q.lt(x, q.start.value)))
    && (q.stop.None? || q.lt(x, q.stop.value))
  }

  ghost function RangeUp<T>(q: Query<T>, s: seq<T>): seq<T> {
    if s == [] then [] else (if InRangeUp(q, s[0]) then [s[0]] else []) + RangeUp(q, s[1..])
  }

  lemma {:induction false} RangeUpPast<T(!new)>(q: Query<T>, s: seq<T>)
    requires q.stop.Some? && forall i :: 0 <= i < |s| ==> !q.lt(s[i], q.stop.value)
    ensures RangeUp(q, s) == []
    decreases |s|
  {
    if s != [] { RangeUpPast(q, s[1..]); }
  }

  /** The item-by-item scan calls back on exactly the items in range. */
  lemma {:induction false} ScanUpVisits<T(!new)>(q: Query<T>, s: seq<T>, w: Walk<T>)
    requires StrictWeak(q.lt) && Sorted(q.lt, s) && w.ok
    requires w.hit && q.start.Some? ==> AllAbove(q.lt, q.start.value, s)
    ensures ScanUp(q, s, w).seen == VisitAll(q.visit, w.seen, RangeUp(q, s))
    decreases |s|
  {
    if s != [] {
      var x, w' := s[0], UpItem(q, s[0], w);
      var below := q.start.Some? && q.lt(x, q.start.value);
      if below { Asymmetric(q.lt, x, q.start.value); }
      if !below && q.start.Some? {
        forall i | 0 <= i < |s[1..]| ensures q.lt(q.start.value, s[1..][i]) {
          assert q.lt(s[0], s[i + 1]);
          Laws(q.lt, x, q.start.value, s[i + 1]);
        }
      }
      if q.stop.Some? && !q.lt(x, q.stop.value) {
        forall i | 0 <= i < |s| ensures !q.lt(s[i], q.stop.value) {
          if i > 0 { assert q.lt(s[0], s[i]); Laws(q.lt, x, s[i], q.stop.value); }
        }
        RangeUpPast(q, s);
      }
      var rest := RangeUp(q, s[1..]);
      assert ([x] + rest)[1..] == rest && [] + rest == rest;
      if w'.ok { ScanUpVisits(q, s[1..], w'); }
    }
  }

  /** Ascending iteration below node `n`. */
  method IterateUp<T(!new)>(m: Memory<T>, q: Query<T>, n: nat, w: Walk<T>, ghost t: Tree<T>, ghost h: nat, ghost d: nat)
    returns (r: Walk<T>)
    requires StrictWeak(q.lt) && t.id == n && Held(m, t) && Sound(q.lt, t, h, d) && w.ok
    ensures r == ScanUp(q, Contents(t), w)
    decreases h, 1
  {
    r := w;
    var items, children := m[n].items, m[n].children;
    for i := 0 to |items|
      invariant r.ok && r == ScanUp(q, Upto(t, i), w)
    {
      UptoStep(t, i);
      var below := q.start.Some? && q.lt(items[i], q.start.value);
      if below {
        PassedOver(q, t, i, w);
      } else {
        r := KidUp(m, q, n, i, r, w, t, h, d);
        if !r.ok {
          StopsHere(q, t, i, w);
          return;
        }
        ScanUpJoin(q, UptoItem(t, i), [items[i]], w);
        ScanUpOne(q, items[i], r);
        r := UpItem(q, items[i], r);
        if !r.ok {
          StopsAfter(q, t, i, w);
          return;
        }
      }
    }
    UptoEnd(t);
    if |children| > 0 {
      ghost var last := |t.kids| - 1;
      KidSound(q.lt, t, last, h, d);
      assert Held(m, t.kids[last]);
      ScanUpJoin(q, Upto(t, last), Contents(t.kids[last]), w);
      r := IterateUp(m, q, children[|children| - 1], r, t.kids[last], h - 1, d);
    }
  }

  /** Walks child `i`, if the node has children. */
  method KidUp<T(!new)>(m: Memory<T>, q: Query<T>, n: nat, i: nat, r: Walk<T>, ghost w: Walk<T>, ghost t: Tree<T>,
                        ghost h: nat, ghost d: nat)
    returns (r': Walk<T>)
    requires StrictWeak(q.lt) && t.id == n && Held(m, t) && Sound(q.lt, t, h, d) && i < |t.items|
    requires r.ok && r == ScanUp(q, Upto(t, i), w)
    ensures r' == ScanUp(q, UptoItem(t, i), w)
    decreases h, 0
  {
    r' := r;
    if |m[n].children| > 0 {
      KidSound(q.lt, t, i, h, d);
      assert Held(m, t.kids[i]);
      ScanUpJoin(q, Upto(t, i), Contents(t.kids[i]), w);
      r' := IterateUp(m, q, m[n].children[i], r, t.kids[i], h - 1, d);
    }
    UptoStep(t, i);
  }

  lemma ScanUpOne<T>(q: Query<T>, x: T, w: Walk<T>)
    requires w.ok
    ensures ScanUp(q, [x], w) == UpItem(q, x, w)
  {
    assert [x][1..] == [];
  }

  // ----- the contents of a node up to item `i` -----

  ghost function Upto<T>(t: Tree<T>, i: nat): seq<T>
    requires Regular(t) && i <= |t.items|
  {
    if t.kids == [] then t.items[..i] else Before(t, i)
  }

  ghost function UptoItem<T>(t: Tree<T>, i: nat): seq<T>
    requires Regular(t) && i < |t.items|
  {
    if t.kids == [] then t.items[..i] else Below(t, i)
  }

  ghost function Beyond<T>(t: Tree<T>, i: nat): seq<T>
    requires Regular(t) && i < |t.items|
  {
    if t.kids == [] then t.items[i + 1..] else Above(t, i)
  }

  lemma UptoStep<T>(t: Tree<T>, i: nat)
    requires Regular(t) && i < |t.items|
    ensures Upto(t, i + 1) == UptoItem(t, i) + [t.items[i]]
    ensures UptoItem(t, i) == if t.kids == [] then Upto(t, i) else Upto(t, i) + Contents(t.kids[i])
    ensures Contents(t) == UptoItem(t, i) + [t.items[i]] + Beyond(t, i)
  {
    if t.kids != [] { ItemAround(t, i); } else { assert t.items == t.items[..i] + [t.items[i]] + t.items[i + 1..]; }
  }

  lemma UptoEnd<T>(t: Tree<T>)
    requires Regular(t)
    ensures Contents(t) == if t.kids == [] then Upto(t, |t.items|) else Upto(t, |t.items|) + Contents(t.kids[|t.items|])
  {
    if t.kids != [] {
      Around(t, |t.items|);
      assert After(t, |t.items|) == [];
    }
  }

  lemma PassedOver<T(!new)>(q: Query<T>, t: Tree<T>, i: nat, w: Walk<T>)
    requires StrictWeak(q.lt) && Ordered(q.lt, t) && i < |t.items| && q.start.Some? && q.lt(t.items[i], q.start.value)
    ensures ScanUp(q, Upto(t, i + 1), w) == ScanUp(q, Upto(t, i), w) == w
  {
    UptoStep(t, i);
    var a := UptoItem(t, i);
    Pivot(q.lt, a, t.items[i], Beyond(t, i));
    BelowThrough(q.lt, a, t.items[i], q.start.value);
    ScanUpBelow(q, a + [t.items[i]], w);
    forall j | 0 <= j < |Upto(t, i)| ensures q.lt(Upto(t, i)[j], q.start.value) { assert a[j] == Upto(t, i)[j]; }
    ScanUpBelow(q, Upto(t, i), w);
  }

  lemma StopsHere<T>(q: Query<T>, t: Tree<T>, i: nat, w: Walk<T>)
    requires Regular(t) && i < |t.items| && !ScanUp(q, UptoItem(t, i), w).ok
    ensures ScanUp(q, Contents(t), w) == ScanUp(q, UptoItem(t, i), w)
  {
    UptoStep(t, i);
    Grouped(UptoItem(t, i), [t.items[i]], Beyond(t, i));
    ScanUpJoin(q, UptoItem(t, i), [t.items[i]] + Beyond(t, i), w);
  }

  lemma StopsAfter<T>(q: Query<T>, t: Tree<T>, i: nat, w: Walk<T>)
    requires Regular(t) && i < |t.items| && !ScanUp(q, Upto(t, i + 1), w).ok
    ensures ScanUp(q, Contents(t), w) == ScanUp(q, Upto(t, i + 1), w)
  {
    UptoStep(t, i);
    ScanUpJoin(q, Upto(t, i + 1), Beyond(t, i), w);
  }

  // ----- descending -----

  predicate Skips<T>(q: Query<T>, x: T, w: Walk<T>) {
    q.start.Some? && !q.lt(x, q.start.value) && (!q.includeStart || w.hit || q.lt(q.start.value, x))
  }

  function Reach<T>(q: Query<T>, x: T, w: Walk<T>): Walk<T> {
    if q.stop.Some? && !q.lt(q.stop.value, x) then w.(ok := false) else Call(q, x, w)
  }

  function DownItem<T>(q: Query<T>, x: T, w: Walk<T>): Walk<T> {
    if Skips(q, x, w) then w else Reach(q, x, w)
  }

  ghost function ScanDown<T>(q: Query<T>, s: seq<T>, w: Walk<T>): Walk<T> {
    if s == [] || !w.ok then w else ScanDown(q, s[..|s| - 1], DownItem(q, s[|s| - 1], w))
  }

  lemma {:induction false} ScanDownJoin<T>(q: Query<T>, a: seq<T>, b: seq<T>, w: Walk<T>)
    ensures ScanDown(q, a + b, w) == ScanDown(q, a, ScanDown(q, b, w))
    decreases |b|
  {
    if b == [] {
      assert a + b == a;
    } else if w.ok {
      assert (a + b)[..|a + b| - 1] == a + b[..|b| - 1];
      ScanDownJoin(q, a, b[..|b| - 1], DownItem(q, b[|b| - 1], w));
    }
  }

  /** Items above the start are passed over. */
  lemma {:induction false} ScanDownAbove<T(!new)>(q: Query<T>, s: seq<T>, w: Walk<T>)
    requires StrictWeak(q.lt) && q.start.Some? && AllAbove(q.lt, q.start.value, s)
    ensures ScanDown(q, s, w) == w
    decreases |s|
  {
    if s != [] {
      Asymmetric(q.lt, q.start.value, s[|s| - 1]);
      ScanDownAbove(q, s[..|s| - 1], w);
    }
  }

  predicate InRangeDown<T>(q: Query<T>, x: T) {
    && (q.start.None? || q.lt(x, q.start.value) || (q.includeStart && !q.lt(q.start.value, x)))
    && (q.stop.None? || q.lt(q.stop.value, x))
  }

  ghost function RangeDown<T>(q: Query<T>, s: seq<T>): seq<T> {
    if s == [] then [] else
      (if InRangeDown(q, s[|s| - 1]) then [s[|s| - 1]] else []) + RangeDown(q, s[..|s| - 1])
  }

  lemma {:induction false} RangeDownPast<T(!new)>(q: Query<T>, s: seq<T>)
    requires q.stop.Some? && forall i :: 0 <= i < |s| ==> !q.lt(q.stop.value, s[i])
    ensures RangeDown(q, s) == []
    decreases |s|
  {
    if s != [] { RangeDownPast(q, s[..|s| - 1]); }
  }

  lemma {:induction false} ScanDownVisits<T(!new)>(q: Query<T>, s: seq<T>, w: Walk<T>)
    requires StrictWeak(q.lt) && Sorted(q.lt, s) && w.ok
    requires w.hit && q.start.Some? ==> AllBelow(q.lt, s, q.start.value)
    ensures ScanDown(q, s, w).seen == VisitAll(q.visit, w.seen, RangeDown(q, s))
    decreases |s|
  {
    if s != [] {
      var n := |s| - 1;
      var x, w' := s[n], DownItem(q, s[n], w);
      if q.start.Some? && !q.lt(q.start.value, x) {
        forall i | 0 <= i < |s[..n]| ensures q.lt(s[..n][i], q.start.value) {
          assert q.lt(s[i], s[n]);
          Laws(q.lt, s[i], q.start.value, x);
        }
      }
      if q.start.Some? && q.lt(x, q.start.value) { Asymmetric(q.lt, x, q.start.value); }
      if q.stop.Some? && !q.lt(q.stop.value, x) {
        forall i | 0 <= i < |s| ensures !q.lt(q.stop.value, s[i]) {
          if i < n { assert q.lt(s[i], s[n]); Laws(q.lt, q.stop.value, s[i], x); }
        }
        RangeDownPast(q, s);
      }
      var rest := RangeDown(q, s[..n]);
      assert ([x] + rest)[1..] == rest && [] + rest == rest;
      if w'.ok { ScanDownVisits(q, s[..n], w'); }
    }
  }

  /** Descending iteration below node `n`. */
  method IterateDown<T(!new)>(m: Memory<T>, q: Query<T>, n: nat, w: Walk<T>, ghost t: Tree<T>, ghost h: nat,
                              ghost d: nat)
    returns (r: Walk<T>)
    requires StrictWeak(q.lt) && t.id == n && Held(m, t) && Sound(q.lt, t, h, d) && w.ok
    ensures r == ScanDown(q, Contents(t), w)
    decreases h, 1
  {
    r := w;
    var items, children := m[n].items, m[n].children;
    for i := |items| downto 0
      invariant r.ok && r == ScanDown(q, From(t, i), w)
    {
      r := ItemDown(m, q, n, i, items[i], r, w, t, h, d);
      if !r.ok {
        return;
      }
    }
    FromEnd(t);
    if |children| > 0 {
      KidSound(q.lt, t, 0, h, d);
      assert Held(m, t.kids[0]);
      ScanDownJoin(q, Contents(t.kids[0]), From(t, 0), w);
      r := IterateDown(m, q, children[0], r, t.kids[0], h - 1, d);
    }
  }

  /** Walks what is behind item `i`, and then the item, unless it is skipped. */
  method ItemDown<T(!new)>(m: Memory<T>, q: Query<T>, n: nat, i: nat, x: T, r: Walk<T>, ghost w: Walk<T>,
                           ghost t: Tree<T>, ghost h: nat, ghost d: nat)
    returns (r': Walk<T>)
    requires StrictWeak(q.lt) && t.id == n && Held(m, t) && Sound(q.lt, t, h, d) && i < |t.items| && x == t.items[i]
    requires w.ok && r.ok && r == ScanDown(q, From(t, i + 1), w)
    ensures r'.ok ==> r' == ScanDown(q, From(t, i), w)
    ensures !r'.ok ==> r' == ScanDown(q, Contents(t), w)
    decreases h, 0, 1
  {
    FromStep(t, i);
    ScanDownJoin(q, [x], Beyond(t, i), w);
    if Skips(q, x, r) {
      PassedDown(q, t, i, w);
      ScanDownOne(q, x, w);
      return r;
    }
    Unskipped(q, t, i, w);
    r' := KidDown(m, q, n, i, r, w, t, h, d);
    if !r'.ok {
      StopsBefore(q, t, i, w);
      return;
    }
    ScanDownOne(q, x, r');
    r' := Reach(q, x, r');
    if !r'.ok {
      StopsAt(q, t, i, w);
    }
  }

  /** Walks child `i + 1`, if the node has children. */
  method KidDown<T(!new)>(m: Memory<T>, q: Query<T>, n: nat, i: nat, r: Walk<T>, ghost w: Walk<T>, ghost t: Tree<T>,
                          ghost h: nat, ghost d: nat)
    returns (r': Walk<T>)
    requires StrictWeak(q.lt) && t.id == n && Held(m, t) && Sound(q.lt, t, h, d) && i < |t.items|
    requires r.ok && r == ScanDown(q, From(t, i + 1), w)
    ensures r' == ScanDown(q, Beyond(t, i), w)
    decreases h, 0, 0
  {
    r' := r;
    if |m[n].children| > 0 {
      KidSound(q.lt, t, i + 1, h, d);
      assert Held(m, t.kids[i + 1]);
      ScanDownJoin(q, Contents(t.kids[i + 1]), From(t, i + 1), w);
      r' := IterateDown(m, q, m[n].children[i + 1], r, t.kids[i + 1], h - 1, d);
    }
    FromStep(t, i);
  }

  lemma ScanDownOne<T>(q: Query<T>, x: T, w: Walk<T>)
    requires w.ok
    ensures ScanDown(q, [x], w) == DownItem(q, x, w)
  {
    assert [x][..0] == [];
  }

  // ----- the contents of a node from item `i` on -----

  ghost function From<T>(t: Tree<T>, i: nat): seq<T>
    requires Regular(t) && i <= |t.items|
  {
    if t.kids == [] then t.items[i..] else After(t, i)
  }

  lemma FromStep<T>(t: Tree<T>, i: nat)
    requires Regular(t) && i < |t.items|
    ensures From(t, i) == [t.items[i]] + Beyond(t, i)
    ensures Beyond(t, i) == if t.kids == [] then From(t, i + 1) else Contents(t.kids[i + 1]) + From(t, i + 1)
    ensures Contents(t) == UptoItem(t, i) + ([t.items[i]] + Beyond(t, i))
  {
    FromFirst(t, i);
    UptoStep(t, i);
    Grouped(UptoItem(t, i), [t.items[i]], Beyond(t, i));
  }

  lemma FromFirst<T>(t: Tree<T>, i: nat)
    requires Regular(t) && i < |t.items|
    ensures From(t, i) == [t.items[i]] + Beyond(t, i)
    ensures Beyond(t, i) == if t.kids == [] then From(t, i + 1) else Contents(t.kids[i + 1]) + From(t, i + 1)
  {
    if t.kids != [] { ItemAround(t, i); } else { assert t.items[i..] == [t.items[i]] + t.items[i + 1..]; }
  }

  lemma Grouped<A>(a: seq<A>, b: seq<A>, c: seq<A>)
    ensures a + b + c == a + (b + c)
  {
  }

  lemma FromEnd<T>(t: Tree<T>)
    requires Regular(t)
    ensures Contents(t) == if t.kids == [] then From(t, 0) else Contents(t.kids[0]) + From(t, 0)
  {
    if t.kids != [] { assert t.items[0..] == t.items; }
  }

  /** When item `i` is not below the start, everything behind it is above the start. */
  lemma PassedDown<T(!new)>(q: Query<T>, t: Tree<T>, i: nat, w: Walk<T>)
    requires StrictWeak(q.lt) && Ordered(q.lt, t) && i < |t.items| && q.start.Some? && !q.lt(t.items[i], q.start.value)
    ensures ScanDown(q, Beyond(t, i), w) == ScanDown(q, From(t, i + 1), w) == w
  {
    UptoStep(t, i);
    FromStep(t, i);
    var c, f := Beyond(t, i), From(t, i + 1);
    Pivot(q.lt, UptoItem(t, i), t.items[i], c);
    forall j | 0 <= j < |c| ensures q.lt(q.start.value, c[j]) { Laws(q.lt, t.items[i], q.start.value, c[j]); }
    ScanDownAbove(q, c, w);
    forall j | 0 <= j < |f| ensures q.lt(q.start.value, f[j]) { assert f[j] == c[|c| - |f| + j]; }
    ScanDownAbove(q, f, w);
  }

  /** An item that was not skipped before its right child was walked is not skipped after. */
  lemma Unskipped<T(!new)>(q: Query<T>, t: Tree<T>, i: nat, w: Walk<T>)
    requires StrictWeak(q.lt) && Ordered(q.lt, t) && i < |t.items|
    requires !Skips(q, t.items[i], ScanDown(q, From(t, i + 1), w))
    ensures !Skips(q, t.items[i], ScanDown(q, Beyond(t, i), w))
  {
    if q.start.Some? && !q.lt(t.items[i], q.start.value) { PassedDown(q, t, i, w); }
  }

  lemma StopsBefore<T>(q: Query<T>, t: Tree<T>, i: nat, w: Walk<T>)
    requires Regular(t) && i < |t.items| && !ScanDown(q, Beyond(t, i), w).ok
    ensures ScanDown(q, Contents(t), w) == ScanDown(q, Beyond(t, i), w)
  {
    UptoStep(t, i);
    ScanDownJoin(q, UptoItem(t, i) + [t.items[i]], Beyond(t, i), w);
  }

  lemma StopsAt<T>(q: Query<T>, t: Tree<T>, i: nat, w: Walk<T>)
    requires Regular(t) && i < |t.items| && !ScanDown(q, From(t, i), w).ok
    ensures ScanDown(q, Contents(t), w) == ScanDown(q, From(t, i), w)
  {
    FromStep(t, i);
    ScanDownJoin(q, UptoItem(t, i), From(t, i), w);
  }

  // ----- the public iterations -----

  /** Calls back, in ascending order, on the items of tree `i` in range, until a call answers no. */
  method Ascend<T(!new)>(forest: Forest<T>, i: nat, start: Option<T>, stop: Option<T>, includeStart: bool,
                         visit: seq<T> -> bool)
    returns (calls: seq<T>)
    requires forest.Valid() && i < |forest.trees|
    ensures var q := Query(forest.store.lt, start, stop, includeStart, visit);
            calls == VisitAll(visit, [], RangeUp(q, forest.View()[i]))
  {
    var q := Query(forest.store.lt, start, stop, includeStart, visit);
    if forest.trees[i].root.None? {
      return [];
    }
    ghost var s := forest.shapes[i];
    var w :=
      IterateUp(forest.store.nodes, q, forest.trees[i].root.value, Walk(false, true, []), s.t, s.h,
                forest.trees[i].degree);
    ScanUpVisits(q, Contents(s.t), Walk(false, true, []));
    return w.seen;
  }

  /** Calls back, in descending order, on the items of tree `i` in range, until a call answers no. */
  method Descend<T(!new)>(forest: Forest<T>, i: nat, start: Option<T>, stop: Option<T>, includeStart: bool,
                          visit: seq<T> -> bool)
    returns (calls: seq<T>)
    requires forest.Valid() && i < |forest.trees|
    ensures var q := Query(forest.store.lt, start, stop, includeStart, visit);
            calls == VisitAll(visit, [], RangeDown(q, forest.View()[i]))
  {
    var q := Query(forest.store.lt, start, stop, includeStart, visit);
    if forest.trees[i].root.None? {
      return [];
    }
    ghost var s := forest.shapes[i];
    var w :=
      IterateDown(forest.store.nodes, q, forest.trees[i].root.value, Walk(false, true, []), s.t, s.h,
                  forest.trees[i].degree);
    ScanDownVisits(q, Contents(s.t), Walk(false, true, []));
    return w.seen;
  }
}
