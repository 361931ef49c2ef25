/** What a search of the cuckoo table comes to, as a function of the table, and what moving entries along its
    path does to the keys that are there. */
module CuckooPlan {
  import opened CuckooTable
  import opened CuckooSearch

  datatype Search = Found(path: seq<Slot>) | NotFound | OutOfRange

  /** The first empty slot from `i` on, or the end. */
  ghost function FirstSpace(row: seq<Cell>, i: nat): (at: nat)
    requires i <= |row|
    ensures i <= at <= |row| && (forall j :: i <= j < at ==> row[j].hash != ZERO) &&
            (at < |row| ==> row[at].hash == ZERO)
    decreases |row| - i
  {
    if i == |row| || row[i].hash == ZERO then i else FirstSpace(row, i + 1)
  }

  lemma FirstSpaceIs(row: seq<Cell>, at: nat)
    requires at < |row| && row[at].hash == ZERO && forall j :: 0 <= j < at ==> row[j].hash != ZERO
    ensures FirstSpace(row, 0) == at
  {
  }

  // ----- the search, step by step -----

  ghost function Row(cells: Cells, b: Word): (row: seq<Cell>)
    ensures |row| == SLOTS
  {
    if b in cells && |cells[b]| == SLOTS then cells[b] else seq(SLOTS, _ => Cell(ZERO, "", ""))
  }

  ghost function Roots(i1: Word, i2: Word): (q: seq<Node>)
    ensures |q| == MAX_REACH && q[0] == Node(i1, 0, 0, 0) && q[1] == Node(i2, 0, 0, 0)
    ensures forall x :: 2 <= x < MAX_REACH ==> q[x] == BLANK
  {
    seq(MAX_REACH, _ => BLANK)[0 := Node(i1, 0, 0, 0)][1 := Node(i2, 0, 0, 0)]
  }

  /** The bucket node `pos` came from. */
  ghost function Back(q: seq<Node>, pos: nat): Word
    requires pos < |q|
  {
    if q[pos].parent < |q| then q[q[pos].parent].bucket else ZERO
  }

  /** The queue and its end when `n` nodes have been looked at. */
  ghost function QueueAt(g: Geometry, cells: Cells, i1: Word, i2: Word, n: nat): (r: (seq<Node>, nat))
    ensures |r.0| == MAX_REACH && r.1 <= MAX_REACH
  {
    if n == 0 then (Roots(i1, i2), 2) else
      var (q, tail) := QueueAt(g, cells, i1, i2, n - 1);
      if n > MAX_REACH then (q, tail) else
        Looked(g, Row(cells, q[n - 1].bucket), q[n - 1], n - 1, Back(q, n - 1), q, tail, SLOTS)
  }

  /** The array a path is written to, as it is at first. */
  ghost function Blanks(): (path: seq<Slot>)
    ensures |path| == MAX_PATH_DEPTH && forall j :: 0 <= j < MAX_PATH_DEPTH ==> path[j] == Slot(ZERO, 0)
  {
    seq(MAX_PATH_DEPTH, _ => Slot(ZERO, 0))
  }

  /** Goes up `n` nodes, writing down where each child came from. */
  ghost function Walk(q: seq<Node>, c: Node, slot: nat, path: seq<Slot>, n: nat): Search
    requires |path| == MAX_PATH_DEPTH
    decreases n
  {
    if n == 0 then Found(path) else
      var up := if c.parent < |q| then q[c.parent] else BLANK;
      if up.depth >= MAX_PATH_DEPTH then OutOfRange
      else Walk(q, up, up.slot, path[up.depth := Slot(up.bucket, slot)], n - 1)
  }

  ghost function Cropped(r: Search, n: nat): Search {
    if r.Found? && n <= |r.path| then Found(r.path[..n]) else r
  }

  /** The path to the empty slot `at` of node `pos`. */
  ghost function PathOf(q: seq<Node>, pos: nat, at: nat): Search
    requires pos < |q|
  {
    if q[pos].depth >= MAX_PATH_DEPTH then OutOfRange
    else if q[pos].depth == 0 then Found([Slot(q[pos].bucket, at)])
    else WayBack(q, q[pos], Slot(q[pos].bucket, at))
  }

  ghost function WayBack(q: seq<Node>, c: Node, last: Slot): Search
    requires c.depth < MAX_PATH_DEPTH
  {
    Cropped(Walk(q, c, c.slot, Blanks()[c.depth := last], c.depth), c.depth + 1)
  }

  /** What the search comes to that has looked at `n` nodes. */
  ghost function SearchFrom(g: Geometry, cells: Cells, i1: Word, i2: Word, n: nat): Search
    requires n <= MAX_REACH
    decreases MAX_REACH - n
  {
    if n == MAX_REACH then NotFound else
      var q := QueueAt(g, cells, i1, i2, n).0;
      if Full(cells, q[n].bucket) then SearchFrom(g, cells, i1, i2, n + 1)
      else PathOf(q, n, FirstSpace(Row(cells, q[n].bucket), 0))
  }

  /** What the search comes to; `SearchIs` says how. */
  ghost function SearchOf(g: Geometry, cells: Cells, i1: Word, i2: Word): Search {
    assert Searched(g, cells, i1, i2, SearchFrom(g, cells, i1, i2, 0));
    var r :| Searched(g, cells, i1, i2, r);
    r
  }

  ghost predicate Searched(g: Geometry, cells: Cells, i1: Word, i2: Word, r: Search) {
    forall n: nat :: n == 0 ==> r == SearchFrom(g, cells, i1, i2, n)
  }

  lemma SearchIs(g: Geometry, cells: Cells, i1: Word, i2: Word)
    ensures SearchOf(g, cells, i1, i2) == SearchFrom(g, cells, i1, i2, 0)
  {
    assert Searched(g, cells, i1, i2, SearchOf(g, cells, i1, i2));
  }

  /** Space in one of the two buckets is found there. */
  lemma FoundAtHome(g: Geometry, cells: Cells, i1: Word, i2: Word)
    ensures !Full(cells, i1) ==> SearchOf(g, cells, i1, i2) == Found([Slot(i1, FirstSpace(Row(cells, i1), 0))])
    ensures Full(cells, i1) && !Full(cells, i2) ==>
            SearchOf(g, cells, i1, i2) == Found([Slot(i2, FirstSpace(Row(cells, i2), 0))])
  {
    SearchIs(g, cells, i1, i2);
    var q0, q1 := QueueAt(g, cells, i1, i2, 0).0, QueueAt(g, cells, i1, i2, 1).0;
    assert q0[0] == Node(i1, 0, 0, 0) && q0[1] == Node(i2, 0, 0, 0);
    assert q1[1] == q0[1];
    assert Full(cells, i1) ==> SearchOf(g, cells, i1, i2) == SearchFrom(g, cells, i1, i2, 1);
  }

  // ----- where entries go along a path -----

  ghost function Exchange(x: Slot, y: Slot, s: Slot): Slot {
    if s == x then y else if s == y then x else s
  }

  /** Where the content of slot `s` is when the slots of the path have been swapped from `hi` down to `lo`. */
  ghost function Carry(path: seq<Slot>, hi: nat, lo: nat, s: Slot): Slot
    requires hi < |path|
    decreases hi - lo
  {
    if hi <= lo then s else Exchange(path[lo + 1], path[lo], Carry(path, hi, lo + 1, s))
  }

  /** Where the content of slot `t` then came from. */
  ghost function Source(path: seq<Slot>, hi: nat, lo: nat, t: Slot): Slot
    requires hi < |path|
    decreases hi - lo
  {
    if hi <= lo then t else Source(path, hi, lo + 1, Exchange(path[lo + 1], path[lo], t))
  }

  lemma {:induction false} CarrySource(path: seq<Slot>, hi: nat, lo: nat, s: Slot)
    requires hi < |path|
    ensures Source(path, hi, lo, Carry(path, hi, lo, s)) == s && Carry(path, hi, lo, Source(path, hi, lo, s)) == s
    decreases hi - lo
  {
    if lo < hi {
      CarrySource(path, hi, lo + 1, s);
      CarrySource(path, hi, lo + 1, Exchange(path[lo + 1], path[lo], s));
    }
  }

  lemma {:induction false} CarryWithin(cells: Cells, path: seq<Slot>, hi: nat, lo: nat, s: Slot)
    requires hi < |path| && Within(cells, s) && forall j :: 0 <= j < |path| ==> Within(cells, path[j])
    ensures Within(cells, Carry(path, hi, lo, s)) && Within(cells, Source(path, hi, lo, s))
    decreases hi - lo
  {
    if lo < hi {
      CarryWithin(cells, path, hi, lo + 1, s);
      CarryWithin(cells, path, hi, lo + 1, Exchange(path[lo + 1], path[lo], s));
    }
  }

  ghost predicate OnTable(cells: Cells, path: seq<Slot>) {
    path != [] && forall j :: 0 <= j < |path| ==> Within(cells, path[j])
  }

  /** The slots of the path have been swapped, from its end down to `lo`; `ShiftedMeans` says what that means. */
  ghost predicate Shifted(first: Cells, now: Cells, path: seq<Slot>, lo: nat) {
    forall n: nat :: ShiftedNow(first, now, path, lo, n)
  }

  lemma ShiftedMeans(first: Cells, now: Cells, path: seq<Slot>, lo: nat)
    ensures Shifted(first, now, path, lo) <==> ShiftedNow(first, now, path, lo, 0)
  {
    assert forall n: nat :: ShiftedNow(first, now, path, lo, n) == ShiftedNow(first, now, path, lo, 0);
  }

  ghost predicate ShiftedNow(first: Cells, now: Cells, path: seq<Slot>, lo: nat, n: nat) {
    && OnTable(first, path)
    && (forall t :: Within(now, t) <==> Within(first, t))
    && (forall t :: Traces(first, now, path, lo, t))
  }

  /** Slot `t` has what it should have. */
  ghost predicate Traces(first: Cells, now: Cells, path: seq<Slot>, lo: nat, t: Slot)
    requires path != []
  {
    Within(first, t) ==> ComesFrom(first, now, Source(path, |path| - 1, lo, t), t)
  }

  ghost predicate ComesFrom(first: Cells, now: Cells, s: Slot, t: Slot) {
    Within(first, s) && Within(now, t) && At(now, t) == At(first, s)
  }

  lemma ShiftedNone(first: Cells, path: seq<Slot>)
    requires OnTable(first, path)
    ensures Shifted(first, first, path, |path| - 1)
  {
    ShiftedMeans(first, first, path, |path| - 1);
  }

  lemma ShiftedOnTable(first: Cells, now: Cells, path: seq<Slot>, lo: nat)
    requires Shifted(first, now, path, lo)
    ensures OnTable(first, path) && OnTable(now, path)
  {
    ShiftedMeans(first, now, path, lo);
  }

  /** Cells are moved about only. */
  lemma ShiftedFrom(first: Cells, now: Cells, path: seq<Slot>, lo: nat)
    requires Shifted(first, now, path, lo)
    ensures FromCells(first, now)
  {
    ShiftedMeans(first, now, path, lo);
    forall t | Within(now, t) ensures IsCell(first, At(now, t)) {
      assert Traces(first, now, path, lo, t);
    }
  }

  lemma ShiftedNext(first: Cells, before: Cells, now: Cells, path: seq<Slot>, lo: nat)
    requires lo + 1 < |path| && Shifted(first, before, path, lo + 1) && Within(before, path[lo + 1]) &&
             Within(before, path[lo])
    requires now == Swapped(before, path[lo + 1], path[lo])
    ensures Shifted(first, now, path, lo)
  {
    ShiftedMeans(first, before, path, lo + 1);
    ShiftedMeans(first, now, path, lo);
    ShiftedStep(first, before, now, path, lo, lo + 1);
  }

  lemma ShiftedStep(first: Cells, before: Cells, now: Cells, path: seq<Slot>, lo: nat, more: nat)
    requires more == lo + 1 < |path| && ShiftedNow(first, before, path, more, 0)
    requires Within(before, path[more]) && Within(before, path[lo]) && now == Swapped(before, path[more], path[lo])
    ensures ShiftedNow(first, now, path, lo, 0)
  {
    forall t ensures Within(now, t) <==> Within(first, t) { SwappedAt(before, path[more], path[lo], t); }
    forall t ensures Traces(first, now, path, lo, t) {
      if Within(before, t) {
        ShiftedStepAt(first, before, path, lo, more, t);
      }
    }
  }

  lemma ShiftedStepAt(first: Cells, before: Cells, path: seq<Slot>, lo: nat, more: nat, t: Slot)
    requires more == lo + 1 < |path| && ShiftedNow(first, before, path, more, 0)
    requires Within(before, path[more]) && Within(before, path[lo]) && Within(before, t)
    ensures ComesFrom(first, Swapped(before, path[more], path[lo]), Source(path, |path| - 1, lo, t), t)
  {
    var x, y := path[more], path[lo];
    var u := Exchange(x, y, t);
    SwappedAt(before, x, y, t);
    SourceStep(path, lo, t);
    assert Within(first, u);
    assert Traces(first, before, path, more, u);
  }

  lemma SourceStep(path: seq<Slot>, lo: nat, t: Slot)
    requires lo + 1 < |path|
    ensures Source(path, |path| - 1, lo, t) == Source(path, |path| - 1, lo + 1, Exchange(path[lo + 1], path[lo], t))
  {
  }

  lemma SwappedAt(cells: Cells, x: Slot, y: Slot, t: Slot)
    requires Within(cells, x) && Within(cells, y)
    ensures Within(Swapped(cells, x, y), t) <==> Within(cells, t)
    ensures Within(cells, t) ==>
            Within(cells, Exchange(x, y, t)) && At(Swapped(cells, x, y), t) == At(cells, Exchange(x, y, t))
  {
    SetAt(cells, x, At(cells, y), t);
    SetAt(Set(cells, x, At(cells, y)), y, At(cells, x), t);
  }

  /** The whole path has been swapped, and then its first slot written over. */
  ghost predicate Lands(first: Cells, now: Cells, path: seq<Slot>, c: Cell) {
    exists mid :: Shifted(first, mid, path, 0) && OnTable(mid, path) && now == Set(mid, path[0], c)
  }

  /** An empty path but for its one slot. */
  lemma LandsOne(cells: Cells, s: Slot, c: Cell)
    requires Within(cells, s)
    ensures Lands(cells, Set(cells, s, c), [s], c)
  {
    ShiftedNone(cells, [s]);
    assert Shifted(cells, cells, [s], 0) && OnTable(cells, [s]);
  }

  // ----- what reading finds -----

  /** Looking in the two buckets of a key finds this value. */
  ghost predicate Reads(cells: Cells, g: Geometry, keyhash: Key -> Word, k: Key, v: Value) {
    exists s :: HomeAt(cells, g, keyhash, k, v, s)
  }

  ghost predicate HomeAt(cells: Cells, g: Geometry, keyhash: Key -> Word, k: Key, v: Value, s: Slot) {
    Within(cells, s) && Home(g, keyhash(k), s.bucket) && At(cells, s) == Cell(keyhash(k), k, v)
  }

  /** Along the path, the entry in slot `s` goes to a slot that is not written over and in a bucket of its own. */
  ghost predicate Safe(cells: Cells, g: Geometry, path: seq<Slot>, s: Slot)
    requires Within(cells, s) && path != []
  {
    var t := Carry(path, |path| - 1, 0, s);
    t != path[0] && Home(g, At(cells, s).hash, t.bucket)
  }

  /** The entry of key `x` is not. */
  ghost predicate Harms(cells: Cells, g: Geometry, path: seq<Slot>, x: Key)
    requires path != []
  {
    exists s :: Used(cells, s) && At(cells, s).key == x && !Safe(cells, g, path, s)
  }

  lemma LandsAt(first: Cells, now: Cells, path: seq<Slot>, c: Cell, t: Slot)
    requires Lands(first, now, path, c)
    ensures path != [] && (Within(now, t) <==> Within(first, t))
    ensures Within(first, t) ==>
              var s := Source(path, |path| - 1, 0, t);
              Within(first, s) && At(now, t) == if t == path[0] then c else At(first, s)
  {
    var mid :| Shifted(first, mid, path, 0) && OnTable(mid, path) && now == Set(mid, path[0], c);
    SetAt(mid, path[0], c, t);
    ShiftedMeans(first, mid, path, 0);
    if Within(first, t) {
      assert Traces(first, mid, path, 0, t);
    }
  }

  /** Just the keys that the path does no harm can be read as before. */
  lemma LandsReads(first: Cells, now: Cells, g: Geometry, keyhash: Key -> Word, path: seq<Slot>, c: Cell, x: Key,
                   y: Value)
    requires Sound(first, g, keyhash) && Lands(first, now, path, c) && x != c.key && keyhash(x) != ZERO
    ensures path != [] &&
            (Reads(now, g, keyhash, x, y) <==> Reads(first, g, keyhash, x, y) && !Harms(first, g, path, x))
  {
    var n := |path| - 1;
    if Reads(now, g, keyhash, x, y) {
      var t :| HomeAt(now, g, keyhash, x, y, t);
      LandsAt(first, now, path, c, t);
      var s := Source(path, n, 0, t);
      CarrySource(path, n, 0, t);
      assert Used(first, s);
      assert HomeAt(first, g, keyhash, x, y, s);
      assert Safe(first, g, path, s);
    }
    if Reads(first, g, keyhash, x, y) && !Harms(first, g, path, x) {
      var s :| HomeAt(first, g, keyhash, x, y, s);
      assert Used(first, s) && Safe(first, g, path, s);
      var t := Carry(path, n, 0, s);
      CarrySource(path, n, 0, s);
      var mid :| Shifted(first, mid, path, 0) && OnTable(mid, path) && now == Set(mid, path[0], c);
      ShiftedOnTable(first, mid, path, 0);
      CarryWithin(first, path, n, 0, s);
      LandsAt(first, now, path, c, t);
      assert HomeAt(now, g, keyhash, x, y, t);
    }
  }

  /** No two entries are written over. */
  lemma OneWrittenOver(path: seq<Slot>, s: Slot, t: Slot)
    requires path != [] && Carry(path, |path| - 1, 0, s) == path[0] == Carry(path, |path| - 1, 0, t)
    ensures s == t
  {
    CarrySource(path, |path| - 1, 0, s);
    CarrySource(path, |path| - 1, 0, t);
  }

  /** A path of one empty slot harms nobody. */
  lemma OneSlotHarmless(cells: Cells, g: Geometry, keyhash: Key -> Word, s: Slot, x: Key)
    requires Sound(cells, g, keyhash) && Within(cells, s) && At(cells, s).hash == ZERO
    ensures !Harms(cells, g, [s], x)
  {
  }

  /** Nor does one after which all that was there can be read. */
  lemma KeptHarmless(first: Cells, now: Cells, g: Geometry, keyhash: Key -> Word, path: seq<Slot>, c: Cell, x: Key)
    requires Sound(first, g, keyhash) && Sound(now, g, keyhash) && Lands(first, now, path, c) && !Holds(first, c.key)
    requires forall k, v :: Maps(first, k, v) ==> Maps(now, k, v)
    ensures path != [] && !Harms(first, g, path, x)
  {
    LandsAt(first, now, path, c, Slot(ZERO, 0));
    forall s | Used(first, s) && At(first, s).key == x ensures Safe(first, g, path, s) {
      var y := At(first, s).value;
      assert Maps(first, x, y);
      var t :| Used(now, t) && At(now, t).key == x && At(now, t).value == y;
      assert HomeAt(now, g, keyhash, x, y, t);
      LandsReads(first, now, g, keyhash, path, c, x, y);
    }
  }
}
