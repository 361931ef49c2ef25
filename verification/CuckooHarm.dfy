/** A key that the cuckoo table takes at the cost of another. */
module CuckooHarm {
  import opened CuckooTable
  import opened CuckooSearch
  import opened CuckooPlan
  import opened Cuckoo

  // ----- a search that ends in the bucket next to bucket zero -----

  /** The two buckets are locked, and bucket zero is full of entries that also belong to `b`, which has space. */
  ghost predicate Snared(g: Geometry, cells: Cells, i1: Word, i2: Word, b: Word) {
    && Locked(g, cells, i1, i2) && Full(cells, ZERO) && |cells[ZERO]| == SLOTS
    && (forall j :: 0 <= j < SLOTS ==> Beyond(g, cells, ZERO, j) == b)
    && b != i1 && b in cells && |cells[b]| == SLOTS && !Full(cells, b)
  }

  /** How many nodes there are until the queue runs dry. */
  ghost function Dry(i1: Word, i2: Word): nat { if i1 == i2 then 2 else 6 }

  lemma {:induction false} LockedQueue(g: Geometry, cells: Cells, i1: Word, i2: Word, n: nat)
    requires Locked(g, cells, i1, i2) && n <= Dry(i1, i2)
    ensures Trap(QueueAt(g, cells, i1, i2, n).0, n, QueueAt(g, cells, i1, i2, n).1, i1, i2)
  {
    if n > 0 {
      LockedQueue(g, cells, i1, i2, n - 1);
      var (q, tail) := QueueAt(g, cells, i1, i2, n - 1);
      TrapStep(g, cells, q, n - 1, tail, i1, i2);
    }
  }

  /** All of them are full. */
  lemma {:induction false} LockedSearch(g: Geometry, cells: Cells, i1: Word, i2: Word, n: nat)
    requires Locked(g, cells, i1, i2) && n <= Dry(i1, i2)
    ensures SearchFrom(g, cells, i1, i2, 0) == SearchFrom(g, cells, i1, i2, n)
  {
    if n > 0 {
      LockedSearch(g, cells, i1, i2, n - 1);
      LockedNode(g, cells, i1, i2, n - 1);
      SearchOn(g, cells, i1, i2, n - 1);
    }
  }

  lemma LockedNode(g: Geometry, cells: Cells, i1: Word, i2: Word, n: nat)
    requires Locked(g, cells, i1, i2) && n < Dry(i1, i2)
    ensures Full(cells, QueueAt(g, cells, i1, i2, n).0[n].bucket)
  {
    LockedQueue(g, cells, i1, i2, n);
  }

  lemma SearchOn(g: Geometry, cells: Cells, i1: Word, i2: Word, n: nat)
    requires n < MAX_REACH && Full(cells, QueueAt(g, cells, i1, i2, n).0[n].bucket)
    ensures SearchFrom(g, cells, i1, i2, n) == SearchFrom(g, cells, i1, i2, n + 1)
  {
  }

  /** The blank node after them is taken for bucket zero, and its first child is written over it. */
  lemma SnaredQueue(g: Geometry, cells: Cells, i1: Word, i2: Word, b: Word)
    requires Snared(g, cells, i1, i2, b)
    ensures var n := Dry(i1, i2);
            var q := QueueAt(g, cells, i1, i2, n + 1).0;
            && QueueAt(g, cells, i1, i2, n).0[n] == BLANK
            && q[n] == Node(b, 1, n, 0) && q[n + 1] == Node(b, 1, n, 1)
  {
    var n := Dry(i1, i2);
    LockedQueue(g, cells, i1, i2, n);
    var (q, tail) := QueueAt(g, cells, i1, i2, n);
    assert tail == n && q[n] == BLANK && Back(q, n) == i1;
    forall j | 0 <= j < SLOTS ensures AltIndex(g, BLANK.bucket, cells[ZERO][j].hash) == b {
      assert Beyond(g, cells, ZERO, j) == b;
    }
    LookedOnly(g, cells[ZERO], BLANK, n, i1, q, n, SLOTS, b);
  }

  /** The second child finds space, and its way back leads over the first. */
  lemma SnaredPath(q: seq<Node>, n: nat, b: Word, at: nat)
    requires n + 1 < |q| && q[n] == Node(b, 1, n, 0) && q[n + 1] == Node(b, 1, n, 1)
    ensures PathOf(q, n + 1, at) == Found([Slot(ZERO, 0), Slot(b, 1)])
  {
    var path := Blanks()[1 := Slot(b, at)];
    var path' := path[1 := Slot(b, 1)];
    assert Walk(q, q[n + 1], 1, path, 1) == Walk(q, q[n], 0, path', 0) == Found(path');
    assert path'[..2] == [Slot(ZERO, 0), Slot(b, 1)];
  }

  lemma SnaredSearch(g: Geometry, cells: Cells, i1: Word, i2: Word, b: Word)
    requires Snared(g, cells, i1, i2, b)
    ensures SearchOf(g, cells, i1, i2) == Found([Slot(ZERO, 0), Slot(b, 1)])
  {
    var n := Dry(i1, i2);
    SearchIs(g, cells, i1, i2);
    LockedSearch(g, cells, i1, i2, n);
    SnaredQueue(g, cells, i1, i2, b);
    assert SearchFrom(g, cells, i1, i2, n) == SearchFrom(g, cells, i1, i2, n + 1);
    SnaredPath(QueueAt(g, cells, i1, i2, n + 1).0, n, b, FirstSpace(Row(cells, b), 0));
  }

  /** That path harms just the entry in slot 1 of `b`. */
  lemma SnaredHarm(g: Geometry, cells: Cells, keyhash: Key -> Word, i1: Word, i2: Word, b: Word, x: Key)
    requires Sound(cells, g, keyhash) && Snared(g, cells, i1, i2, b)
    ensures Harms(cells, g, [Slot(ZERO, 0), Slot(b, 1)], x) <==>
            Used(cells, Slot(b, 1)) && At(cells, Slot(b, 1)).key == x
  {
    var from, to := Slot(ZERO, 0), Slot(b, 1);
    var path := [from, to];
    assert Used(cells, from) && from != to;
    assert Beyond(g, cells, ZERO, 0) == b;
    AltHome(g, At(cells, from).hash, ZERO);
    forall s ensures Carry(path, 1, 0, s) == Exchange(to, from, s) { assert Carry(path, 1, 1, s) == s; }
    forall s | Used(cells, s) ensures Safe(cells, g, path, s) <==> s != to {}
  }

  /** A key can be read when some value is. */
  lemma ReadableReads(cells: Cells, g: Geometry, keyhash: Key -> Word, k: Key)
    requires Shaped(cells, g.mask)
    ensures Readable(cells, g, keyhash, k) <==> exists v :: Reads(cells, g, keyhash, k, v)
  {
    var hash := keyhash(k);
    if Readable(cells, g, keyhash, k) {
      var i1 := FirstIndex(g, hash);
      var b := if InBucket(cells, i1, hash, k) then i1 else AltIndex(g, i1, hash);
      var i :| 0 <= i < |cells[b]| && cells[b][i].hash == hash && cells[b][i].key == k;
      assert HomeAt(cells, g, keyhash, k, cells[b][i].value, Slot(b, i));
      assert Reads(cells, g, keyhash, k, cells[b][i].value);
    }
    if v :| Reads(cells, g, keyhash, k, v) {
      var s :| HomeAt(cells, g, keyhash, k, v, s);
      assert InBucket(cells, s.bucket, hash, k);
    }
  }

  // ----- a table of four buckets -----

  const FOUR := Geometry(3, Spread)

  const BUCKETS := [Word(0), Word(1), Word(2), Word(3)]

  const LETTERS := ['a', 'b', 'c', 'd']

  const DIGITS := ['0', '1', '2', '3']

  /** The first letter of a key decides on its first bucket, and the low byte is zero. */
  function HashOf(k: Key): Word {
    if k == "" || k[0] == 'a' then Word(0)
    else if k[0] == 'b' then Word(0x100)
    else if k[0] == 'c' then Word(0x200)
    else Word(0x300)
  }

  function Name(b: nat, j: nat): Key
    requires b < 4 && j < 4
  {
    [LETTERS[b], DIGITS[j]]
  }

  ghost function Stamp(b: nat): Word
    requires b < 4
  {
    [Word(0x8000_0000_0000_0000), Word(0x8000_0000_0000_0100), Word(0x8000_0000_0000_0200),
     Word(0x8000_0000_0000_0300)][b]
  }

  ghost function Twin(b: nat): nat { if b % 2 == 0 then b + 1 else b - 1 }

  lemma Stamps()
    ensures 0x8000_0000_0000_0000 | (0 as bv64) == 0x8000_0000_0000_0000
    ensures 0x8000_0000_0000_0000 | (0x100 as bv64) == 0x8000_0000_0000_0100
    ensures 0x8000_0000_0000_0000 | (0x200 as bv64) == 0x8000_0000_0000_0200
    ensures 0x8000_0000_0000_0000 | (0x300 as bv64) == 0x8000_0000_0000_0300
  {
  }

  lemma StampOf(t: Table, k: Key, b: nat)
    requires t.sum == HashOf && b < 4 && k != "" && k[0] == LETTERS[b]
    ensures t.Keyhash(k) == Stamp(b)
  {
    Stamps();
  }

  /** The two buckets of a key are a bucket and its twin. */
  lemma StampIndexes(b: nat)
    requires b < 4
    ensures FirstIndex(FOUR, Stamp(b)) == BUCKETS[b]
  {
  }

  lemma StampTwin(b: nat, c: nat)
    requires b < 4 && c < 4
    ensures Twin(c) < 4 && AltIndex(FOUR, BUCKETS[c], Stamp(b)) == BUCKETS[Twin(c)]
  {
    assert Spread(Stamp(b)) == Word(0x5bd1e995) by { TagOne(Stamp(b).bits); }
    Flips();
  }

  lemma TagOne(x: bv64)
    requires x == 0x8000_0000_0000_0000 || x == 0x8000_0000_0000_0100 || x == 0x8000_0000_0000_0200 ||
             x == 0x8000_0000_0000_0300
    ensures ((x & 0xff) + 1) * 0x5bd1e995 == 0x5bd1e995
  {
  }

  lemma Flips()
    ensures ((0 as bv64) ^ 0x5bd1e995) & 3 == 1 && ((1 as bv64) ^ 0x5bd1e995) & 3 == 0
    ensures ((2 as bv64) ^ 0x5bd1e995) & 3 == 3 && ((3 as bv64) ^ 0x5bd1e995) & 3 == 2
  {
  }

  lemma LowBits(x: bv64)
    ensures x & 3 == x <==> x == 0 || x == 1 || x == 2 || x == 3
  {
  }

  lemma FourFit(w: Word)
    ensures Fits(w, 3) <==> w in BUCKETS
  {
    LowBits(w.bits);
    assert w in BUCKETS <==> w == BUCKETS[0] || w == BUCKETS[1] || w == BUCKETS[2] || w == BUCKETS[3];
  }

  /** Bucket `b` has the keys named after it in its first `ns[b]` slots, and nothing else. */
  ghost predicate Stacked(t: Table, ns: seq<nat>)
    reads t
  {
    && t.Valid() && t.g == FOUR && t.sum == HashOf && |ns| == 4
    && forall b :: 0 <= b < 4 ==> ns[b] <= 4 && Stack(t.cells, b, ns[b])
  }

  ghost predicate Stack(cells: Cells, b: nat, n: nat)
    requires b < 4
  {
    && BUCKETS[b] in cells && |cells[BUCKETS[b]]| == SLOTS
    && forall j :: 0 <= j < SLOTS ==> Piled(cells[BUCKETS[b]][j], b, j, n)
  }

  ghost predicate Piled(c: Cell, b: nat, j: nat, n: nat)
    requires b < 4 && j < 4
  {
    if j < n then c == Cell(Stamp(b), Name(b, j), "") else c.hash == ZERO
  }

  /** The slots in use. */
  lemma StackedUsed(t: Table, ns: seq<nat>, s: Slot) returns (b: nat)
    requires Stacked(t, ns) && Used(t.cells, s)
    ensures b < 4 && s.bucket == BUCKETS[b] && s.index < ns[b] <= 4 &&
            At(t.cells, s) == Cell(Stamp(b), Name(b, s.index), "")
  {
    FourFit(s.bucket);
    b :| 0 <= b < 4 && s.bucket == BUCKETS[b];
    assert Stack(t.cells, b, ns[b]) && Piled(t.cells[BUCKETS[b]][s.index], b, s.index, ns[b]);
  }

  /** A key that is not one of those is not there. */
  lemma StackedAbsent(t: Table, ns: seq<nat>, k: Key)
    requires Stacked(t, ns) && forall b, j :: 0 <= b < 4 && 0 <= j < ns[b] && j < 4 ==> Name(b, j) != k
    ensures !Holds(t.cells, k)
  {
    forall s | Used(t.cells, s) ensures At(t.cells, s).key != k { var b := StackedUsed(t, ns, s); }
  }

  lemma NamesDiffer(b: nat, j: nat, c: nat, i: nat)
    requires b < 4 && j < 4 && c < 4 && i < 4 && (b != c || j != i)
    ensures Name(b, j) != Name(c, i)
  {
    assert Name(b, j)[0] == LETTERS[b] && Name(c, i)[0] == LETTERS[c];
    assert Name(b, j)[1] == DIGITS[j] && Name(c, i)[1] == DIGITS[i];
  }

  lemma StampUsed(b: nat)
    requires b < 4
    ensures Stamp(b) != ZERO
  {
  }

  /** Bucket `b` has space, and that is where its next key goes. */
  lemma NextPlan(t: Table, b: nat, n: nat, ns: seq<nat>)
    requires Stacked(t, ns) && b < 4 && n == ns[b] < 4
    ensures t.Keyhash(Name(b, n)) == Stamp(b) && !Holds(t.cells, Name(b, n))
    ensures t.Plan(t.cells, Name(b, n)) == Found([Slot(BUCKETS[b], n)]) && !t.CutOff(t.cells, Name(b, n))
  {
    var k, cells := Name(b, n), t.cells;
    forall c, j | 0 <= c < 4 && 0 <= j < ns[c] && j < 4 ensures Name(c, j) != k { NamesDiffer(c, j, b, n); }
    StackedAbsent(t, ns, k);
    StampOf(t, k, b);
    StampIndexes(b);
    StampUsed(b);
    assert Stack(cells, b, n);
    var row := cells[BUCKETS[b]];
    forall j | 0 <= j < SLOTS
      ensures row[j].hash == (if j < n then Stamp(b) else ZERO)
    {
      assert Piled(row[j], b, j, n);
    }
    FirstSpaceIs(row, n);
    assert row[n].hash == ZERO && !Full(cells, BUCKETS[b]);
    FoundAtHome(FOUR, cells, BUCKETS[b], AltIndex(FOUR, BUCKETS[b], Stamp(b)));
  }

  /** There it is, and nothing else has changed. */
  lemma NextStack(first: Cells, now: Cells, ns: seq<nat>, b: nat, n: nat, c: nat)
    requires b < 4 && c < 4 && |ns| == 4 && ns[b] == n < 4 && Stack(first, c, ns[c])
    requires Lands(first, now, [Slot(BUCKETS[b], n)], Cell(Stamp(b), Name(b, n), "")) && Shaped(now, 3)
    ensures Stack(now, c, ns[b := n + 1][c])
  {
    FourFit(BUCKETS[c]);
    var row, ns' := now[BUCKETS[c]], ns[b := n + 1];
    forall j | 0 <= j < SLOTS ensures Piled(row[j], c, j, ns'[c]) {
      var u := Slot(BUCKETS[c], j);
      LandsAt(first, now, [Slot(BUCKETS[b], n)], Cell(Stamp(b), Name(b, n), ""), u);
      assert Piled(first[BUCKETS[c]][j], c, j, ns[c]);
      assert Slot(BUCKETS[b], n) == u ==> b == c;
    }
  }

  /** One key more for bucket `b`. */
  method AddTo(t: Table, b: nat, n: nat, ghost ns: seq<nat>)
    requires Stacked(t, ns) && b < 4 && n == ns[b] < 4
    modifies t
    ensures Stacked(t, ns[b := n + 1])
  {
    NextPlan(t, b, n, ns);
    ghost var first := t.cells;
    var r := t.Put(Name(b, n), "");
    ghost var ns' := ns[b := n + 1];
    forall c | 0 <= c < 4 ensures Stack(t.cells, c, ns'[c]) { NextStack(first, t.cells, ns, b, n, c); }
  }

  /** So many keys more for it. */
  method Fill(t: Table, b: nat, n: nat, ghost ns: seq<nat>)
    requires Stacked(t, ns) && b < 4 && ns[b] == 0 && n <= 4
    modifies t
    ensures Stacked(t, ns[b := n])
  {
    for j := 0 to n
      invariant Stacked(t, ns[b := j])
    {
      AddTo(t, b, j, ns[b := j]);
      assert ns[b := j][b := j + 1] == ns[b := j + 1];
    }
    assert ns[b := n] == ns[b := n];
  }

  /** An empty table of four buckets. */
  method EmptyFour() returns (t: Table)
    ensures fresh(t) && Stacked(t, [0, 0, 0, 0])
  {
    var row := seq(SLOTS, _ => Cell(ZERO, "", ""));
    var cells := map[BUCKETS[0] := row, BUCKETS[1] := row, BUCKETS[2] := row, BUCKETS[3] := row];
    forall w: Word ensures Fits(w, 3) <==> w in cells { FourFit(w); }
    t := new Table(3, HashOf, cells);
  }

  /** Four keys for bucket zero, two for bucket one, four each for buckets two and three. */
  method Stock() returns (t: Table)
    ensures fresh(t) && Stacked(t, [4, 2, 4, 4])
  {
    t := EmptyFour();
    Fill(t, 0, 4, [0, 0, 0, 0]);
    assert [0, 0, 0, 0][0 := 4] == [4, 0, 0, 0];
    Fill(t, 1, 2, [4, 0, 0, 0]);
    assert [4, 0, 0, 0][1 := 2] == [4, 2, 0, 0];
    Fill(t, 2, 4, [4, 2, 0, 0]);
    assert [4, 2, 0, 0][2 := 4] == [4, 2, 4, 0];
    Fill(t, 3, 4, [4, 2, 4, 0]);
    assert [4, 2, 4, 0][3 := 4] == [4, 2, 4, 4];
  }

  lemma StockBeyond(t: Table, ns: seq<nat>, b: nat, j: nat)
    requires Stacked(t, ns) && b < 4 && ns[b] == 4 && j < SLOTS
    ensures Twin(b) < 4 && Stack(t.cells, b, 4) && Full(t.cells, BUCKETS[b]) &&
            Beyond(FOUR, t.cells, BUCKETS[b], j) == BUCKETS[Twin(b)]
  {
    assert Stack(t.cells, b, 4);
    StampUsed(b);
    StampTwin(b, b);
    forall i | 0 <= i < SLOTS
      ensures t.cells[BUCKETS[b]][i].hash == Stamp(b)
    {
      assert Piled(t.cells[BUCKETS[b]][i], b, i, 4);
    }
  }

  /** Another key for bucket two is snared. */
  lemma StockSnared(t: Table)
    requires Stacked(t, [4, 2, 4, 4])
    ensures Snared(FOUR, t.cells, BUCKETS[2], BUCKETS[3], BUCKETS[1])
    ensures Used(t.cells, Slot(BUCKETS[1], 1)) && At(t.cells, Slot(BUCKETS[1], 1)).key == Name(1, 1)
  {
    var ns := [4, 2, 4, 4];
    forall b, j | 0 <= b < 4 && b != 1 && 0 <= j < SLOTS
      ensures Beyond(FOUR, t.cells, BUCKETS[b], j) == BUCKETS[Twin(b)]
    {
      StockBeyond(t, ns, b, j);
    }
    StockBeyond(t, ns, 0, 0);
    StockBeyond(t, ns, 2, 0);
    StockBeyond(t, ns, 3, 0);
    assert Twin(0) == 1 && Twin(2) == 3 && Twin(3) == 2;
    assert ns[1] == 2 && Stack(t.cells, 1, ns[1]);
    assert Piled(t.cells[BUCKETS[1]][1], 1, 1, 2) && Piled(t.cells[BUCKETS[1]][2], 1, 2, 2);
    StampUsed(1);
  }

  /** Fourteen keys that can all be read, and a fifteenth that is taken: afterwards neither that one nor the second
      of bucket one, which its `Put` has written over, can be read. */
  method EarlierKeyLost() returns (before: bool, r: Outcome, after: bool, found: bool)
    ensures before && r.Stored? && !after && !found
  {
    var t := Stock();
    var b1, c9 := Name(1, 1), "c9";
    var v;
    v, before := t.Get(b1);
    StockSnared(t);
    assert c9[1] == '9';
    forall b, j | 0 <= b < 4 && 0 <= j < 4 ensures Name(b, j) != c9 { assert Name(b, j)[1] == DIGITS[j]; }
    StackedAbsent(t, [4, 2, 4, 4], c9);
    StampOf(t, c9, 2);
    StampIndexes(2);
    StampTwin(2, 2);
    SnaredSearch(FOUR, t.cells, BUCKETS[2], BUCKETS[3], BUCKETS[1]);
    SnaredHarm(FOUR, t.cells, t.Keyhash, BUCKETS[2], BUCKETS[3], BUCKETS[1], b1);
    LockedSealed(FOUR, t.cells, BUCKETS[2], BUCKETS[3]);
    r := t.Put(c9, "");
    ReadableReads(t.cells, FOUR, t.Keyhash, b1);
    v, after := t.Get(b1);
    v, found := t.Get(c9);
  }
}
