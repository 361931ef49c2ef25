/** A key that the cuckoo table takes and cannot find again. */
module CuckooLost {
  import opened CuckooTable
  import opened CuckooSearch
  import opened Cuckoo

  /** The geometry of a table of two buckets. */
  const TWO := Geometry(1, Spread)

  const ONE := Word(1)

  /** A hash whose low nine bits are set has bucket one twice. */
  lemma OneBucket(hash: Word)
    requires hash.bits & 0x1ff == 0x1ff
    ensures FirstIndex(TWO, hash) == ONE && AltIndex(TWO, ONE, hash) == ONE
  {
    LowByte(hash.bits);
  }

  lemma LowByte(x: bv64)
    requires x & 0x1ff == 0x1ff
    ensures x & 0xff == 0xff && (x >> 8) & 1 == 1 && ((1 as bv64) ^ ((0xff + 1) * 0x5bd1e995)) & 1 == 1
  {
  }

  lemma LowBit(x: bv64)
    ensures x & 1 == x <==> x == 0 || x == 1
  {
  }

  lemma TwoBuckets(cells: Cells, row: seq<Cell>)
    requires |row| == SLOTS && cells == map[ZERO := row, ONE := row]
    ensures Shaped(cells, 1)
  {
    forall b: Word ensures Fits(b, 1) <==> b == ZERO || b == ONE { LowBit(b.bits); }
  }

  /** All keys have bucket one twice. */
  ghost predicate Crowded(keyhash: Key -> Word) {
    forall k :: keyhash(k).bits & 0x1ff == 0x1ff
  }

  /** What is in the table is in bucket one, once. */
  lemma AllInOne(cells: Cells, keyhash: Key -> Word, s: Slot)
    requires Sound(cells, TWO, keyhash) && Crowded(keyhash) && Used(cells, s)
    ensures s.bucket == ONE && AltIndex(TWO, ONE, At(cells, s).hash) == ONE
  {
    OneBucket(At(cells, s).hash);
  }

  lemma FourInThree(p: Key, q: Key, r: Key, s: Key, a: Key, b: Key, c: Key)
    requires (p == a || p == b || p == c) && (q == a || q == b || q == c) && (r == a || r == b || r == c) &&
             (s == a || s == b || s == c)
    ensures p == q || p == r || p == s || q == r || q == s || r == s
  {
  }

  lemma FourPlaces(i: nat, p: nat, q: nat, r: nat, s: nat)
    requires i < 4 && p < 4 && q < 4 && r < 4 && s < 4
    requires p != q && p != r && p != s && q != r && q != s && r != s
    ensures i == p || i == q || i == r || i == s
  {
  }

  /** With three keys or less bucket one has space. */
  lemma NotYetFull(cells: Cells, keyhash: Key -> Word, a: Key, b: Key, c: Key)
    requires Sound(cells, TWO, keyhash) && (forall k :: Holds(cells, k) ==> k == a || k == b || k == c)
    ensures !Full(cells, ONE)
  {
    LowBit(1);
    assert Fits(ONE, 1);
    if Full(cells, ONE) {
      forall i, j | 0 <= i < j < SLOTS ensures cells[ONE][i].key != cells[ONE][j].key {
        assert Used(cells, Slot(ONE, i)) && Used(cells, Slot(ONE, j));
      }
      forall i | 0 <= i < SLOTS ensures cells[ONE][i].key == a || cells[ONE][i].key == b || cells[ONE][i].key == c {
        assert Used(cells, Slot(ONE, i)) && At(cells, Slot(ONE, i)).key == cells[ONE][i].key;
        assert Holds(cells, cells[ONE][i].key);
      }
      FourInThree(cells[ONE][0].key, cells[ONE][1].key, cells[ONE][2].key, cells[ONE][3].key, a, b, c);
    }
  }

  /** With four keys it has none, and nothing can be moved out of it. */
  lemma ThenTrapped(cells: Cells, keyhash: Key -> Word, a: Key, b: Key, c: Key, d: Key)
    requires Sound(cells, TWO, keyhash) && Crowded(keyhash)
    requires a != b && a != c && a != d && b != c && b != d && c != d
    requires Holds(cells, a) && Holds(cells, b) && Holds(cells, c) && Holds(cells, d)
    ensures Trapped(TWO, cells, ONE, ONE)
  {
    LowBit(0);
    LowBit(1);
    assert Fits(ONE, 1) && Fits(ZERO, 1);
    forall i | 0 <= i < SLOTS ensures Used(cells, Slot(ONE, i)) { OneUsed(cells, keyhash, a, b, c, d, i); }
    forall i | 0 <= i < SLOTS ensures cells[ONE][i].hash != ZERO && Beyond(TWO, cells, ONE, i) == ONE {
      assert Used(cells, Slot(ONE, i));
      AllInOne(cells, keyhash, Slot(ONE, i));
    }
    if Full(cells, ZERO) {
      assert Used(cells, Slot(ZERO, 0));
      AllInOne(cells, keyhash, Slot(ZERO, 0));
    }
  }

  lemma OneUsed(cells: Cells, keyhash: Key -> Word, a: Key, b: Key, c: Key, d: Key, i: nat)
    requires Sound(cells, TWO, keyhash) && Crowded(keyhash) && i < SLOTS
    requires a != b && a != c && a != d && b != c && b != d && c != d
    requires Holds(cells, a) && Holds(cells, b) && Holds(cells, c) && Holds(cells, d)
    ensures Used(cells, Slot(ONE, i))
  {
    var sa :| Used(cells, sa) && At(cells, sa).key == a;
    var sb :| Used(cells, sb) && At(cells, sb).key == b;
    var sc :| Used(cells, sc) && At(cells, sc).key == c;
    var sd :| Used(cells, sd) && At(cells, sd).key == d;
    AllInOne(cells, keyhash, sa);
    AllInOne(cells, keyhash, sb);
    AllInOne(cells, keyhash, sc);
    AllInOne(cells, keyhash, sd);
    FourPlaces(i, sa.index, sb.index, sc.index, sd.index);
  }

  /** Space in bucket one is room for any key. */
  lemma HasRoom(t: Table, k: Key)
    requires t.g == TWO && Crowded(t.Keyhash) && !Full(t.cells, ONE)
    ensures t.Roomy(t.cells, k, 3) && !t.CutOff(t.cells, k)
  {
    OneBucket(t.Keyhash(k));
    assert Reach(TWO, t.cells, ONE, ONE, 0, ONE);
    assert Reach(TWO, t.cells, ONE, ONE, 1, ONE);
    assert Reach(TWO, t.cells, ONE, ONE, 2, ONE);
    assert Reach(TWO, t.cells, ONE, ONE, 3, ONE);
  }

  /** One more key, while there is room. */
  method AddOne(t: Table, k: Key, ghost a: Key, ghost b: Key, ghost c: Key)
    requires t.Valid() && t.g == TWO && Crowded(t.Keyhash) && !Holds(t.cells, k)
    requires forall x :: Holds(t.cells, x) ==> x == a || x == b || x == c
    modifies t
    ensures t.Valid() && forall x :: Holds(t.cells, x) <==> Holds(old(t.cells), x) || x == k
  {
    NotYetFull(t.cells, t.Keyhash, a, b, c);
    HasRoom(t, k);
    ghost var before := t.cells;
    var r := t.Put(k, "");
    forall x ensures Holds(t.cells, x) <==> Holds(before, x) || x == k {
      JoinedHolds(before, t.cells, k, "", x);
    }
  }

  lemma JoinedHolds(cells: Cells, cells': Cells, k: Key, v: Value, x: Key)
    requires Joined(cells, cells', k, v)
    ensures Holds(cells', x) <==> Holds(cells, x) || x == k
  {
    if Holds(cells, x) {
      var s :| Used(cells, s) && At(cells, s).key == x;
      assert Maps(cells, x, At(cells, s).value);
      assert Maps(cells', x, At(cells, s).value);
    }
    if x == k {
      assert Maps(cells', k, v);
    }
    if Holds(cells', x) {
      var s :| Used(cells', s) && At(cells', s).key == x;
      assert Maps(cells', x, At(cells', s).value);
    }
  }

  /** An empty table of two buckets, where all keys have the same hash. */
  method EmptyTwo() returns (t: Table)
    ensures fresh(t) && t.Valid() && t.g == TWO && Crowded(t.Keyhash) && forall k :: !Holds(t.cells, k)
  {
    var row := seq(SLOTS, _ => Cell(ZERO, "", ""));
    var cells := map[ZERO := row, ONE := row];
    TwoBuckets(cells, row);
    t := new Table(1, _ => Word(0x1ff), cells);
    TopAndLow();
  }

  lemma TopAndLow()
    ensures (0x8000_0000_0000_0000 | 0x1ff as bv64) & 0x1ff == 0x1ff
  {
  }

  /** Four keys fill bucket one. */
  method FillOne(t: Table, a: Key, b: Key, c: Key, d: Key)
    requires t.Valid() && t.g == TWO && Crowded(t.Keyhash) && forall k :: !Holds(t.cells, k)
    requires a != b && a != c && a != d && b != c && b != d && c != d
    modifies t
    ensures t.Valid() && Trapped(TWO, t.cells, ONE, ONE)
    ensures forall k :: Holds(t.cells, k) <==> k == a || k == b || k == c || k == d
  {
    AddOne(t, a, a, a, a);
    AddOne(t, b, a, a, a);
    AddOne(t, c, a, b, b);
    AddOne(t, d, a, b, c);
    ThenTrapped(t.cells, t.Keyhash, a, b, c, d);
  }

  /** The fifth is taken, and cannot be read. */
  method FifthKeyLost() returns (t: Table, r: Outcome, v: Value, found: bool)
    ensures r.Stored? && !found && Maps(t.cells, "e", "")
  {
    t := EmptyTwo();
    var a, b, c, d, e := "a", "b", "c", "d", "e";
    assert a[0] == 'a' && b[0] == 'b' && c[0] == 'c' && d[0] == 'd' && e[0] == 'e';
    FillOne(t, a, b, c, d);
    LockedSealed(TWO, t.cells, ONE, ONE);
    OneBucket(t.Keyhash(e));
    r := t.Put(e, "");
    v, found := t.Get(e);
  }
}
