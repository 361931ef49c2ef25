/** Buckets of a cuckoo table, and what moving entries to their other buckets keeps. */
module CuckooTable {

  type Key = string
  type Value = string

  const SLOTS: nat := 4

  /** Sixty-four bits: a hash, a bucket number or a difference of bucket numbers. */
  datatype Word = Word(bits: bv64)

  const ZERO := Word(0)

  /** A slot; a hash of zero marks it empty. */
  datatype Cell = Cell(hash: Word, key: Key, value: Value)

  datatype Slot = Slot(bucket: Word, index: nat)

  type Cells = map<Word, seq<Cell>>

  /** Every bucket the mask allows is there, and no other. */
  ghost predicate Shaped(cells: Cells, mask: bv64) {
    forall b :: (b in cells <==> Fits(b, mask)) && (b in cells ==> |cells[b]| == SLOTS)
  }

  ghost predicate Within(cells: Cells, s: Slot) {
    s.bucket in cells && s.index < |cells[s.bucket]|
  }

  // ----- the two buckets of a hash -----

  predicate Fits(b: Word, mask: bv64) { b.bits & mask == b.bits }

  /** What decides on buckets: the mask, and by what the two buckets of a hash differ. */
  datatype Geometry = Geometry(mask: bv64, spread: Word -> Word)

  /** The difference the table uses, from the low byte of the hash. */
  function Spread(hash: Word): Word { Word(((hash.bits & 0xff) + 1) * 0x5bd1e995) }

  function Flip(b: Word, x: Word, mask: bv64): Word { Word((b.bits ^ x.bits) & mask) }

  lemma FlipTwice(b: Word, x: Word, mask: bv64)
    requires Fits(b, mask)
    ensures Flip(Flip(b, x, mask), x, mask) == b && Fits(Flip(b, x, mask), mask)
  {
  }

  function AltIndex(g: Geometry, bucket: Word, hash: Word): Word { Flip(bucket, g.spread(hash), g.mask) }

  function FirstIndex(g: Geometry, hash: Word): Word { Word((hash.bits >> 8) & g.mask) }

  lemma FirstFits(g: Geometry, hash: Word)
    ensures Fits(FirstIndex(g, hash), g.mask)
  {
  }

  /** Going to the other bucket twice leads back. */
  lemma AltTwice(g: Geometry, bucket: Word, hash: Word)
    requires Fits(bucket, g.mask)
    ensures AltIndex(g, AltIndex(g, bucket, hash), hash) == bucket && Fits(AltIndex(g, bucket, hash), g.mask)
  {
    FlipTwice(bucket, g.spread(hash), g.mask);
  }

  /** The bucket is one of the two of the hash. */
  ghost predicate Home(g: Geometry, hash: Word, bucket: Word) {
    bucket == FirstIndex(g, hash) || bucket == AltIndex(g, FirstIndex(g, hash), hash)
  }

  /** The other bucket of an entry at home is home too. */
  lemma AltHome(g: Geometry, hash: Word, bucket: Word)
    requires Home(g, hash, bucket)
    ensures Home(g, hash, AltIndex(g, bucket, hash))
    ensures Fits(bucket, g.mask) && Fits(AltIndex(g, bucket, hash), g.mask)
  {
    FirstFits(g, hash);
    AltTwice(g, FirstIndex(g, hash), hash);
  }

  // ----- entries -----

  ghost function At(cells: Cells, s: Slot): Cell
    requires Within(cells, s)
  {
    cells[s.bucket][s.index]
  }

  ghost predicate Used(cells: Cells, s: Slot) {
    Within(cells, s) && At(cells, s).hash != ZERO
  }

  /** Every entry is in one of its buckets, under the hash of its key, and no key is there twice. */
  ghost predicate Sound(cells: Cells, g: Geometry, keyhash: Key -> Word) {
    && Shaped(cells, g.mask)
    && (forall s :: Used(cells, s) ==>
        Home(g, At(cells, s).hash, s.bucket) && At(cells, s).hash == keyhash(At(cells, s).key))
    && (forall s, t :: Used(cells, s) && Used(cells, t) && At(cells, s).key == At(cells, t).key ==> s == t)
  }

  ghost predicate Maps(cells: Cells, k: Key, v: Value) {
    exists s :: Used(cells, s) && At(cells, s).key == k && At(cells, s).value == v
  }

  ghost predicate Holds(cells: Cells, k: Key) {
    exists s :: Used(cells, s) && At(cells, s).key == k
  }

  ghost predicate SameEntries(cells: Cells, cells': Cells) {
    forall k, v :: Maps(cells', k, v) <==> Maps(cells, k, v)
  }

  function Set(cells: Cells, s: Slot, c: Cell): Cells
    requires s.bucket in cells && s.index < |cells[s.bucket]|
  {
    cells[s.bucket := cells[s.bucket][s.index := c]]
  }

  lemma SetAt(cells: Cells, s: Slot, c: Cell, t: Slot)
    requires Within(cells, s)
    ensures Within(Set(cells, s, c), t) <==> Within(cells, t)
    ensures Within(cells, t) ==> At(Set(cells, s, c), t) == if t == s then c else At(cells, t)
  {
    var row, cells' := cells[s.bucket][s.index := c], Set(cells, s, c);
    assert cells'[s.bucket] == row;
    if t.bucket in cells && t.bucket != s.bucket {
      assert cells'[t.bucket] == cells[t.bucket];
    }
  }

  lemma SetShaped(cells: Cells, g: Geometry, s: Slot, c: Cell)
    requires Shaped(cells, g.mask) && Within(cells, s)
    ensures Shaped(Set(cells, s, c), g.mask)
  {
  }

  // ----- moving an entry -----

  /** What swapping a used slot with an empty one does. */
  ghost predicate Moved(cells: Cells, cells': Cells, from: Slot, to: Slot) {
    && Used(cells, from) && Within(cells, to) && At(cells, to).hash == ZERO && from != to
    && (forall t :: Within(cells', t) <==> Within(cells, t))
    && (forall t :: Within(cells, t) ==>
          At(cells', t) == if t == from then At(cells, to) else if t == to then At(cells, from) else At(cells, t))
  }

  lemma MovedSame(cells: Cells, cells': Cells, from: Slot, to: Slot)
    requires Moved(cells, cells', from, to)
    ensures SameEntries(cells, cells')
  {
    forall k, v ensures Maps(cells', k, v) <==> Maps(cells, k, v) {
      if Maps(cells, k, v) {
        var s :| Used(cells, s) && At(cells, s).key == k && At(cells, s).value == v;
        var t := if s == from then to else s;
        assert Used(cells', t) && At(cells', t) == At(cells, s);
      }
      if Maps(cells', k, v) {
        var s :| Used(cells', s) && At(cells', s).key == k && At(cells', s).value == v;
        var t := if s == to then from else s;
        assert Used(cells, t) && At(cells, t) == At(cells', s);
      }
    }
  }

  lemma MovedSound(cells: Cells, cells': Cells, g: Geometry, keyhash: Key -> Word, from: Slot, to: Slot)
    requires Sound(cells, g, keyhash) && Moved(cells, cells', from, to) && Shaped(cells', g.mask)
    requires to.bucket == AltIndex(g, from.bucket, At(cells, from).hash)
    ensures Sound(cells', g, keyhash)
  {
    AltHome(g, At(cells, from).hash, from.bucket);
    forall s | Used(cells', s)
      ensures Home(g, At(cells', s).hash, s.bucket) && At(cells', s).hash == keyhash(At(cells', s).key)
    {
      var t := if s == to then from else s;
      assert Used(cells, t) && At(cells, t) == At(cells', s);
    }
    forall s, t | Used(cells', s) && Used(cells', t) && At(cells', s).key == At(cells', t).key ensures s == t {
      var s', t' := if s == to then from else s, if t == to then from else t;
      assert Used(cells, s') && Used(cells, t') && At(cells, s') == At(cells', s) && At(cells, t') == At(cells', t);
    }
  }

  function Swapped(cells: Cells, x: Slot, y: Slot): Cells
    requires x.bucket in cells && x.index < |cells[x.bucket]| && y.bucket in cells && y.index < |cells[y.bucket]|
  {
    var a, b := cells[x.bucket][x.index], cells[y.bucket][y.index];
    Set(Set(cells, x, b), y, a)
  }

  lemma SwapMoves(cells: Cells, to: Slot, from: Slot)
    requires Used(cells, from) && Within(cells, to) && At(cells, to).hash == ZERO && from != to
    ensures Moved(cells, Swapped(cells, to, from), from, to)
  {
    var a, b := At(cells, to), At(cells, from);
    var mid, cells' := Set(cells, to, b), Swapped(cells, to, from);
    forall t ensures Within(cells', t) <==> Within(cells, t) {
      SetAt(cells, to, b, t);
      SetAt(mid, from, a, t);
    }
    forall t | Within(cells, t)
      ensures At(cells', t) == if t == from then a else if t == to then b else At(cells, t)
    {
      SetAt(cells, to, b, t);
      SetAt(mid, from, a, t);
    }
  }

  lemma SameAbsent(cells: Cells, cells': Cells, k: Key)
    requires SameEntries(cells, cells') && !Holds(cells, k)
    ensures !Holds(cells', k)
  {
    forall s | Used(cells', s) ensures At(cells', s).key != k {
      assert Maps(cells', At(cells', s).key, At(cells', s).value);
    }
  }

  /** A key that is in neither of its buckets is nowhere. */
  lemma Nowhere(cells: Cells, g: Geometry, keyhash: Key -> Word, k: Key, i1: Word, i2: Word)
    requires Sound(cells, g, keyhash)
    requires i1 == FirstIndex(g, keyhash(k)) && i2 == AltIndex(g, i1, keyhash(k)) && i1 in cells && i2 in cells
    requires forall i :: 0 <= i < SLOTS ==> cells[i1][i].hash != keyhash(k) || cells[i1][i].key != k
    requires forall i :: 0 <= i < SLOTS ==> cells[i2][i].hash != keyhash(k) || cells[i2][i].key != k
    ensures !Holds(cells, k)
  {
    forall t | Used(cells, t) ensures At(cells, t).key != k {
      assert Home(g, At(cells, t).hash, t.bucket);
    }
  }

  /** Looking in the two buckets of a key finds it. */
  ghost predicate Readable(cells: Cells, g: Geometry, keyhash: Key -> Word, k: Key) {
    var i1 := FirstIndex(g, keyhash(k));
    InBucket(cells, i1, keyhash(k), k) || InBucket(cells, AltIndex(g, i1, keyhash(k)), keyhash(k), k)
  }

  ghost predicate InBucket(cells: Cells, bucket: Word, hash: Word, k: Key) {
    && bucket in cells
    && exists i :: 0 <= i < |cells[bucket]| && cells[bucket][i].hash == hash && cells[bucket][i].key == k
  }

  /** In a sound table what is there can be read. */
  lemma SoundReadable(cells: Cells, g: Geometry, keyhash: Key -> Word, k: Key)
    requires Sound(cells, g, keyhash) && keyhash(k) != ZERO
    ensures Readable(cells, g, keyhash, k) <==> Holds(cells, k)
  {
    var i1 := FirstIndex(g, keyhash(k));
    var i2 := AltIndex(g, i1, keyhash(k));
    FirstFits(g, keyhash(k));
    AltTwice(g, i1, keyhash(k));
    if !Readable(cells, g, keyhash, k) {
      Nowhere(cells, g, keyhash, k, i1, i2);
    } else {
      var b := if InBucket(cells, i1, keyhash(k), k) then i1 else i2;
      var i :| 0 <= i < |cells[b]| && cells[b][i].hash == keyhash(k) && cells[b][i].key == k;
      assert Used(cells, Slot(b, i)) && At(cells, Slot(b, i)).key == k;
    }
  }

  /** Every cell of the one table is a cell of the other. */
  ghost predicate FromCells(cells: Cells, cells': Cells) {
    forall s :: Within(cells', s) ==> IsCell(cells, At(cells', s))
  }

  ghost predicate IsCell(cells: Cells, c: Cell) {
    exists t :: Within(cells, t) && At(cells, t) == c
  }

  /** A key that was not in the table, put where it does not belong, is in neither of its buckets. */
  lemma PutAstray(first: Cells, cells: Cells, g: Geometry, keyhash: Key -> Word, s: Slot, k: Key, v: Value)
    requires FromCells(first, cells) && Within(cells, s) && !Holds(first, k) && keyhash(k) != ZERO &&
             !Home(g, keyhash(k), s.bucket)
    ensures !Readable(Set(cells, s, Cell(keyhash(k), k, v)), g, keyhash, k)
  {
    var cells' := Set(cells, s, Cell(keyhash(k), k, v));
    forall b | Home(g, keyhash(k), b) ensures !InBucket(cells', b, keyhash(k), k) {
      if InBucket(cells', b, keyhash(k), k) {
        var i :| 0 <= i < |cells'[b]| && cells'[b][i].hash == keyhash(k) && cells'[b][i].key == k;
        SetAt(cells, s, Cell(keyhash(k), k, v), Slot(b, i));
      }
    }
  }

  // ----- adding and removing an entry -----

  lemma AddedMaps(cells: Cells, s: Slot, c: Cell)
    requires Within(cells, s) && At(cells, s).hash == ZERO && c.hash != ZERO
    ensures forall k, v :: Maps(Set(cells, s, c), k, v) <==> Maps(cells, k, v) || (k == c.key && v == c.value)
  {
    var cells' := Set(cells, s, c);
    forall t ensures Used(cells', t) <==> Used(cells, t) || t == s { SetAt(cells, s, c, t); }
    forall t | Used(cells, t) ensures At(cells', t) == At(cells, t) { SetAt(cells, s, c, t); }
    SetAt(cells, s, c, s);
    forall k, v ensures Maps(cells', k, v) <==> Maps(cells, k, v) || (k == c.key && v == c.value) {
      if Maps(cells, k, v) {
        var t :| Used(cells, t) && At(cells, t).key == k && At(cells, t).value == v;
        assert Used(cells', t) && At(cells', t) == At(cells, t);
      }
      if k == c.key && v == c.value {
        assert Used(cells', s) && At(cells', s) == c;
      }
    }
  }

  lemma AddedSound(cells: Cells, g: Geometry, keyhash: Key -> Word, s: Slot, k: Key, v: Value)
    requires Sound(cells, g, keyhash) && Within(cells, s) && At(cells, s).hash == ZERO && !Holds(cells, k)
    requires keyhash(k) != ZERO && Home(g, keyhash(k), s.bucket)
    ensures Sound(Set(cells, s, Cell(keyhash(k), k, v)), g, keyhash)
    ensures forall k', v' :: Maps(Set(cells, s, Cell(keyhash(k), k, v)), k', v') <==>
            Maps(cells, k', v') || (k' == k && v' == v)
  {
    var c := Cell(keyhash(k), k, v);
    var cells' := Set(cells, s, c);
    SetShaped(cells, g, s, c);
    forall t ensures Used(cells', t) <==> Used(cells, t) || t == s { SetAt(cells, s, c, t); }
    forall t | Used(cells, t) ensures At(cells', t) == At(cells, t) && At(cells, t).key != k { SetAt(cells, s, c, t); }
    SetAt(cells, s, c, s);
    AddedMaps(cells, s, c);
  }

  lemma RemovedSound(cells: Cells, g: Geometry, keyhash: Key -> Word, s: Slot, k: Key)
    requires Sound(cells, g, keyhash) && Used(cells, s) && At(cells, s).key == k
    ensures Sound(Set(cells, s, Cell(ZERO, "", "")), g, keyhash)
    ensures forall k', v' :: Maps(Set(cells, s, Cell(ZERO, "", "")), k', v') <==> Maps(cells, k', v') && k' != k
  {
    var c := Cell(ZERO, "", "");
    var cells' := Set(cells, s, c);
    SetShaped(cells, g, s, c);
    SetAt(cells, s, c, s);
    forall t ensures Used(cells', t) <==> Used(cells, t) && t != s { SetAt(cells, s, c, t); }
    forall t | Used(cells', t) ensures At(cells', t) == At(cells, t) && At(cells, t).key != k { SetAt(cells, s, c, t); }
    forall k', v' ensures Maps(cells', k', v') <==> Maps(cells, k', v') && k' != k {
      if Maps(cells, k', v') && k' != k {
        var t :| Used(cells, t) && At(cells, t).key == k' && At(cells, t).value == v';
        assert Used(cells', t) && At(cells', t) == At(cells, t);
      }
    }
  }
}
