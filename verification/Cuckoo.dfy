/** The cuckoo hash table. */
module Cuckoo {
  import opened CuckooTable
  import opened CuckooSearch
  import opened CuckooPlan

  datatype Outcome = Stored | TableFull | Crashed

  class Table {
    const g: Geometry
    const sum: Key -> Word
    var cells: Cells

    /** An empty table. */
    constructor (mask: bv64, sum: Key -> Word, cells: Cells)
      requires Shaped(cells, mask)
      requires forall b, i :: b in cells && 0 <= i < |cells[b]| ==> cells[b][i].hash == ZERO
      ensures Valid() && g == Geometry(mask, Spread) && this.sum == sum && this.cells == cells &&
              forall k :: !Holds(this.cells, k)
    {
      g := Geometry(mask, Spread);
      this.sum := sum;
      this.cells := cells;
    }

    /** The hash of a key, its top bit set so that it is never zero. */
    function Keyhash(k: Key): Word { Word(0x8000_0000_0000_0000 | sum(k).bits) }

    lemma KeyhashUsed(k: Key)
      ensures Keyhash(k) != ZERO
    {
      TopBit(sum(k).bits);
    }

    ghost predicate Valid()
      reads this
    {
      Sound(cells, g, Keyhash)
    }

    /** Whether a bucket has an empty slot, and the first of them. */
    method HasSpace(bucket: Word) returns (has: bool, at: nat)
      requires bucket in cells && |cells[bucket]| == SLOTS
      ensures has ==> at < SLOTS && cells[bucket][at].hash == ZERO && at == FirstSpace(cells[bucket], 0)
      ensures !has <==> Full(cells, bucket)
    {
      for i := 0 to SLOTS
        invariant forall j :: 0 <= j < i ==> cells[bucket][j].hash != ZERO
      {
        if cells[bucket][i].hash == ZERO {
          FirstSpaceIs(cells[bucket], i);
          return true, i;
        }
      }
      return false, 0;
    }

    method TryBucketRead(k: Key, hash: Word, bucket: Word) returns (v: Value, found: bool, at: nat)
      requires bucket in cells && |cells[bucket]| == SLOTS
      ensures found ==> at < SLOTS && cells[bucket][at] == Cell(hash, k, v)
      ensures found <==> InBucket(cells, bucket, hash, k)
    {
      for i := 0 to SLOTS
        invariant forall j :: 0 <= j < i ==> cells[bucket][j].hash != hash || cells[bucket][j].key != k
      {
        if cells[bucket][i].hash == hash {
          if cells[bucket][i].key == k {
            return cells[bucket][i].value, true, i;
          }
        }
      }
      return "", false, 0;
    }

    /** Looks in the two buckets of the key. */
    method Locate(k: Key) returns (v: Value, found: bool, s: Slot)
      requires Shaped(cells, g.mask)
      ensures found ==> Used(cells, s) && At(cells, s).key == k && At(cells, s).value == v
      ensures found <==> Readable(cells, g, Keyhash, k)
    {
      var hash := Keyhash(k);
      var i1 := FirstIndex(g, hash);
      var i2 := AltIndex(g, i1, hash);
      FirstFits(g, hash);
      AltTwice(g, i1, hash);
      KeyhashUsed(k);
      var at;
      v, found, at := TryBucketRead(k, hash, i1);
      s := Slot(i1, at);
      if !found {
        v, found, at := TryBucketRead(k, hash, i2);
        s := Slot(i2, at);
      }
    }

    /** What is stored under a key, if either of its buckets has it. In a valid table that is so of every
        key that is there. */
    method Get(k: Key) returns (v: Value, found: bool)
      requires Shaped(cells, g.mask)
      ensures found <==> Readable(cells, g, Keyhash, k)
      ensures found ==> Maps(cells, k, v)
      ensures Valid() ==> (found <==> Holds(cells, k)) && (found ==> forall x :: Maps(cells, k, x) <==> x == v)
    {
      var s;
      v, found, s := Locate(k);
      if Valid() {
        KeyhashUsed(k);
        SoundReadable(cells, g, Keyhash, k);
      }
    }

    method Delete(k: Key) returns (found: bool)
      requires Valid()
      modifies this
      ensures Valid() && found == old(Holds(cells, k))
      ensures forall x, v :: Maps(cells, x, v) <==> Maps(old(cells), x, v) && x != k
    {
      var v, s;
      v, found, s := Locate(k);
      KeyhashUsed(k);
      SoundReadable(cells, g, Keyhash, k);
      if !found {
        return;
      }
      RemovedSound(cells, g, Keyhash, s, k);
      cells := CuckooTable.Set(cells, s, Cell(ZERO, "", ""));
    }

    /** Swaps two slots. */
    method Swap(x: Slot, y: Slot)
      requires Within(cells, x) && Within(cells, y) && Shaped(cells, g.mask)
      modifies this
      ensures cells == Swapped(old(cells), x, y) && Shaped(cells, g.mask)
    {
      var a, b := cells[x.bucket][x.index], cells[y.bucket][y.index];
      SetShaped(cells, g, x, b);
      SetShaped(CuckooTable.Set(cells, x, b), g, y, a);
      cells := CuckooTable.Set(CuckooTable.Set(cells, x, b), y, a);
    }

    /** Moves the entries of a chain on by one, from its end, and so frees its first slot. */
    method Relocate(path: seq<Slot>, ghost sound: bool)
      requires Shaped(cells, g.mask) && InTable(path)
      requires sound ==> Valid() && Chain(g, cells, path)
      modifies this
      ensures Shaped(cells, g.mask) && Within(cells, path[0])
      ensures sound ==> Valid() && SameEntries(old(cells), cells) && At(cells, path[0]).hash == ZERO
      ensures Shifted(old(cells), cells, path, 0) && (|path| == 1 ==> cells == old(cells))
    {
      var i := |path| - 1;
      MovingStart(cells, path, sound);
      while i > 0
        invariant 0 <= i < |path| && Moving(old(cells), cells, path, i, sound)
      {
        ghost var before := cells;
        Swap(path[i], path[i - 1]);
        MovedOn(old(cells), before, cells, path, i, sound);
        i := i - 1;
      }
    }

    /** The slots from `i` on have been swapped. */
    ghost predicate Moving(first: Cells, now: Cells, path: seq<Slot>, i: nat, sound: bool) {
      && Shaped(now, g.mask) && OnTable(now, path) && i < |path| && Shifted(first, now, path, i)
      && (sound ==> Chain(g, first, path) && Freed(first, now, path, i))
      && (i == |path| - 1 ==> now == first)
    }

    lemma MovingStart(first: Cells, path: seq<Slot>, sound: bool)
      requires Shaped(first, g.mask) && OnTable(first, path) &&
               (sound ==> Sound(first, g, Keyhash) && Chain(g, first, path))
      ensures Moving(first, first, path, |path| - 1, sound)
    {
      ShiftedNone(first, path);
    }

    lemma MovedOn(first: Cells, before: Cells, now: Cells, path: seq<Slot>, i: nat, sound: bool)
      requires i > 0 && Moving(first, before, path, i, sound) && now == Swapped(before, path[i], path[i - 1]) &&
               Shaped(now, g.mask)
      ensures Moving(first, now, path, i - 1, sound)
    {
      assert Shifted(first, now, path, i - 1) by { ShiftedNext(first, before, now, path, i - 1); }
      assert OnTable(now, path) by { ShiftedOnTable(first, now, path, i - 1); }
      if sound {
        FreedNext(first, before, now, path, i);
      }
    }

    /** The chain has been moved on down to slot `i` of it. */
    ghost predicate Freed(first: Cells, now: Cells, path: seq<Slot>, i: nat)
      requires i < |path|
    {
      && Sound(now, g, Keyhash) && SameEntries(first, now)
      && (forall j :: 0 <= j <= i ==> Within(now, path[j]) && Within(first, path[j]))
      && At(now, path[i]).hash == ZERO
      && (forall j :: 0 <= j < i ==> At(now, path[j]) == At(first, path[j]))
    }

    lemma FreedNext(first: Cells, before: Cells, now: Cells, path: seq<Slot>, i: nat)
      requires 0 < i < |path| && Chain(g, first, path) && Freed(first, before, path, i)
      requires now == Swapped(before, path[i], path[i - 1]) && Shaped(now, g.mask)
      ensures Freed(first, now, path, i - 1)
    {
      var from, to := path[i - 1], path[i];
      assert Linked(g, first, from, to);
      SwapMoves(before, to, from);
      MovedSame(before, now, from, to);
      MovedSound(before, now, g, Keyhash, from, to);
    }

    // ----- searching for an empty slot -----

    /** Nothing in the queue points outside it or outside the table. */
    ghost predicate InRange(q: seq<Node>)
      reads this
    {
      |q| == MAX_REACH && forall x :: 0 <= x < MAX_REACH ==>
        q[x].bucket in cells && q[x].parent < MAX_REACH && q[x].slot < SLOTS
    }

    /** Puts in the queue what lies beyond the slots of node `pos`, except where it came from. */
    method Expand(queue: seq<Node>, tail: nat, pos: nat, back: Word) returns (q: seq<Node>, end: nat)
      requires Shaped(cells, g.mask) && InRange(queue) && pos < MAX_REACH && tail <= MAX_REACH
      ensures (q, end) == Looked(g, cells[queue[pos].bucket], queue[pos], pos, back, queue, tail, SLOTS)
      ensures InRange(q)
    {
      q, end := queue, tail;
      var c, i := queue[pos], 0;
      ghost var row := cells[c.bucket];
      while end < MAX_REACH && i < SLOTS
        invariant i <= SLOTS && (q, end) == Looked(g, row, c, pos, back, queue, tail, i) && InRange(q)
      {
        var hash := cells[c.bucket][i].hash;
        var ai := AltIndex(g, c.bucket, hash);
        AltTwice(g, c.bucket, hash);
        if ai != back {
          q := q[end := Node(ai, c.depth + 1, pos, i)];
          end := end + 1;
        }
        i := i + 1;
      }
      if i < SLOTS {
        LookedEnough(g, row, c, pos, back, queue, tail, i, SLOTS);
      }
    }

    ghost predicate InTable(path: seq<Slot>)
      reads this
    {
      OnTable(cells, path)
    }

    /** Where the search may be: at a node of a sound queue, or astray. */
    ghost predicate Somewhere(q: seq<Node>, pos: nat, tail: nat, i1: Word, i2: Word, sound: bool, first: nat)
      reads this
    {
      && Shaped(cells, g.mask) && InRange(q) && pos < MAX_REACH
      && (sound ==> pos < tail && Grown(g, cells, q, pos, tail, i1, i2))
      && (!sound ==> Astray(g, cells, q, first, pos, tail, i1))
    }

    /** A path that is right, or one that leads to bucket zero. */
    ghost predicate Leading(path: seq<Slot>, i1: Word, i2: Word, sound: bool)
      reads this
    {
      && InTable(path) && |path| <= MAX_PATH_DEPTH
      && (sound ==> Chain(g, cells, path) && Spaced(path) && (path[0].bucket == i1 || path[0].bucket == i2))
      && (!sound ==> path[0].bucket == ZERO)
    }

    /** The way from a root to the empty slot, read back from the queue. */
    method PathTo(q: seq<Node>, pos: nat, at: nat, ghost tail: nat, ghost i1: Word, ghost i2: Word, ghost sound: bool,
                  ghost first: nat)
      returns (r: Search)
      requires Somewhere(q, pos, tail, i1, i2, sound, first) && at < SLOTS && cells[q[pos].bucket][at].hash == ZERO
      ensures !r.NotFound? && (r.Found? ==> Leading(r.path, i1, i2, sound))
      ensures sound ==> (r.OutOfRange? <==> q[pos].depth >= MAX_PATH_DEPTH)
      ensures r == PathOf(q, pos, at)
    {
      var c, last := q[pos], Slot(q[pos].bucket, at);
      if c.depth >= MAX_PATH_DEPTH {
        return OutOfRange;
      }
      if sound {
        TailStart(g, cells, q, pos, tail, i1, i2, last);
      }
      if c.depth == 0 {
        if sound {
          RootIs(g, cells, q, pos, tail, i1, i2, pos);
        }
        return Found([last]);
      }
      r := WalkBack(q, pos, last, tail, i1, i2, sound, first);
    }

    /** Goes from node to parent, as many times as the first node is deep. */
    method WalkBack(q: seq<Node>, pos: nat, last: Slot, ghost tail: nat, ghost i1: Word, ghost i2: Word,
                    ghost sound: bool, ghost first: nat)
      returns (r: Search)
      requires Somewhere(q, pos, tail, i1, i2, sound, first) && Within(cells, last) && 0 < q[pos].depth < MAX_PATH_DEPTH
      requires sound ==> Tail(g, cells, q, pos, [last])
      ensures !r.NotFound? && (r.Found? ==> Leading(r.path, i1, i2, sound)) && (sound ==> r.Found?)
      ensures r == WayBack(q, q[pos], last)
    {
      var c := q[pos];
      var path := StartPath(q, pos, last, tail, i1, i2, sound, first);
      var cd: nat, slot: nat := c.depth, c.slot;
      ghost var x: nat, all := pos, Walk(q, c, slot, path, cd);
      for i := 0 to cd
        invariant Walking(q, c, slot, path, x, cd - i, cd, tail, sound, first)
        invariant Walk(q, c, slot, path, cd - i) == all
      {
        var up;
        up, path, x := StepUp(q, c, slot, path, x, cd - i, cd, pos, tail, i1, i2, sound, first);
        if up.depth >= MAX_PATH_DEPTH {
          return OutOfRange;
        }
        c, slot := up, up.slot;
      }
      if sound {
        WalkedAll(g, cells, q, pos, tail, i1, i2, x, path, cd);
      }
      r := Found(path[..cd + 1]);
    }

    /** The walk is at node `c`, at depth `d`. */
    ghost predicate Walking(q: seq<Node>, c: Node, slot: nat, path: seq<Slot>, x: nat, d: nat, cd: nat, tail: nat,
                            sound: bool, first: nat)
      reads this
    {
      && |path| == MAX_PATH_DEPTH && InTable(path) && c.parent < MAX_REACH && slot < SLOTS
      && (sound ==> x < |q| && c == q[x] && slot == c.slot && Walked(g, cells, q, tail, x, path, d, cd))
      && (!sound ==> first <= x < tail <= |q| && c == q[x] && path[0].bucket == ZERO)
    }

    /** An array of five, with the empty slot at its depth. */
    method StartPath(q: seq<Node>, pos: nat, last: Slot, ghost tail: nat, ghost i1: Word, ghost i2: Word,
                     ghost sound: bool, ghost first: nat)
      returns (path: seq<Slot>)
      requires Somewhere(q, pos, tail, i1, i2, sound, first) && Within(cells, last) && 0 < q[pos].depth < MAX_PATH_DEPTH
      requires sound ==> Tail(g, cells, q, pos, [last])
      ensures Walking(q, q[pos], q[pos].slot, path, pos, q[pos].depth, q[pos].depth, tail, sound, first)
      ensures path == Blanks()[q[pos].depth := last]
    {
      ZeroFits(g.mask);
      var cd := q[pos].depth;
      path := seq(MAX_PATH_DEPTH, _ => Slot(ZERO, 0));
      path := path[cd := last];
      assert path[cd..cd + 1] == [last];
    }

    /** Goes to the parent, and writes down the slot the child came from. */
    method StepUp(q: seq<Node>, c: Node, slot: nat, path: seq<Slot>, ghost x: nat, ghost d: nat, ghost cd: nat,
                  ghost pos: nat, ghost tail: nat, ghost i1: Word, ghost i2: Word, ghost sound: bool, ghost first: nat)
      returns (up: Node, path': seq<Slot>, ghost x': nat)
      requires Somewhere(q, pos, tail, i1, i2, sound, first) && d > 0 &&
               Walking(q, c, slot, path, x, d, cd, tail, sound, first)
      ensures up.depth < MAX_PATH_DEPTH ==> Walking(q, up, up.slot, path', x', d - 1, cd, tail, sound, first)
      ensures sound ==> up.depth < MAX_PATH_DEPTH
      ensures up == q[c.parent] && (up.depth < MAX_PATH_DEPTH ==> path' == path[up.depth := Slot(up.bucket, slot)])
    {
      up, path', x' := q[c.parent], path, c.parent;
      if sound {
        WalkedUp(g, cells, q, pos, tail, i1, i2, x, path, d, cd);
      }
      if up.depth < MAX_PATH_DEPTH {
        path' := path[up.depth := Slot(up.bucket, slot)];
        Upward(path, up.depth, path', sound, Slot(up.bucket, slot));
      }
    }

    lemma Upward(path: seq<Slot>, d: nat, path': seq<Slot>, sound: bool, s: Slot)
      requires Shaped(cells, g.mask) && |path| == MAX_PATH_DEPTH && InTable(path) && d < MAX_PATH_DEPTH
      requires s.bucket in cells && s.index < SLOTS && path' == path[d := s]
      requires !sound ==> d > 0 && path[0].bucket == ZERO
      ensures |path'| == MAX_PATH_DEPTH && InTable(path') && (!sound ==> path'[0].bucket == ZERO)
    {
    }

    /** What a search may come up with.  Unless the buckets are cut off, it is a chain from one of them;
        otherwise a path from bucket zero, and just a slot of that if it has space.  It is something if
        there is space at most three moves away. */
    ghost predicate Answers(r: Search, i1: Word, i2: Word)
      reads this
    {
      && (r.Found? ==> Leading(r.path, i1, i2, !Sealed(g, cells, i1, i2)))
      && (r.Found? && Sealed(g, cells, i1, i2) ==>
            ZERO != i1 && ZERO != i2 && (!Full(cells, ZERO) ==> |r.path| == 1 && At(cells, r.path[0]).hash == ZERO))
      && (!r.Found? ==> forall b :: Reach(g, cells, i1, i2, 3, b) ==> Full(cells, b))
      && (Trapped(g, cells, i1, i2) ==> r.Found?)
    }

    /** Looks for a chain to an empty slot.  It finds one, if there is space at most three moves away.
        When the two buckets are cut off, the queue may run dry: a search that goes on past the end of the
        queue looks at blank nodes, which stand for bucket zero, and what it finds starts there. */
    method SlotSearch(i1: Word, i2: Word) returns (r: Search)
      requires Shaped(cells, g.mask) && i1 in cells && i2 in cells
      ensures Answers(r, i1, i2) && r == SearchOf(g, cells, i1, i2)
    {
      ghost var s := Witness(i1, i2);
      var q, tail := StartQueue(i1, i2, s);
      ghost var first: nat := 0;
      for pos := 0 to MAX_REACH
        invariant Underway(q, pos, tail, i1, i2, s, first)
      {
        var done;
        done, r, q, tail, first := Examine(q, pos, tail, i1, i2, s, first);
        if done {
          return;
        }
      }
      r := NotFound;
      Ended(q, tail, i1, i2, s, first);
    }

    /** What holds at node `pos` of the search; see `UnderwayMeans`. */
    ghost predicate Underway(q: seq<Node>, pos: nat, tail: nat, i1: Word, i2: Word, s: set<Word>, first: nat)
      reads this
    {
      forall n: nat :: UnderwayNow(q, pos, tail, i1, i2, s, first, n)
    }

    ghost predicate UnderwayNow(q: seq<Node>, pos: nat, tail: nat, i1: Word, i2: Word, s: set<Word>, first: nat,
                                n: nat)
      reads this
    {
      n >= 0 && Searching(q, pos, tail, i1, i2, s, first) && Traced(q, pos, tail, i1, i2)
    }

    lemma UnderwayMeans(q: seq<Node>, pos: nat, tail: nat, i1: Word, i2: Word, s: set<Word>, first: nat)
      ensures Underway(q, pos, tail, i1, i2, s, first) <==>
              Searching(q, pos, tail, i1, i2, s, first) && Traced(q, pos, tail, i1, i2)
    {
      assert UnderwayNow(q, pos, tail, i1, i2, s, first, 0) <==>
             Searching(q, pos, tail, i1, i2, s, first) && Traced(q, pos, tail, i1, i2);
    }

    lemma Ended(q: seq<Node>, tail: nat, i1: Word, i2: Word, s: set<Word>, first: nat)
      requires Shaped(cells, g.mask) && i1 in cells && i2 in cells
      requires Underway(q, MAX_REACH, tail, i1, i2, s, first)
      ensures Answers(NotFound, i1, i2) && SearchOf(g, cells, i1, i2) == NotFound
    {
      UnderwayMeans(q, MAX_REACH, tail, i1, i2, s, first);
      Exhausted(q, tail, i1, i2, s, first);
      TracedAll(q, tail, i1, i2);
    }

    /** Looks at node `pos`. */
    method Examine(queue: seq<Node>, pos: nat, tail: nat,
                   ghost i1: Word, ghost i2: Word, ghost s: set<Word>, ghost first: nat)
      returns (done: bool, r: Search, q: seq<Node>, end: nat, ghost first': nat)
      requires Shaped(cells, g.mask) && pos < MAX_REACH && Underway(queue, pos, tail, i1, i2, s, first)
      ensures done ==> Answers(r, i1, i2) && r == SearchOf(g, cells, i1, i2)
      ensures !done ==> Underway(q, pos + 1, end, i1, i2, s, first')
    {
      UnderwayMeans(queue, pos, tail, i1, i2, s, first);
      done, r, q, end, first' := false, NotFound, queue, tail, first;
      if first == 0 && pos == tail {
        RunDry(queue, tail, i1, i2, s);
        first' := tail;
      }
      var has, at := HasSpace(queue[pos].bucket);
      if has {
        done := true;
        r := Conclude(queue, pos, at, tail, i1, i2, s, first');
        TracedFound(queue, pos, tail, i1, i2, at);
      } else {
        q, end := ExpandNext(queue, pos, tail, i1, i2, s, first');
        TracedOn(queue, pos, tail, i1, i2, q, end);
        UnderwayMeans(q, pos + 1, end, i1, i2, s, first');
      }
    }

    /** The queue is what it should be at node `pos`, and nothing has been found before; see `TracedMeans`. */
    ghost predicate Traced(q: seq<Node>, pos: nat, tail: nat, i1: Word, i2: Word)
      reads this
    {
      forall n: nat :: TracedNow(q, pos, tail, i1, i2, n)
    }

    lemma TracedMeans(q: seq<Node>, pos: nat, tail: nat, i1: Word, i2: Word)
      ensures Traced(q, pos, tail, i1, i2) <==> TracedNow(q, pos, tail, i1, i2, 0)
    {
      assert forall n: nat :: TracedNow(q, pos, tail, i1, i2, n) == TracedNow(q, pos, tail, i1, i2, 0);
    }

    ghost predicate TracedNow(q: seq<Node>, pos: nat, tail: nat, i1: Word, i2: Word, n: nat)
      reads this
    {
      && pos <= MAX_REACH && (q, tail) == QueueAt(g, cells, i1, i2, pos)
      && SearchFrom(g, cells, i1, i2, pos) == SearchOf(g, cells, i1, i2)
    }

    lemma TracedFirst(q: seq<Node>, i1: Word, i2: Word)
      requires q == Roots(i1, i2)
      ensures Traced(q, 0, 2, i1, i2)
    {
      SearchIs(g, cells, i1, i2);
      TracedMeans(q, 0, 2, i1, i2);
    }

    lemma TracedOn(queue: seq<Node>, pos: nat, tail: nat, i1: Word, i2: Word, q: seq<Node>, end: nat)
      requires Traced(queue, pos, tail, i1, i2) && Next(queue, pos, tail, q, end)
      ensures Traced(q, pos + 1, end, i1, i2)
    {
      TracedMeans(queue, pos, tail, i1, i2);
      TracedMeans(q, pos + 1, end, i1, i2);
    }

    /** Node `pos` has space. */
    lemma TracedFound(q: seq<Node>, pos: nat, tail: nat, i1: Word, i2: Word, at: nat)
      requires Traced(q, pos, tail, i1, i2) && pos < |q| == MAX_REACH
      requires q[pos].bucket in cells && |cells[q[pos].bucket]| == SLOTS && !Full(cells, q[pos].bucket)
      requires at == FirstSpace(cells[q[pos].bucket], 0)
      ensures SearchOf(g, cells, i1, i2) == PathOf(q, pos, at)
    {
      TracedMeans(q, pos, tail, i1, i2);
    }

    lemma TracedAll(q: seq<Node>, tail: nat, i1: Word, i2: Word)
      requires Traced(q, MAX_REACH, tail, i1, i2)
      ensures SearchOf(g, cells, i1, i2) == NotFound
    {
      TracedMeans(q, MAX_REACH, tail, i1, i2);
    }

    /** A closed set around the two buckets, if there is one. */
    ghost function Witness(i1: Word, i2: Word): (s: set<Word>)
      reads this
      ensures Sealed(g, cells, i1, i2) ==> Closed(g, cells, s) && i1 in s && i2 in s
    {
      if Sealed(g, cells, i1, i2) then
        var s :| Closed(g, cells, s) && i1 in s && i2 in s;
        s
      else {}
    }

    /** The search has looked at the first `pos` nodes; it ran dry at node `first`, unless that is zero. */
    ghost predicate Searching(q: seq<Node>, pos: nat, tail: nat, i1: Word, i2: Word, s: set<Word>, first: nat)
      reads this
    {
      && InRange(q) && tail <= MAX_REACH
      && (if first == 0 then OnTrack(q, pos, tail, i1, i2) else Adrift(q, pos, tail, i1, i2, first))
      && (Sealed(g, cells, i1, i2) ==> Inside(q, i1, i2, s))
      && (Trapped(g, cells, i1, i2) ==> Trap(q, pos, tail, i1, i2))
    }

    ghost predicate OnTrack(q: seq<Node>, pos: nat, tail: nat, i1: Word, i2: Word)
      reads this
    {
      && Grown(g, cells, q, pos, tail, i1, i2) && Complete(g, cells, q, pos, tail) && Breadth(g, cells, q, pos, tail)
      && forall x :: tail <= x < |q| ==> q[x] == BLANK
    }

    ghost predicate Adrift(q: seq<Node>, pos: nat, tail: nat, i1: Word, i2: Word, first: nat)
      reads this
    {
      && Sealed(g, cells, i1, i2) && Astray(g, cells, q, first, pos, tail, i1)
      && (if first < pos then Full(cells, ZERO) else tail == pos)
    }

    ghost predicate Inside(q: seq<Node>, i1: Word, i2: Word, s: set<Word>)
      reads this
    {
      && Closed(g, cells, s) && i1 in s && i2 in s
      && (ZERO in s ==> |q| == MAX_REACH && forall x :: 0 <= x < MAX_REACH ==> q[x].bucket in s)
    }

    /** Two roots, and blank nodes. */
    method StartQueue(i1: Word, i2: Word, ghost s: set<Word>) returns (q: seq<Node>, tail: nat)
      requires Shaped(cells, g.mask) && i1 in cells && i2 in cells
      requires Sealed(g, cells, i1, i2) ==> Closed(g, cells, s) && i1 in s && i2 in s
      ensures Underway(q, 0, tail, i1, i2, s, 0)
    {
      ZeroFits(g.mask);
      q := seq(MAX_REACH, _ => BLANK);
      q := q[0 := q[0].(bucket := i1)];
      q := q[1 := q[1].(bucket := i2)];
      tail := 2;
      assert q == Roots(i1, i2);
      TracedFirst(q, i1, i2);
      UnderwayMeans(q, 0, 2, i1, i2, s, 0);
    }

    /** Goes on from a full bucket. */
    method ExpandNext(queue: seq<Node>, pos: nat, tail: nat, ghost i1: Word, ghost i2: Word, ghost s: set<Word>,
                      ghost first: nat)
      returns (q: seq<Node>, end: nat)
      requires Shaped(cells, g.mask) && pos < MAX_REACH && Searching(queue, pos, tail, i1, i2, s, first)
      requires (first == 0 ==> pos < tail) && Full(cells, queue[pos].bucket)
      ensures Searching(q, pos + 1, end, i1, i2, s, first) && InRange(q) && Next(queue, pos, tail, q, end)
    {
      q, end := Expand(queue, tail, pos, queue[queue[pos].parent].bucket);
      SearchedOn(queue, pos, tail, i1, i2, s, first, q, end);
    }

    /** Node `pos` has been looked beyond. */
    ghost predicate Next(queue: seq<Node>, pos: nat, tail: nat, q: seq<Node>, end: nat)
      reads this
    {
      && pos < MAX_REACH == |queue| && queue[pos].parent < MAX_REACH && tail <= MAX_REACH &&
         Full(cells, queue[pos].bucket)
      && |cells[queue[pos].bucket]| == SLOTS
      && (q, end) ==
         Looked(g, cells[queue[pos].bucket], queue[pos], pos, queue[queue[pos].parent].bucket, queue, tail, SLOTS)
    }

    lemma SearchedOn(queue: seq<Node>, pos: nat, tail: nat, i1: Word, i2: Word, s: set<Word>, first: nat, q: seq<Node>,
                     end: nat)
      requires Shaped(cells, g.mask) && Searching(queue, pos, tail, i1, i2, s, first) && Next(queue, pos, tail, q, end)
      requires (first == 0 ==> pos < tail) && InRange(q)
      ensures Searching(q, pos + 1, end, i1, i2, s, first)
    {
      if first == 0 {
        TrackNext(queue, pos, tail, i1, i2, q, end);
      } else {
        DriftNext(queue, pos, tail, i1, i2, first, q, end);
      }
      if Sealed(g, cells, i1, i2) {
        InsideNext(queue, pos, tail, i1, i2, s, q, end);
      }
      if Trapped(g, cells, i1, i2) {
        TrapNext(queue, pos, tail, i1, i2, q, end);
      }
    }

    lemma InsideNext(queue: seq<Node>, pos: nat, tail: nat, i1: Word, i2: Word, s: set<Word>, q: seq<Node>, end: nat)
      requires Inside(queue, i1, i2, s) && Next(queue, pos, tail, q, end)
      ensures Inside(q, i1, i2, s)
    {
      if ZERO in s {
        LookedInside(g, cells, s, queue[pos], pos, queue[queue[pos].parent].bucket, queue, tail, SLOTS, q, end);
      }
    }

    lemma TrapNext(queue: seq<Node>, pos: nat, tail: nat, i1: Word, i2: Word, q: seq<Node>, end: nat)
      requires Trapped(g, cells, i1, i2) && Trap(queue, pos, tail, i1, i2) && Next(queue, pos, tail, q, end)
      ensures Trap(q, pos + 1, end, i1, i2)
    {
      assert pos < tail;
      TrapStep(g, cells, queue, pos, tail, i1, i2);
    }

    lemma TrackNext(queue: seq<Node>, pos: nat, tail: nat, i1: Word, i2: Word, q: seq<Node>, end: nat)
      requires Shaped(cells, g.mask) && OnTrack(queue, pos, tail, i1, i2) && pos < tail &&
               Next(queue, pos, tail, q, end)
      ensures OnTrack(q, pos + 1, end, i1, i2)
    {
      BackKnown(g, cells, queue, pos, tail, i1, i2);
      LookedOn(g, cells, pos, queue[queue[pos].parent].bucket, queue, tail, i1, i2);
      BreadthNext(g, cells, queue, pos, tail, i1, i2);
    }

    lemma DriftNext(queue: seq<Node>, pos: nat, tail: nat, i1: Word, i2: Word, first: nat, q: seq<Node>, end: nat)
      requires Shaped(cells, g.mask) && Adrift(queue, pos, tail, i1, i2, first) && Next(queue, pos, tail, q, end)
      ensures Adrift(q, pos + 1, end, i1, i2, first)
    {
      AstrayNext(g, cells, queue, first, pos, tail, i1);
    }

    /** A bucket with space has been found. */
    method Conclude(q: seq<Node>, pos: nat, at: nat, ghost tail: nat, ghost i1: Word, ghost i2: Word,
                    ghost s: set<Word>, ghost first: nat)
      returns (r: Search)
      requires Shaped(cells, g.mask) && pos < MAX_REACH && Searching(q, pos, tail, i1, i2, s, first) &&
               (first == 0 ==> pos < tail)
      requires at < SLOTS && cells[q[pos].bucket][at].hash == ZERO
      ensures Answers(r, i1, i2) && r == PathOf(q, pos, at)
    {
      r := PathTo(q, pos, at, tail, i1, i2, first == 0, first);
      assert !Full(cells, q[pos].bucket);
      if first == 0 {
        if Sealed(g, cells, i1, i2) {
          StaysInside(g, cells, s, q, pos, tail, i1, i2, pos);
          assert false;
        }
        if r.OutOfRange? {
          NearFull(g, cells, q, pos, tail, i1, i2);
        }
      } else {
        SealedFull(g, cells, s, i1, i2);
      }
    }

    /** All of the queue has been looked at. */
    lemma RunDry(q: seq<Node>, tail: nat, i1: Word, i2: Word, s: set<Word>)
      requires Shaped(cells, g.mask) && Searching(q, tail, tail, i1, i2, s, 0) && tail < MAX_REACH
      ensures Searching(q, tail, tail, i1, i2, s, tail)
    {
      DrySealed(g, cells, q, tail, i1, i2);
    }

    /** No bucket looked at had space. */
    lemma Exhausted(q: seq<Node>, tail: nat, i1: Word, i2: Word, s: set<Word>, first: nat)
      requires Shaped(cells, g.mask) && Searching(q, MAX_REACH, tail, i1, i2, s, first)
      ensures Answers(NotFound, i1, i2)
    {
      if first == 0 {
        NearFull(g, cells, q, MAX_REACH, tail, i1, i2);
      } else {
        SealedFull(g, cells, s, i1, i2);
      }
    }

    // ----- adding a key -----

    /** What the search for room for a key comes to. */
    ghost function Plan(c: Cells, k: Key): Search {
      var i1 := FirstIndex(g, Keyhash(k));
      SearchOf(g, c, i1, AltIndex(g, i1, Keyhash(k)))
    }

    /** No moves can make room for the key. */
    ghost predicate CutOff(c: Cells, k: Key) {
      var i1 := FirstIndex(g, Keyhash(k));
      Sealed(g, c, i1, AltIndex(g, i1, Keyhash(k)))
    }

    /** There is space in a bucket at most `n` moves away from the key's. */
    ghost predicate Roomy(c: Cells, k: Key, n: nat) {
      var i1 := FirstIndex(g, Keyhash(k));
      exists b :: Reach(g, c, i1, AltIndex(g, i1, Keyhash(k)), n, b) && !Full(c, b)
    }

    /** A chain from one of the two buckets is short enough. */
    lemma ChainRoomy(k: Key, path: seq<Slot>)
      requires Leading(path, FirstIndex(g, Keyhash(k)), AltIndex(g, FirstIndex(g, Keyhash(k)), Keyhash(k)), true)
      ensures Roomy(cells, k, 4)
    {
      var i1 := FirstIndex(g, Keyhash(k));
      var i2, last := AltIndex(g, i1, Keyhash(k)), path[|path| - 1];
      ChainReach(g, cells, i1, i2, path, |path| - 1);
      Farther(g, cells, i1, i2, |path| - 1, 4, last.bucket);
      assert At(cells, last).hash == ZERO;
    }

    /** The two buckets of the key hold nothing that belongs elsewhere. */
    ghost predicate Lost(c: Cells, k: Key) {
      var i1 := FirstIndex(g, Keyhash(k));
      Trapped(g, c, i1, AltIndex(g, i1, Keyhash(k)))
    }

    /** The outcome a search leads to. */
    ghost function Verdict(s: Search): Outcome {
      match s
      case Found(_) => Stored
      case NotFound => TableFull
      case OutOfRange => Crashed
    }

    /** What has become of the keys that were there: those that the path does no harm are read as before, and
        the others are not found. */
    ghost predicate EarlierKeys(first: Cells, now: Cells, k: Key, path: seq<Slot>)
      requires path != []
    {
      forall x, y :: x != k ==>
        (Reads(now, g, Keyhash, x, y) <==> Reads(first, g, Keyhash, x, y) && !Harms(first, g, path, x))
    }

    ghost predicate Harmless(first: Cells, path: seq<Slot>)
      requires path != []
    {
      forall x :: !Harms(first, g, path, x)
    }

    lemma Earlier(first: Cells, now: Cells, k: Key, v: Value, path: seq<Slot>)
      requires Sound(first, g, Keyhash) && Lands(first, now, path, Cell(Keyhash(k), k, v))
      ensures path != [] && EarlierKeys(first, now, k, path)
    {
      LandsAt(first, now, path, Cell(Keyhash(k), k, v), Slot(ZERO, 0));
      forall x, y | x != k
        ensures Reads(now, g, Keyhash, x, y) <==> Reads(first, g, Keyhash, x, y) && !Harms(first, g, path, x)
      {
        KeyhashUsed(x);
        LandsReads(first, now, g, Keyhash, path, Cell(Keyhash(k), k, v), x, y);
      }
    }

    lemma NoHarmSound(first: Cells, now: Cells, k: Key, v: Value, path: seq<Slot>)
      requires Sound(first, g, Keyhash) && Sound(now, g, Keyhash) && Lands(first, now, path, Cell(Keyhash(k), k, v))
      requires !Holds(first, k) && Joined(first, now, k, v)
      ensures path != [] && Harmless(first, path)
    {
      forall x ensures path != [] && !Harms(first, g, path, x) {
        KeyhashUsed(x);
        KeptHarmless(first, now, g, Keyhash, path, Cell(Keyhash(k), k, v), x);
      }
    }

    lemma NoHarmOne(first: Cells, s: Slot)
      requires Sound(first, g, Keyhash) && Within(first, s) && At(first, s).hash == ZERO
      ensures Harmless(first, [s])
    {
      forall x ensures !Harms(first, g, [s], x) { OneSlotHarmless(first, g, Keyhash, s, x); }
    }

    /** Adds a key that is not in the table, as the search plans it.  What is stored can be read unless the key
        is cut off; then it is in bucket zero, where reading does not look.  Keys that were there before are read
        as before, except those that the moves along the path harm, and there are none of these unless the key is
        cut off and bucket zero is full.  A key is not refused if there is space at most three moves away, and
        not stored for good if there is none at most four moves away. */
    method Put(k: Key, v: Value) returns (r: Outcome)
      requires Valid() && !Holds(cells, k)
      modifies this
      ensures Shaped(cells, g.mask) && r == Verdict(Plan(old(cells), k))
      ensures r.Stored? ==> (Readable(cells, g, Keyhash, k) <==> !CutOff(old(cells), k))
      ensures r.Stored? ==> var path := Plan(old(cells), k).path;
                && Lands(old(cells), cells, path, Cell(Keyhash(k), k, v)) && path != []
                && EarlierKeys(old(cells), cells, k, path)
                && (!CutOff(old(cells), k) || !Full(old(cells), ZERO) ==>
                    Harmless(old(cells), path) && Joined(old(cells), cells, k, v))
      ensures r.Stored? && !CutOff(old(cells), k) ==> Valid() && Roomy(old(cells), k, 4)
      ensures r.Stored? && CutOff(old(cells), k) && !Full(old(cells), ZERO) ==> OnlyZero(old(cells), cells)
      ensures !r.Stored? ==> cells == old(cells) && !Roomy(cells, k, 3)
      ensures Lost(old(cells), k) ==> r.Stored?
    {
      var hash := Keyhash(k);
      var i1 := FirstIndex(g, hash);
      var i2 := AltIndex(g, i1, hash);
      FirstFits(g, hash);
      AltTwice(g, i1, hash);
      FoundAtHome(g, cells, i1, i2);
      var has, at := HasSpace(i1);
      if has {
        Fill(k, v, Slot(i1, at), i1, i2);
        return Stored;
      }
      has, at := HasSpace(i2);
      if has {
        Fill(k, v, Slot(i2, at), i1, i2);
        return Stored;
      }
      r := PutBySearch(k, v, hash, i1, i2);
    }

    /** Puts a key in an empty slot of one of its buckets. */
    method Fill(k: Key, v: Value, s: Slot, ghost i1: Word, ghost i2: Word)
      requires Valid() && !Holds(cells, k) && Within(cells, s) && At(cells, s).hash == ZERO
      requires i1 == FirstIndex(g, Keyhash(k)) && i2 == AltIndex(g, i1, Keyhash(k)) &&
               (s.bucket == i1 || s.bucket == i2)
      modifies this
      ensures Valid() && Readable(cells, g, Keyhash, k) && Joined(old(cells), cells, k, v)
      ensures Lands(old(cells), cells, [s], Cell(Keyhash(k), k, v))
      ensures EarlierKeys(old(cells), cells, k, [s]) && Harmless(old(cells), [s])
      ensures Roomy(old(cells), k, 4) && !CutOff(old(cells), k) && !Lost(old(cells), k)
    {
      Farther(g, cells, i1, i2, 0, 4, s.bucket);
      assert !Full(cells, s.bucket);
      ghost var first := cells;
      LandsOne(cells, s, Cell(Keyhash(k), k, v));
      NoHarmOne(cells, s);
      Place(k, v, s, cells, true);
      Earlier(first, cells, k, v, [s]);
    }

    /** Makes room in one of the two full buckets of a key. */
    method PutBySearch(k: Key, v: Value, hash: Word, i1: Word, i2: Word) returns (r: Outcome)
      requires Valid() && !Holds(cells, k) && i1 in cells && i2 in cells
      requires hash == Keyhash(k) && i1 == FirstIndex(g, hash) && i2 == AltIndex(g, i1, hash)
      modifies this
      ensures Shaped(cells, g.mask) && r == Verdict(Plan(old(cells), k))
      ensures r.Stored? ==> (Readable(cells, g, Keyhash, k) <==> !CutOff(old(cells), k))
      ensures r.Stored? ==> var path := Plan(old(cells), k).path;
                && Lands(old(cells), cells, path, Cell(Keyhash(k), k, v)) && path != []
                && EarlierKeys(old(cells), cells, k, path)
                && (!CutOff(old(cells), k) || !Full(old(cells), ZERO) ==>
                    Harmless(old(cells), path) && Joined(old(cells), cells, k, v))
      ensures r.Stored? && !CutOff(old(cells), k) ==> Valid() && Roomy(old(cells), k, 4)
      ensures r.Stored? && CutOff(old(cells), k) && !Full(old(cells), ZERO) ==> OnlyZero(old(cells), cells)
      ensures !r.Stored? ==> cells == old(cells) && !Roomy(cells, k, 3)
      ensures Lost(old(cells), k) ==> r.Stored?
    {
      var search := SlotSearch(i1, i2);
      if search.NotFound? {
        return TableFull;
      }
      if search.OutOfRange? {
        return Crashed;
      }
      ghost var sound, first, path := !CutOff(cells, k), cells, search.path;
      if sound {
        ChainRoomy(k, path);
      }
      PutAlong(k, v, search.path, sound);
      Earlier(first, cells, k, v, path);
      if sound {
        NoHarmSound(first, cells, k, v, path);
      } else if !Full(first, ZERO) {
        assert path == [path[0]];
        NoHarmOne(first, path[0]);
      }
      r := Stored;
    }

    /** Moves the entries of a path on by one, and puts a key in its first slot. */
    method PutAlong(k: Key, v: Value, path: seq<Slot>, ghost sound: bool)
      requires Valid() && !Holds(cells, k) && InTable(path)
      requires sound ==> Chain(g, cells, path) && Home(g, Keyhash(k), path[0].bucket)
      requires !sound ==> !Home(g, Keyhash(k), path[0].bucket)
      modifies this
      ensures Shaped(cells, g.mask) && (Readable(cells, g, Keyhash, k) <==> sound)
      ensures Lands(old(cells), cells, path, Cell(Keyhash(k), k, v))
      ensures sound ==> Valid() && Joined(old(cells), cells, k, v)
      ensures |path| == 1 ==> cells == CuckooTable.Set(old(cells), path[0], Cell(Keyhash(k), k, v))
      ensures |path| == 1 && At(old(cells), path[0]).hash == ZERO ==> Joined(old(cells), cells, k, v)
    {
      KeyhashUsed(k);
      if At(cells, path[0]).hash == ZERO {
        AddedMaps(cells, path[0], Cell(Keyhash(k), k, v));
      }
      Relocate(path, sound);
      ShiftedFrom(old(cells), cells, path, 0);
      ShiftedOnTable(old(cells), cells, path, 0);
      Place(k, v, path[0], old(cells), sound);
    }

    /** Puts a key in a slot: an empty one in one of its buckets, or one where it does not belong. */
    method Place(k: Key, v: Value, s: Slot, ghost before: Cells, ghost sound: bool)
      requires Shaped(cells, g.mask) && Within(cells, s) && !Holds(before, k)
      requires sound ==>
               Valid() && SameEntries(before, cells) && At(cells, s).hash == ZERO && Home(g, Keyhash(k), s.bucket)
      requires !sound ==> FromCells(before, cells) && !Home(g, Keyhash(k), s.bucket)
      modifies this
      ensures Shaped(cells, g.mask) && cells == CuckooTable.Set(old(cells), s, Cell(Keyhash(k), k, v))
      ensures Readable(cells, g, Keyhash, k) <==> sound
      ensures sound ==> Valid() && Joined(before, cells, k, v)
    {
      KeyhashUsed(k);
      SetShaped(cells, g, s, Cell(Keyhash(k), k, v));
      if sound {
        SameAbsent(before, cells, k);
        AddedSound(cells, g, Keyhash, s, k, v);
      } else {
        PutAstray(before, cells, g, Keyhash, s, k, v);
      }
      cells := CuckooTable.Set(cells, s, Cell(Keyhash(k), k, v));
      if sound {
        assert Maps(cells, k, v);
        SoundReadable(cells, g, Keyhash, k);
      }
    }
  }

  /** The second table has what the first has, and `k`. */
  ghost predicate Joined(cells: Cells, cells': Cells, k: Key, v: Value) {
    forall x, y :: Maps(cells', x, y) <==> Maps(cells, x, y) || (x == k && y == v)
  }

  /** No bucket but bucket zero has changed. */
  ghost predicate OnlyZero(cells: Cells, cells': Cells) {
    forall b :: b in cells && b != ZERO ==> b in cells' && cells'[b] == cells[b]
  }

  lemma ZeroFits(mask: bv64)
    ensures Fits(ZERO, mask)
  {
  }

  /** The bucket a node came from is in the queue. */
  lemma BackKnown(g: Geometry, cells: Cells, q: seq<Node>, pos: nat, tail: nat, i1: Word, i2: Word)
    requires Grown(g, cells, q, pos, tail, i1, i2) && pos < tail
    ensures q[pos].parent < |q| && Known(q, tail, q[q[pos].parent].bucket)
  {
    assert pos >= 2 ==> Child(g, cells, q, pos);
  }

  lemma TopBit(x: bv64)
    ensures 0x8000_0000_0000_0000 | x != 0
  {
  }
}
