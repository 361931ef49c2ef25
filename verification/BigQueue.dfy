/** The persistent queue: arenas brought into memory as needed, and messages laid across them. */
module BigQueue {
  import opened Arithmetic
  import opened RingFormat
  import opened BigQueueLayout

  // ----- arenas in memory -----

  ghost function Count(loaded: seq<bool>): nat {
    if loaded == [] then 0 else (if loaded[0] then 1 else 0) + Count(loaded[1..])
  }

  lemma {:induction false} CountSet(loaded: seq<bool>, i: nat, b: bool)
    requires i < |loaded|
    ensures Count(loaded[i := b]) == Count(loaded) - (if loaded[i] then 1 else 0) + if b then 1 else 0
  {
    if i > 0 {
      CountSet(loaded[1..], i - 1, b);
      assert loaded[i := b][1..] == loaded[1..][i - 1 := b];
    } else {
      assert loaded[0 := b][1..] == loaded[1..];
    }
  }

  lemma {:induction false} CountMore(loaded: seq<bool>)
    ensures Count(loaded + [false]) == Count(loaded)
  {
    if loaded == [] {
      assert loaded + [false] == [false];
    } else {
      CountMore(loaded[1..]);
      assert (loaded + [false])[1..] == loaded[1..] + [false];
    }
  }

  lemma {:induction false} CountNone(loaded: seq<bool>)
    requires forall i :: 0 <= i < |loaded| ==> !loaded[i]
    ensures Count(loaded) == 0
  {
    if loaded != [] {
      CountNone(loaded[1..]);
    }
  }

  /** With nothing but two protected arenas loaded there are at most two. */
  lemma AtMostTwo(loaded: seq<bool>, h: int, t: int)
    requires forall i :: 0 <= i < |loaded| && loaded[i] ==> i == h || i == t
    ensures Count(loaded) <= 2
  {
    var one := if 0 <= h < |loaded| then loaded[h := false] else loaded;
    var none := if 0 <= t < |loaded| then one[t := false] else one;
    if 0 <= h < |loaded| {
      CountSet(loaded, h, false);
    }
    if 0 <= t < |loaded| {
      CountSet(one, t, false);
    }
    CountNone(none);
  }

  lemma AtMostOne(loaded: seq<bool>, h: int)
    requires forall i :: 0 <= i < |loaded| && loaded[i] ==> i == h
    ensures Count(loaded) <= 1
  {
    var none := if 0 <= h < |loaded| then loaded[h := false] else loaded;
    if 0 <= h < |loaded| {
      CountSet(loaded, h, false);
    }
    CountNone(none);
  }

  ghost predicate AllSized(files: Files, size: nat) {
    forall a :: a in files ==> |files[a]| == size
  }

  /** The length of every message fits its field. */
  ghost predicate AllShort(msgs: seq<seq<Byte>>) {
    forall i :: 0 <= i < |msgs| ==> |msgs[i]| < U64
  }

  /** The messages lie from `p` to `q`. */
  ghost predicate Stored(files: Files, size: nat, p: Place, msgs: seq<seq<Byte>>, q: Place)
    requires WORD <= size && Sits(p, size)
  {
    Laid(files, size, p, msgs, q) && AllShort(msgs)
  }

  /** From arena `lo` on nothing has changed. */
  ghost predicate Same(files: Files, files': Files, size: nat, lo: nat) {
    forall a :: lo <= a ==> Arena(files', size, a) == Arena(files, size, a)
  }

  class Queue {
    const arenaSize: nat
    const maxInMem: nat
    var head: Place
    var tail: Place
    var baseAid: nat
    var loaded: seq<bool>
    var inMem: int
    var files: Files
    ghost var msgs: seq<seq<Byte>>

    ghost predicate Valid()
      reads this
    {
      Managed() && Sits(head, arenaSize) && Stored(files, arenaSize, head, msgs, tail) && Reached(tail)
    }

    /** The list of arenas goes up to the place, or is one short if the place starts an arena. */
    ghost predicate Reached(p: Place)
      reads this
    {
      p.aid <= baseAid + |loaded| && (p.off > 0 ==> p.aid < baseAid + |loaded|)
    }

    /** The arena manager: what is loaded is counted, has a file, and keeps to the limit. */
    ghost predicate Managed()
      reads this
    {
      && WORD <= arenaSize && (maxInMem == 0 || maxInMem >= 3)
      && baseAid <= head.aid <= baseAid + |loaded|
      && inMem == Count(loaded) && (maxInMem != 0 ==> inMem <= maxInMem)
      && AllSized(files, arenaSize)
      && forall i :: 0 <= i < |loaded| && loaded[i] ==> baseAid + i in files
    }

    /** Opens what is on disk, with the arenas of the head and of the tail in memory. */
    constructor (arenaSize: nat, maxInMem: nat, files: Files, head: Place, tail: Place, ghost msgs: seq<seq<Byte>>)
      requires WORD <= arenaSize && (maxInMem == 0 || maxInMem >= 3) && AllSized(files, arenaSize)
      requires Sits(head, arenaSize) && NotAfter(head, tail) && Stored(files, arenaSize, head, msgs, tail)
      ensures Valid() && this.msgs == msgs && this.arenaSize == arenaSize && this.maxInMem == maxInMem
      ensures this.head == head && this.tail == tail && Same(files, this.files, arenaSize, 0)
    {
      this.arenaSize, this.maxInMem := arenaSize, maxInMem;
      this.head, this.tail, this.msgs, this.files := head, tail, msgs, files;
      baseAid, inMem := head.aid, 0;
      loaded := seq(tail.aid + 1 - head.aid, _ => false);
      new;
      CountNone(loaded);
      Load(head.aid);
      ghost var mid := this.files;
      if !loaded[tail.aid - head.aid] {
        assert inMem <= 1 by { AtMostOne(loaded, 0); }
      }
      Load(tail.aid);
      SameTwice(files, mid, this.files, arenaSize, 0);
      StillLaid(files, this.files, arenaSize, head, msgs, tail);
    }

    method Unload(i: nat)
      requires i < |loaded| && inMem == Count(loaded)
      modifies `loaded, `inMem
      ensures loaded == old(loaded)[i := false] && inMem == Count(loaded) <= old(inMem)
      ensures old(loaded)[i] ==> inMem == old(inMem) - 1
    {
      if !loaded[i] {
        assert loaded[i := false] == loaded;
        return;
      }
      CountSet(loaded, i, false);
      inMem := inMem - 1;
      loaded := loaded[i := false];
    }

    /** Unloads the arenas before the head and deletes their files. */
    method Collect()
      requires Managed()
      modifies `loaded, `inMem, `files
      ensures Managed() && inMem <= old(inMem) && |loaded| == |old(loaded)|
      ensures forall i :: 0 <= i < |loaded| ==> loaded[i] == (old(loaded)[i] && baseAid + i >= head.aid)
      ensures files == map a | a in old(files) && !(baseAid <= a < head.aid) :: old(files)[a]
    {
      for aid := baseAid to head.aid
        invariant |loaded| == |old(loaded)| && inMem == Count(loaded) <= old(inMem)
        invariant forall i :: 0 <= i < |loaded| ==> loaded[i] == (old(loaded)[i] && baseAid + i >= aid)
        invariant files == map a | a in old(files) && !(baseAid <= a < aid) :: old(files)[a]
      {
        Unload(aid - baseAid);
        files := files - {aid};
      }
    }

    /** Unloads arenas from the last one down, but not the head's or the tail's, until one more fits. */
    method Evict()
      requires Managed() && maxInMem >= 3
      modifies `loaded, `inMem
      ensures Managed() && |loaded| == |old(loaded)| && inMem < maxInMem
      ensures forall i :: 0 <= i < |loaded| && loaded[i] ==> old(loaded)[i]
      ensures forall i :: 0 <= i < |loaded| && (baseAid + i == head.aid || baseAid + i == tail.aid)
                ==> loaded[i] == old(loaded)[i]
    {
      var cur := baseAid + |loaded|;
      while maxInMem - inMem <= 0
        invariant baseAid <= cur <= baseAid + |loaded| && |loaded| == |old(loaded)|
        invariant inMem == Count(loaded) <= maxInMem
        invariant forall i :: 0 <= i < |loaded| && baseAid + i < cur ==> loaded[i] == old(loaded)[i]
        invariant forall i :: 0 <= i < |loaded| && baseAid + i >= cur ==>
                    loaded[i] == (old(loaded)[i] && (baseAid + i == head.aid || baseAid + i == tail.aid))
        decreases cur
      {
        if cur == baseAid {
          AtMostTwo(loaded, head.aid - baseAid, tail.aid - baseAid);
          assert false;
        }
        cur := cur - 1;
        if cur == tail.aid || cur == head.aid {
          continue;
        }
        Unload(cur - baseAid);
      }
    }

    /** Makes room in memory for one more arena. */
    method EnsureEnoughMem()
      requires Managed()
      modifies `loaded, `inMem, `files
      ensures Managed() && |loaded| == |old(loaded)| && (maxInMem != 0 ==> inMem < maxInMem)
      ensures files == map a | a in old(files) && !(baseAid <= a < head.aid) :: old(files)[a]
      ensures forall i :: 0 <= i < |loaded| && loaded[i] ==> old(loaded)[i]
      ensures forall i :: 0 <= i < |loaded| &&
                          (baseAid + i == head.aid || (baseAid + i == tail.aid && tail.aid >= head.aid)) ==>
                loaded[i] == old(loaded)[i]
    {
      Collect();
      if maxInMem == 0 {
        return;
      }
      if inMem < maxInMem {
        return;
      }
      Evict();
    }

    /** Maps the arena's file, which is created, all zeros, if there is none. */
    method Load(aid: nat)
      requires Managed() && baseAid <= aid < baseAid + |loaded|
      requires !loaded[aid - baseAid] && maxInMem != 0 ==> inMem < maxInMem
      modifies `loaded, `inMem, `files
      ensures Managed() && loaded == old(loaded)[aid - baseAid := true] && aid in files
      ensures Same(old(files), files, arenaSize, 0) && old(files).Keys <= files.Keys
    {
      if loaded[aid - baseAid] {
        assert loaded[aid - baseAid := true] == loaded;
        return;
      }
      if aid !in files {
        files := files[aid := seq(arenaSize, _ => 0)];
      }
      CountSet(loaded, aid - baseAid, true);
      inMem := inMem + 1;
      loaded := loaded[aid - baseAid := true];
    }

    /** Brings an arena into memory.  The list is never too short for it. */
    method GetArena(aid: nat)
      requires Managed() && head.aid <= aid <= baseAid + |loaded|
      modifies `loaded, `inMem, `files
      ensures Managed() && aid < baseAid + |loaded| && loaded[aid - baseAid] && aid in files
      ensures |old(loaded)| <= |loaded| && Same(old(files), files, arenaSize, head.aid)
    {
      var rel := aid - baseAid;
      if rel == |loaded| {
        CountMore(loaded);
        loaded := loaded + [false];
      }
      if loaded[rel] {
        return;
      }
      EnsureEnoughMem();
      Load(aid);
    }

    // ----- writing -----

    /** Copies as much of `s` as the arena takes from `off` on. */
    method Write(aid: nat, off: nat, s: seq<Byte>) returns (n: nat)
      requires Managed() && aid in files && off < arenaSize
      modifies `files
      ensures Managed() && n == (if |s| < arenaSize - off then |s| else arenaSize - off)
      ensures Agree(old(files), files, arenaSize, head.aid, Place(aid, off))
      ensures Arena(files, arenaSize, aid)[off..off + n] == s[..n]
    {
      n := if |s| < arenaSize - off then |s| else arenaSize - off;
      PatchAgrees(files, arenaSize, head.aid, aid, off, s[..n]);
      files := files[aid := Patched(files[aid], off, s[..n])];
    }

    /** Brings an arena into memory and writes to it. */
    method WriteAt(aid: nat, off: nat, s: seq<Byte>) returns (n: nat)
      requires Managed() && head.aid <= aid <= baseAid + |loaded| && off < arenaSize
      modifies `loaded, `inMem, `files
      ensures Managed() && n == (if |s| < arenaSize - off then |s| else arenaSize - off)
      ensures aid < baseAid + |loaded| && |old(loaded)| <= |loaded|
      ensures Agree(old(files), files, arenaSize, head.aid, Place(aid, off))
      ensures Arena(files, arenaSize, aid)[off..off + n] == s[..n]
    {
      ghost var before := files;
      GetArena(aid);
      ghost var got := files;
      n := Write(aid, off, s);
      SameAgree(before, got, files, arenaSize, head.aid, Place(aid, off), Place(aid, off));
    }

    /** Writes the length field at the tail. */
    method WriteLength(length: nat) returns (p: Place)
      requires Managed() && Sits(tail, arenaSize) && head.aid <= tail.aid && Reached(tail)
      modifies `loaded, `inMem, `files
      ensures Managed() && p == BodyAt(arenaSize, tail) && p.aid <= baseAid + |loaded|
      ensures Agree(old(files), files, arenaSize, head.aid, tail)
      ensures Field(files, arenaSize, tail) == Put(length, WORD)
    {
      var aid, off := tail.aid, tail.off;
      if off + WORD > arenaSize {
        aid, off := aid + 1, 0;
      }
      ghost var f := Place(aid, off);
      ghost var before := files;
      var n := WriteAt(aid, off, Put(length, WORD));
      AgreeLess(before, files, arenaSize, head.aid, f, tail);
      assert Put(length, WORD)[..n] == Put(length, WORD);
      off := off + WORD;
      if off == arenaSize {
        aid, off := aid + 1, 0;
      }
      p := Place(aid, off);
    }

    /** Writes bytes from a place on, arena by arena. */
    method WriteBytes(p: Place, s: seq<Byte>) returns (q: Place)
      requires Managed() && Sits(p, arenaSize) && head.aid <= p.aid <= baseAid + |loaded|
      modifies `loaded, `inMem, `files
      ensures Managed() && q == Advance(arenaSize, p, |s|)
      ensures Reached(q)
      ensures Agree(old(files), files, arenaSize, head.aid, p) && Stream(files, arenaSize, p, |s|) == s
    {
      var counter := 0;
      q := p;
      while true
        invariant Managed() && counter <= |s| && q == Advance(arenaSize, p, counter)
        invariant q.aid <= baseAid + |loaded| && Stream(files, arenaSize, p, counter) == s[..counter]
        invariant Agree(old(files), files, arenaSize, head.aid, p)
        decreases |s| - counter
      {
        ghost var before := files;
        var n := WriteAt(q.aid, q.off, s[counter..]);
        Grown(old(files), before, files, arenaSize, head.aid, p, s, counter, n, q);
        counter := counter + n;
        q := if q.off + n == arenaSize then Place(q.aid + 1, 0) else Place(q.aid, q.off + n);
        if counter == |s| {
          break;
        }
      }
      assert s[..|s|] == s;
    }

    /** Writes a message at the tail. */
    method WriteMessage(m: seq<Byte>) returns (t: Place)
      requires Managed() && Sits(tail, arenaSize) && head.aid <= tail.aid && Reached(tail)
      modifies `loaded, `inMem, `files
      ensures Managed() && t == After(arenaSize, tail, |m|) && Reached(t)
      ensures Agree(old(files), files, arenaSize, head.aid, tail) && Lies(files, arenaSize, tail, m)
    {
      ghost var one := files;
      var p := WriteLength(|m|);
      ghost var two := files;
      t := WriteBytes(p, m);
      AgreeTwice(one, two, files, arenaSize, head.aid, tail, p);
      FieldKept(two, files, arenaSize, head.aid, p, tail);
    }

    /** Adds a message at the tail. */
    method Enqueue(m: seq<Byte>)
      requires Valid() && |m| < U64
      modifies `tail, `loaded, `inMem, `files, `msgs
      ensures Valid() && msgs == old(msgs) + [m]
    {
      LaidOrder(files, arenaSize, head, msgs, tail);
      ghost var before := files;
      var t := WriteMessage(m);
      Enqueued(before, files, arenaSize, head, msgs, tail, m);
      PutTail(t, msgs + [m]);
    }

    method PutTail(t: Place, ghost all: seq<seq<Byte>>)
      requires Managed() && Sits(head, arenaSize) && Stored(files, arenaSize, head, all, t) && Reached(t)
      modifies `tail, `msgs
      ensures Valid() && msgs == all
    {
      tail, msgs := t, all;
    }

    method PutHead(h: Place, ghost rest: seq<seq<Byte>>)
      requires Managed() && head.aid <= h.aid && Sits(h, arenaSize) && Stored(files, arenaSize, h, rest, tail)
      requires NotAfter(h, tail) && Reached(tail)
      modifies `head, `msgs
      ensures Valid() && msgs == rest
    {
      head, msgs := h, rest;
    }

    // ----- reading -----

    method IsEmpty() returns (b: bool)
      requires Valid()
      ensures b <==> msgs == []
    {
      LaidOrder(files, arenaSize, head, msgs, tail);
      b := head == tail;
    }

    /** Brings an arena into memory and reads from it, up to its end. */
    method ReadAt(aid: nat, off: nat, want: nat) returns (s: seq<Byte>)
      requires Managed() && head.aid <= aid <= baseAid + |loaded| && off < arenaSize
      modifies `loaded, `inMem, `files
      ensures Managed() && |old(loaded)| <= |loaded| && aid < baseAid + |loaded|
      ensures Same(old(files), files, arenaSize, head.aid)
      ensures |s| == (if want < arenaSize - off then want else arenaSize - off)
      ensures s == Arena(old(files), arenaSize, aid)[off..off + |s|]
    {
      GetArena(aid);
      var n := if want < arenaSize - off then want else arenaSize - off;
      s := files[aid][off..off + n];
    }

    /** Reads the length field at the head. */
    method ReadLength() returns (p: Place, length: nat)
      requires Managed() && Sits(head, arenaSize) && FieldAt(arenaSize, head).aid <= baseAid + |loaded|
      modifies `loaded, `inMem, `files
      ensures Managed() && p == BodyAt(arenaSize, head) && length == Get(Field(old(files), arenaSize, head))
      ensures Same(old(files), files, arenaSize, head.aid) && |old(loaded)| <= |loaded|
    {
      var aid, off := head.aid, head.off;
      if off + WORD > arenaSize {
        aid, off := aid + 1, 0;
      }
      var s := ReadAt(aid, off, WORD);
      length := Get(s);
      off := off + WORD;
      if off == arenaSize {
        aid, off := aid + 1, 0;
      }
      p := Place(aid, off);
    }

    /** Reads bytes from a place on, arena by arena. */
    method ReadBytes(p: Place, length: nat) returns (s: seq<Byte>)
      requires Managed() && Sits(p, arenaSize) && head.aid <= p.aid
      requires Advance(arenaSize, p, length).aid <= baseAid + |loaded|
      modifies `loaded, `inMem, `files
      ensures Managed() && s == Stream(old(files), arenaSize, p, length)
      ensures Same(old(files), files, arenaSize, head.aid) && |old(loaded)| <= |loaded|
    {
      s := [];
      var q := p;
      while true
        invariant Managed() && |old(loaded)| <= |loaded| && Same(old(files), files, arenaSize, head.aid)
        invariant |s| <= length && q == Advance(arenaSize, p, |s|) && s == Stream(old(files), arenaSize, p, |s|)
        decreases length - |s|
      {
        Within(arenaSize, p, |s|, length);
        var chunk := ReadAt(q.aid, q.off, length - |s|);
        Taken(old(files), arenaSize, p, s, q, chunk);
        s := s + chunk;
        q := if q.off + |chunk| == arenaSize then Place(q.aid + 1, 0) else Place(q.aid, q.off + |chunk|);
        if |s| == length {
          break;
        }
      }
    }

    /** Reads the message at the head, of which it is known that it is `m`. */
    method ReadMessage(ghost m: seq<Byte>) returns (s: seq<Byte>)
      requires Managed() && Sits(head, arenaSize) && Lies(files, arenaSize, head, m) && |m| < U64
      requires After(arenaSize, head, |m|).aid <= baseAid + |loaded|
      modifies `loaded, `inMem, `files
      ensures Managed() && s == m && Same(old(files), files, arenaSize, head.aid) && |old(loaded)| <= |loaded|
    {
      ghost var before := files;
      FieldIs(m);
      var p, length := ReadLength();
      SameStream(before, files, arenaSize, head.aid, p, length);
      s := ReadBytes(p, length);
    }

    /** The message at the head. */
    method Peek() returns (found: bool, m: seq<Byte>)
      requires Valid()
      modifies `loaded, `inMem, `files
      ensures Valid() && found == (msgs != []) && (found ==> m == msgs[0])
    {
      var empty := IsEmpty();
      if empty {
        return false, [];
      }
      ghost var before := files;
      First(files, arenaSize, head, msgs, tail);
      m := ReadMessage(msgs[0]);
      StillLaid(before, files, arenaSize, head, msgs, tail);
      found := true;
    }

    /** Takes the message off the head. */
    method Dequeue() returns (found: bool)
      requires Valid()
      modifies `head, `loaded, `inMem, `files, `msgs
      ensures Valid() && found == (old(msgs) != []) && msgs == if found then old(msgs)[1..] else old(msgs)
    {
      var empty := IsEmpty();
      if empty {
        return false;
      }
      ghost var before := files;
      First(files, arenaSize, head, msgs, tail);
      var next := SkipMessage(msgs[0]);
      StillLaid(before, files, arenaSize, head, msgs, tail);
      First(files, arenaSize, head, msgs, tail);
      PutHead(next, msgs[1..]);
      found := true;
    }

    /** Finds the place behind the message at the head. */
    method SkipMessage(ghost m: seq<Byte>) returns (next: Place)
      requires Managed() && Sits(head, arenaSize) && Lies(files, arenaSize, head, m) && |m| < U64
      requires After(arenaSize, head, |m|).aid <= baseAid + |loaded|
      modifies `loaded, `inMem, `files
      ensures Managed() && next == After(arenaSize, head, |m|)
      ensures Same(old(files), files, arenaSize, head.aid) && |old(loaded)| <= |loaded|
    {
      FieldIs(m);
      var p, length := ReadLength();
      AdvanceDiv(arenaSize, p, length);
      next := Place(p.aid + (p.off + length) / arenaSize, (p.off + length) % arenaSize);
    }

    lemma FieldIs(m: seq<Byte>)
      requires WORD <= arenaSize && Sits(head, arenaSize) && Lies(files, arenaSize, head, m) && |m| < U64
      ensures Get(Field(files, arenaSize, head)) == |m|
      ensures FieldAt(arenaSize, head).aid <= BodyAt(arenaSize, head).aid <= After(arenaSize, head, |m|).aid
    {
      Widths();
      GetPutFits(|m|, WORD);
    }
  }

  /** One round of writing: `n` more of the bytes of `s` are in the stream at `p`. */
  lemma Grown(first: Files, before: Files, files: Files, size: nat, lo: nat, p: Place, s: seq<Byte>, c: nat, n: nat,
              q: Place)
    requires Sits(p, size) && lo <= p.aid && c + n <= |s| && q == Advance(size, p, c) && q.off + n <= size
    requires Agree(first, before, size, lo, p) && Agree(before, files, size, lo, q)
    requires Stream(before, size, p, c) == s[..c] && Arena(files, size, q.aid)[q.off..q.off + n] == s[c..][..n]
    ensures Agree(first, files, size, lo, p) && Stream(files, size, p, c + n) == s[..c + n]
    ensures Advance(size, p, c + n) == if q.off + n == size then Place(q.aid + 1, 0) else Place(q.aid, q.off + n)
  {
    AgreeTwice(first, before, files, size, lo, p, q);
    StreamGrows(before, files, size, lo, p, c, q.aid, q.off, s[c..][..n]);
    assert s[..c] + s[c..][..n] == s[..c + n];
  }

  /** Loading and then writing behind `q` leaves what is before `q` alone. */
  lemma SameAgree(one: Files, two: Files, three: Files, size: nat, lo: nat, q: Place, q': Place)
    requires Same(one, two, size, lo) && Sits(q, size) && Sits(q', size)
    requires Agree(two, three, size, lo, q') && NotAfter(q, q')
    ensures Agree(one, three, size, lo, q)
  {
    AgreeTwice(one, two, three, size, lo, q, q');
  }

  lemma Enqueued(files: Files, files': Files, size: nat, p: Place, msgs: seq<seq<Byte>>, q: Place, m: seq<Byte>)
    requires WORD <= size && Sits(p, size) && Sits(q, size) && Stored(files, size, p, msgs, q)
    requires Agree(files, files', size, p.aid, q) && Lies(files', size, q, m) && |m| < U64
    ensures Stored(files', size, p, msgs + [m], After(size, q, |m|))
  {
    LaidKept(files, files', size, p.aid, p, msgs, q);
    LaidMore(files', size, p, msgs, q, m);
  }

  lemma StillLaid(files: Files, files': Files, size: nat, p: Place, msgs: seq<seq<Byte>>, q: Place)
    requires WORD <= size && Sits(p, size) && Stored(files, size, p, msgs, q) && Same(files, files', size, p.aid)
    ensures Stored(files', size, p, msgs, q)
  {
    LaidOrder(files, size, p, msgs, q);
    LaidKept(files, files', size, p.aid, p, msgs, q);
  }

  /** The first message, and the others behind it. */
  lemma First(files: Files, size: nat, p: Place, msgs: seq<seq<Byte>>, q: Place)
    requires WORD <= size && Sits(p, size) && Stored(files, size, p, msgs, q) && msgs != []
    ensures var next := After(size, p, |msgs[0]|);
            NotAfter(next, q) && Lies(files, size, p, msgs[0]) && Stored(files, size, next, msgs[1..], q) &&
              |msgs[0]| < U64
  {
    LaidOrder(files, size, After(size, p, |msgs[0]|), msgs[1..], q);
  }

  lemma Within(size: nat, p: Place, n: nat, length: nat)
    requires Sits(p, size) && n <= length
    ensures NotAfter(Advance(size, p, n), Advance(size, p, length)) && p.aid <= Advance(size, p, n).aid
  {
    AdvanceTwice(size, p, n, length - n);
  }

  lemma Taken(files: Files, size: nat, p: Place, s: seq<Byte>, q: Place, chunk: seq<Byte>)
    requires Sits(p, size) && q == Advance(size, p, |s|) && s == Stream(files, size, p, |s|) && q.off + |chunk| <= size
    requires chunk == Arena(files, size, q.aid)[q.off..q.off + |chunk|]
    ensures s + chunk == Stream(files, size, p, |s + chunk|)
    ensures Advance(size, p, |s + chunk|)
         == if q.off + |chunk| == size then Place(q.aid + 1, 0) else Place(q.aid, q.off + |chunk|)
  {
    StreamGrows(files, files, size, p.aid, p, |s|, q.aid, q.off, chunk);
  }

  lemma SameStream(files: Files, files': Files, size: nat, lo: nat, p: Place, n: nat)
    requires Sits(p, size) && lo <= p.aid && Same(files, files', size, lo)
    ensures Stream(files', size, p, n) == Stream(files, size, p, n)
  {
    StreamKept(files, files', size, lo, Advance(size, p, n), p, n);
  }

  lemma SameTwice(one: Files, two: Files, three: Files, size: nat, lo: nat)
    requires Same(one, two, size, lo) && Same(two, three, size, lo)
    ensures Same(one, three, size, lo)
  {
  }

  // ----- whole runs -----

  datatype Op = Add(m: seq<Byte>) | Look | Take | AskEmpty | Reopen(maxInMem: nat)

  datatype Answer = Done | Empty | Message(m: seq<Byte>)

  /** A first-in first-out queue of messages. */
  ghost function Fifo(msgs: seq<seq<Byte>>, op: Op): (seq<seq<Byte>>, Answer) {
    match op
    case Add(m) => (msgs + [m], Done)
    case Look => (msgs, if msgs == [] then Empty else Message(msgs[0]))
    case Take => if msgs == [] then (msgs, Empty) else (msgs[1..], Done)
    case AskEmpty => (msgs, if msgs == [] then Empty else Done)
    case Reopen(_) => (msgs, Done)
  }

  ghost function FifoRun(ops: seq<Op>): (seq<seq<Byte>>, seq<Answer>) {
    if ops == [] then ([], [])
    else
      var before := FifoRun(ops[..|ops| - 1]);
      var step := Fifo(before.0, ops[|ops| - 1]);
      (step.0, before.1 + [step.1])
  }

  method Perform(q: Queue, op: Op) returns (q': Queue, a: Answer)
    requires q.Valid() && (op.Add? ==> |op.m| < U64) && (op.Reopen? ==> op.maxInMem == 0 || op.maxInMem >= 3)
    modifies q
    ensures q'.Valid() && (q'.msgs, a) == Fifo(old(q.msgs), op) && (q' == q || fresh(q'))
  {
    q', a := q, Done;
    match op
    case Add(m) =>
      q.Enqueue(m);
    case Look =>
      var found, m := q.Peek();
      a := if found then Message(m) else Empty;
    case Take =>
      var found := q.Dequeue();
      a := if found then Done else Empty;
    case AskEmpty =>
      var empty := q.IsEmpty();
      a := if empty then Empty else Done;
    case Reopen(max) =>
      LaidOrder(q.files, q.arenaSize, q.head, q.msgs, q.tail);
      q' := new Queue(q.arenaSize, max, q.files, q.head, q.tail, q.msgs);
  }

  /** Any run over arenas, from an empty directory, answers as the first-in first-out queue does. */
  method Serve(arenaSize: nat, maxInMem: nat, ops: seq<Op>) returns (answers: seq<Answer>)
    requires WORD <= arenaSize && (maxInMem == 0 || maxInMem >= 3)
    requires forall i :: 0 <= i < |ops| && ops[i].Add? ==> |ops[i].m| < U64
    requires forall i :: 0 <= i < |ops| && ops[i].Reopen? ==> ops[i].maxInMem == 0 || ops[i].maxInMem >= 3
    ensures answers == FifoRun(ops).1
  {
    var q := new Queue(arenaSize, maxInMem, map[], Place(0, 0), Place(0, 0), []);
    answers := [];
    for k := 0 to |ops|
      invariant q.Valid() && fresh(q) && (q.msgs, answers) == FifoRun(ops[..k])
    {
      assert ops[..k + 1][..k] == ops[..k];
      var a;
      q, a := Perform(q, ops[k]);
      answers := answers + [a];
    }
    assert ops[..|ops|] == ops;
  }
}
