/** The ring log itself: inserting, reading by cursor, reloading. */
module RingBuffer {
  import opened RingFormat
  import opened RingLog

  datatype Error = NoError | FrameTooBig | DataTooBig | PartialData | NotArrived

  datatype Cursor = Cursor(offset: nat, seqNo: nat)

  // ----- what a reader makes of the bytes at an offset -----

  ghost function Chunk(bytes: seq<Byte>, cap: nat, biggest: nat, off: nat, n: nat): seq<Byte>
    requires cap <= |bytes|
  {
    if n > biggest || cap == 0 then [] else Ring(bytes, cap, off, n)
  }

  ghost function SizeAt(bytes: seq<Byte>, cap: nat, biggest: nat, off: nat): nat
    requires cap <= |bytes|
  {
    SizeOf(Chunk(bytes, cap, biggest, off, SIZE))
  }

  ghost function FrameOf(bytes: seq<Byte>, cap: nat, biggest: nat, off: nat): seq<Byte>
    requires cap <= |bytes|
  {
    Chunk(bytes, cap, biggest, off, SizeAt(bytes, cap, biggest, off))
  }

  /** At the start of a live frame a reader finds that frame. */
  lemma LiveFrame(bytes: seq<Byte>, cap: nat, biggest: nat, first: nat, rs: seq<Record>, i: nat)
    requires Laid(bytes, cap, first, rs) && i < |rs|
    requires |rs[i].data| < MAX_BYTES && |Frame(rs[i])| <= biggest
    ensures SizeAt(bytes, cap, biggest, Offset(first, rs, i)) == |Frame(rs[i])|
    ensures FrameOf(bytes, cap, biggest, Offset(first, rs, i)) == Frame(rs[i])
  {
    FrameAt(bytes, cap, first, rs, i, SIZE);
    FrameAt(bytes, cap, first, rs, i, |Frame(rs[i])|);
    FrameSize(rs[i]);
    Header(bytes, cap, biggest, Offset(first, rs, i), Frame(rs[i]));
  }

  lemma Header(bytes: seq<Byte>, cap: nat, biggest: nat, off: nat, f: seq<Byte>)
    requires Holds(bytes, cap, off, f[..|f|]) && SIZE <= |f| <= biggest
    requires Holds(bytes, cap, off, f[..SIZE]) && SizeOf(f) == |f|
    ensures SizeAt(bytes, cap, biggest, off) == |f| && FrameOf(bytes, cap, biggest, off) == f
  {
    assert f[..|f|] == f && f[..SIZE][..SIZE] == f[..SIZE];
  }

  // ----- the records kept -----

  /** A stored record: numbered, not empty, and no bigger than the biggest seen. */
  ghost predicate Stored(r: Record, seqNo: int, biggest: nat) {
    r.seqNo == seqNo && 0 < |r.data| < MAX_BYTES && |Frame(r)| <= biggest
  }

  /** The live records carry consecutive numbers up to the next one to be given. */
  ghost predicate Numbered(rs: seq<Record>, nextSeq: nat, biggest: nat) {
    |rs| <= nextSeq && forall i :: 0 <= i < |rs| ==> Stored(rs[i], nextSeq - |rs| + i, biggest)
  }

  lemma NumberedDrop(rs: seq<Record>, nextSeq: nat, biggest: nat)
    requires Numbered(rs, nextSeq, biggest) && rs != []
    ensures Numbered(rs[1..], nextSeq, biggest)
  {
    forall i | 0 <= i < |rs[1..]| ensures Stored(rs[1..][i], nextSeq - |rs[1..]| + i, biggest) {
      assert rs[1..][i] == rs[i + 1];
    }
  }

  lemma NumberedAdd(rs: seq<Record>, nextSeq: nat, biggest: nat, biggest': nat, d: seq<Byte>)
    requires Numbered(rs, nextSeq, biggest) && biggest <= biggest'
    requires 0 < |d| < MAX_BYTES && |d| + TOTAL <= biggest'
    ensures Numbered(rs + [Record(nextSeq, d)], nextSeq + 1, biggest')
  {
    var all := rs + [Record(nextSeq, d)];
    forall i | 0 <= i < |all| ensures Stored(all[i], nextSeq + 1 - |all| + i, biggest') {
      if i < |rs| {
        assert all[i] == rs[i];
      }
    }
  }

  /** The place behind the last record. */
  lemma EndOffset(first: nat, rs: seq<Record>)
    requires rs != []
    ensures Offset(first, rs, |rs| - 1) + |Frame(rs[|rs| - 1])| == Offset(first, rs, |rs|) == first + |Frames(rs)|
  {
    FramesPrefix(rs, |rs| - 1);
    assert rs[..|rs|] == rs;
  }

  lemma OffsetNext(first: nat, rs: seq<Record>, i: nat)
    requires i < |rs|
    ensures Offset(first, rs, i + 1) == Offset(first, rs, i) + |Frame(rs[i])|
  {
    FramesPrefix(rs, i);
  }

  lemma {:induction false} OffsetUp(first: nat, rs: seq<Record>, i: nat)
    requires i + 1 < |rs|
    ensures Offset(first, rs, i) < Offset(first, rs, |rs| - 1) && |Frame(rs[i])| < |Frames(rs)|
    decreases |rs| - i
  {
    OffsetNext(first, rs, i);
    EndOffset(first, rs);
    if i + 2 < |rs| {
      OffsetUp(first, rs, i + 1);
    }
  }

  lemma RestFrom(first: nat, rs: seq<Record>, i: nat)
    requires i <= |rs|
    ensures first + |Frames(rs)| == Offset(first, rs, i) + |Frames(rs[i..])| && Offset(first, rs, i) >= first
  {
    assert rs == rs[..i] + rs[i..];
    FramesJoin(rs[..i], rs[i..]);
  }

  function Greater(a: nat, b: nat): nat { if b > a then b else a }

  function Head(s: seq<Byte>, room: nat): seq<Byte> {
    if |s| <= room then s else s[..room]
  }

  // ----- eviction -----

  /** Records are in the way when some are left and the newcomer does not fit behind them. */
  lemma MustGo(first: nat, rs: seq<Record>, size: nat, cap: nat)
    requires 0 < size < cap && |Frames(rs)| <= cap && rs != []
    ensures var start := Turn(first + |Frames(rs)|, cap);
            Overlaps(Turn(first, cap), start, Turn(start + size, cap)) <==> |Frames(rs)| + size > cap
  {
    OverlapMeans(first, first + |Frames(rs)|, size, cap);
  }

  lemma FullTurn(start: nat, size: nat, cap: nat)
    requires start < cap && size <= cap
    ensures Turn(start + size, cap) == start <==> size == 0 || size == cap
  {
    TurnStep(start, size, cap);
  }

  lemma {:induction false} NoneStays(rs: seq<Record>, cap: nat)
    ensures Evicted(rs, cap, cap) == []
  {
    if rs != [] {
      NoneStays(rs[1..], cap);
    }
  }

  /** Where `now`, what is left of `rs`, starts. */
  ghost function Past(first: nat, rs: seq<Record>, now: seq<Record>): nat
    requires |now| <= |rs|
  {
    Offset(first, rs, |rs| - |now|)
  }

  lemma PastAll(first: nat, rs: seq<Record>)
    ensures Past(first, rs, []) == first + |Frames(rs)| && Past(first, rs, rs) == first
  {
    assert rs[..|rs|] == rs && rs[..0] == [];
  }

  /** `now` is what is left of `rs` on the way to what will be left. */
  ghost predicate Shed(rs: seq<Record>, from: nat, now: seq<Record>, first: nat, size: nat, cap: nat) {
    && |now| <= |rs| && first == Past(from, rs, now) && now == rs[|rs| - |now|..]
    && Evicted(now, size, cap) == Evicted(rs, size, cap)
  }

  lemma ShedStart(rs: seq<Record>, from: nat, size: nat, cap: nat)
    ensures Shed(rs, from, rs, from, size, cap)
  {
    assert rs[..0] == [] && rs[0..] == rs;
  }

  lemma ShedOne(rs: seq<Record>, from: nat, now: seq<Record>, first: nat, size: nat, cap: nat,
                now': seq<Record>, first': nat)
    requires Shed(rs, from, now, first, size, cap) && now != [] && |Frames(now)| + size > cap
    requires now' == now[1..] && first' == first + |Frame(now[0])|
    ensures Shed(rs, from, now', first', size, cap)
  {
    var k := |rs| - |now|;
    assert now[0] == rs[k] && now[1..] == rs[k + 1..];
    OffsetNext(from, rs, k);
  }

  lemma EvictedDone(rs: seq<Record>, size: nat, cap: nat)
    requires rs == [] || |Frames(rs)| + size <= cap
    ensures Evicted(rs, size, cap) == rs
  {
  }

  lemma Counted(first: nat, rs: seq<Record>, r: Record)
    ensures DataSize(rs + [r]) == DataSize(rs) + |r.data|
    ensures Offset(first, rs + [r], |rs|) == first + |Frames(rs)|
  {
    DataSizeJoin(rs, [r]);
    assert (rs + [r])[..|rs|] == rs && DataSize([r]) == |r.data| + DataSize([r][1..]);
  }

  /** The records once `d` has been added. */
  ghost function With(rs: seq<Record>, seqNo: nat, d: seq<Byte>, cap: nat): seq<Record> {
    Evicted(rs, |d| + TOTAL, cap) + [Record(seqNo, d)]
  }

  /** What inserting `n` bytes reports: too much for a frame, too much for the ring, or nothing. */
  function Verdict(n: nat, cap: nat): Error {
    if n > MAX_BYTES then FrameTooBig
    else if 0 < n < MAX_BYTES && n + TOTAL > cap then DataTooBig
    else NoError
  }

  lemma MetaSlices(s: seq<Byte>, c: nat)
    requires c + 36 <= |s|
    ensures var m := s[c..c + 36];
            && m[..8] == s[c..c + 8] && m[8..16] == s[c + 8..c + 16] && m[16..24] == s[c + 16..c + 24]
            && m[24..28] == s[c + 24..c + 28] && m[28..36] == s[c + 28..c + 36]
  {
    SubSlice(s, c, 36, 0, 8);
    SubSlice(s, c, 36, 8, 16);
    SubSlice(s, c, 36, 16, 24);
    SubSlice(s, c, 36, 24, 28);
    SubSlice(s, c, 36, 28, 36);
  }

  lemma SubSlice(s: seq<Byte>, c: nat, n: nat, a: nat, b: nat)
    requires a <= b <= n && c + n <= |s|
    ensures s[c..c + n][a..b] == s[c + a..c + b]
  {
    var l, r := s[c..c + n][a..b], s[c + a..c + b];
    forall k | 0 <= k < b - a ensures l[k] == r[k] {
      assert l[k] == s[c..c + n][a + k] == s[c + a + k];
    }
  }

  method CopyIn(a: array<Byte>, at: nat, s: seq<Byte>)
    requires at + |s| <= a.Length
    modifies a
    ensures a[..] == old(a[..at]) + s + old(a[at + |s|..])
  {
    forall i | 0 <= i < |s| {
      a[at + i] := s[i];
    }
  }

  class Buffer {
    const capacity: nat
    const data: array<Byte>
    var nextSeq: nat
    var biggest: nat
    var length: nat
    var first: nat
    var last: nat
    ghost var recs: seq<Record>

    ghost predicate Valid()
      reads this, data
    {
      && Sized() && Kept() && nextSeq < U64 && last < U64
      && (recs == [] ==> nextSeq == biggest == first == last == 0)
      && (recs != [] ==> last == Offset(first, recs, |recs| - 1))
      && data[capacity..capacity + 36] == Meta(first, last, nextSeq, biggest, length)
    }

    ghost predicate Sized()
      reads this
    {
      data.Length == capacity + META && capacity < U64 && biggest <= capacity && biggest < U32
    }

    /** The ring holds the records, and the counters agree with them. */
    ghost predicate Kept()
      requires Sized()
      reads this, data
    {
      && Laid(data[..], capacity, first, recs) && Numbered(recs, nextSeq, biggest)
      && length == DataSize(recs)
    }

    constructor (capacity: nat)
      requires capacity < U64
      ensures Valid() && recs == [] && this.capacity == capacity && fresh(data)
      ensures data[..capacity] == seq(capacity, _ => 0)
    {
      this.capacity := capacity;
      nextSeq, biggest, length, first, last, recs := 0, 0, 0, 0, 0, [];
      data := new Byte[capacity + META](_ => 0);
      new;
      assert data[..capacity] == seq(capacity, _ => 0);
      UpdateMeta();
    }

    /** Stores the bookkeeping behind the ring. */
    method UpdateMeta()
      requires Sized()
      modifies data
      ensures data[capacity..capacity + 36] == Meta(first, last, nextSeq, biggest, length)
      ensures data[..capacity] == old(data[..capacity])
    {
      var m := Meta(first, last, nextSeq, biggest, length);
      CopyIn(data, capacity, m);
      assert data[capacity..capacity + 36] == m;
    }

    method Wrapped(offset: nat) returns (w: nat)
      requires 0 < capacity
      ensures w == Turn(offset, capacity) && w < capacity
    {
      w := offset % capacity;
      TurnMod(offset, capacity);
    }

    /** `n` bytes at an offset; nothing if that is more than any frame has had. */
    method FrameOfLen(offset: nat, n: nat) returns (f: seq<Byte>)
      requires Sized() && (capacity == 0 ==> n > 0)
      ensures f == Chunk(data[..], capacity, biggest, offset, n)
    {
      if n > biggest {
        return [];
      }
      var start := Wrapped(offset);
      f := Slices(data[..], capacity, start, n);
      SlicesRing(data[..], capacity, offset, n);
    }

    method FrameSizeAt(offset: nat) returns (n: nat)
      requires Sized()
      ensures n == SizeAt(data[..], capacity, biggest, offset)
    {
      var f := FrameOfLen(offset, SIZE);
      n := SizeOf(f);
    }

    method NextFrameOffset(offset: nat) returns (next: nat)
      requires Sized()
      ensures next == offset + SizeAt(data[..], capacity, biggest, offset)
    {
      var n := FrameSizeAt(offset);
      next := offset + n;
    }

    /** Drops the oldest record. */
    method DropFirst()
      requires Sized() && Kept() && recs != []
      modifies `first, `length, `recs
      ensures Kept() && recs == old(recs)[1..] && first == old(first) + |Frame(old(recs)[0])|
      ensures first + |Frames(recs)| == old(first) + |Frames(old(recs))|
    {
      ghost var rs, bytes := recs, data[..];
      assert rs[..0] == [] && Stored(rs[0], nextSeq - |rs|, biggest);
      LiveFrame(bytes, capacity, biggest, first, rs, 0);
      LaidDrop(bytes, capacity, first, rs);
      NumberedDrop(rs, nextSeq, biggest);
      var second := NextFrameOffset(first);
      length, first, recs := length - (second - first - TOTAL), second, recs[1..];
    }

    /** The oldest record is in the way of a frame from `start` to `end`. */
    method Blocked(size: nat, start: nat, end: nat) returns (b: bool)
      requires Sized() && Kept() && last == first + |Frames(recs)| && 0 < size < capacity
      requires start == Turn(last, capacity) && end == Turn(start + size, capacity)
      ensures b <==> recs != [] && |Frames(recs)| + size > capacity
    {
      if first == last {
        return false;
      }
      var firstWrapped := Wrapped(first);
      b := Overlaps(firstWrapped, start, end);
      MustGo(first, recs, size, capacity);
    }

    method Evict(size: nat, start: nat, end: nat)
      requires Sized() && Kept() && last == first + |Frames(recs)| && 0 < size < capacity
      requires start == Turn(last, capacity) && end == Turn(start + size, capacity)
      modifies `first, `length, `recs
      ensures Kept() && last == first + |Frames(recs)|
      ensures Shed(old(recs), old(first), recs, first, size, capacity)
      ensures recs == [] || |Frames(recs)| + size <= capacity
    {
      ghost var rs := recs;
      ShedStart(rs, first, size, capacity);
      var blocked := Blocked(size, start, end);
      while blocked
        invariant Shedding(rs, old(first), size)
        invariant blocked <==> recs != [] && |Frames(recs)| + size > capacity
        decreases |recs|
      {
        DropNext(rs, old(first), size);
        blocked := Blocked(size, start, end);
      }
    }

    /** Some of `rs`, which started at `from`, have made way. */
    ghost predicate Shedding(rs: seq<Record>, from: nat, size: nat)
      requires Sized()
      reads this, data
    {
      Kept() && last == first + |Frames(recs)| && Shed(rs, from, recs, first, size, capacity)
    }

    method DropNext(ghost rs: seq<Record>, ghost from: nat, ghost size: nat)
      requires Sized() && Shedding(rs, from, size) && recs != [] && |Frames(recs)| + size > capacity
      modifies `first, `length, `recs
      ensures Shedding(rs, from, size) && |recs| < |old(recs)|
    {
      ghost var now, at := recs, first;
      DropFirst();
      ShedOne(rs, from, now, at, size, capacity, recs, first);
    }

    /** Forgets every record. */
    method Empty()
      requires Sized() && Kept() && last == first + |Frames(recs)|
      modifies `first, `length, `recs
      ensures Kept() && recs == [] && first == last == Past(old(first), old(recs), recs)
    {
      PastAll(first, recs);
      length, first, recs := 0, last, [];
    }

    /** Makes room, at the end, for a frame of `size` bytes: the oldest records go, and no more of them
        than must.  A size of zero, which only a record at the limit can claim, empties the log. */
    method UpdateFirst(size: nat)
      requires Sized() && Kept() && size <= capacity && last == first + |Frames(recs)|
      requires biggest == 0 <==> recs == []
      modifies `first, `length, `recs
      ensures Kept() && last == first + |Frames(recs)|
      ensures size == 0 ==> recs == []
      ensures 0 < size ==> recs == Evicted(old(recs), size, capacity)
      ensures |recs| <= |old(recs)| && first == Past(old(first), old(recs), recs)
    {
      ghost var rs := recs;
      if biggest == 0 {
        PastAll(first, rs);
        return;
      }
      var start := Wrapped(last);
      var end := Wrapped(start + size);
      FullTurn(start, size, capacity);
      if start == end {
        Empty();
        NoneStays(rs, capacity);
        return;
      }
      Evict(size, start, end);
      EvictedDone(recs, size, capacity);
    }

    /** Copies `f` round the ring, at `last`. */
    method CopyFrame(f: seq<Byte>)
      requires Sized() && |f| <= capacity && 0 < capacity
      modifies data
      ensures data[..] == Overwritten(old(data[..]), capacity, Turn(last, capacity), f)
    {
      var start := Wrapped(last);
      var end := start + |f|;
      var wrap := end > capacity;
      if wrap {
        end := capacity;
      }
      var copyoff := end - start;
      ghost var bytes := data[..];
      CopyIn(data, start, f[..copyoff]);
      ghost var once := data[..];
      TwoCopies(bytes, capacity, start, f, copyoff, once, once[..0] + f[copyoff..] + once[|f[copyoff..]|..]);
      if wrap {
        CopyIn(data, 0, f[copyoff..]);
      }
    }

    method WriteFrame(f: seq<Byte>)
      requires Sized() && 0 < |f| <= capacity
      modifies data
      ensures Written(old(data[..]), data[..], capacity, last, f)
      ensures data[..capacity] == Overwritten(old(data[..capacity]), capacity, Turn(last, capacity), f)
    {
      OverwrittenWithin(data[..], capacity, Turn(last, capacity), f);
      assert data[..][..capacity] == data[..capacity];
      OverwrittenWritten(data[..], capacity, last, f);
      CopyFrame(f);
      assert data[..][..capacity] == data[..capacity];
    }

    /** Writes the frame of `r` behind the others. */
    method WriteRecord(f: seq<Byte>, ghost r: Record)
      requires Sized() && 0 < capacity && Laid(data[..], capacity, first, recs) && last == first + |Frames(recs)|
      requires f == Frame(r) && |Frames(recs)| + |f| <= capacity
      modifies data
      ensures Laid(data[..], capacity, first, recs + [r])
      ensures data[..capacity] == Overwritten(old(data[..capacity]), capacity, Turn(last, capacity), f)
    {
      ghost var bytes := data[..];
      WriteFrame(f);
      HoldsAppend(bytes, data[..], capacity, first, Frames(recs), f);
      FramesLast(recs, r);
    }

    /** Writes the frame of `d` and steps the counters. */
    method Commit(d: seq<Byte>, f: seq<Byte>)
      requires Sized() && Kept() && 0 < capacity && last == first + |Frames(recs)|
      requires 0 < |d| < MAX_BYTES && f == Frame(Record(nextSeq, d)) && |Frames(recs)| + |f| <= capacity
      requires nextSeq + 1 < U64 && last < U64
      modifies this, data
      ensures Valid() && recs == old(recs) + [Record(old(nextSeq), d)]
      ensures first == old(first) && last == old(last) && nextSeq == old(nextSeq) + 1
      ensures data[..capacity] == Overwritten(old(data[..capacity]), capacity, Turn(last, capacity), f)
      ensures biggest == Greater(old(biggest), |f|)
    {
      ghost var rs, r := recs, Record(nextSeq, d);
      WriteRecord(f, r);
      ghost var written, was := data[..], biggest;
      if |f| > biggest {
        biggest := |f|;
      }
      nextSeq, length, recs := nextSeq + 1, length + |d|, recs + [r];
      UpdateMeta();
      Committed(rs, r, was, written);
    }

    /** What holds when the counters have been stepped. */
    lemma Committed(rs: seq<Record>, r: Record, was: nat, written: seq<Byte>)
      requires Sized() && recs == rs + [r] && nextSeq == r.seqNo + 1 && length == DataSize(rs) + |r.data|
      requires Numbered(rs, r.seqNo, was) && was <= biggest && |Frame(r)| <= biggest && 0 < |r.data| < MAX_BYTES
      requires Laid(written, capacity, first, recs) && data[..capacity] == written[..capacity]
      ensures Kept() && Offset(first, recs, |recs| - 1) == first + |Frames(rs)|
    {
      NumberedAdd(rs, r.seqNo, was, biggest, r.data);
      Counted(first, rs, r);
      assert data[..][..capacity] == data[..capacity];
      LaidWithin(written, data[..], capacity, first, recs);
    }

    /** The frame behind the last one starts where the records end. */
    lemma EndOfLog()
      requires Valid()
      ensures last + SizeAt(data[..], capacity, biggest, last) == first + |Frames(recs)|
      ensures first + |Frames(recs)| <= last + capacity
    {
      if recs != [] {
        var i := |recs| - 1;
        assert Stored(recs[i], nextSeq - |recs| + i, biggest);
        LiveFrame(data[..], capacity, biggest, first, recs, i);
        EndOffset(first, recs);
      }
    }

    method Place(size: nat)
      requires Valid() && size <= capacity && last + capacity < U64
      modifies `first, `last, `length, `recs
      ensures Sized() && Kept() && last == first + |Frames(recs)| && last < U64
      ensures size == 0 ==> recs == []
      ensures 0 < size ==> recs == Evicted(old(recs), size, capacity) && |Frames(recs)| + size <= capacity
      ensures |recs| <= |old(recs)| && first == Past(old(first), old(recs), recs)
      ensures last == old(first) + |Frames(old(recs))|
    {
      EndOfLog();
      EvictedLongest(recs, size, capacity, 0);
      last := NextFrameOffset(last);
      UpdateFirst(size);
    }

    /** A record of `d` has been added: the oldest have made way, and its frame has been written where the
        next record was to be. */
    twostate predicate Stores(d: seq<Byte>)
      reads this, data
    {
      var f := Frame(Record(old(nextSeq), d));
      && nextSeq == old(nextSeq) + 1 && recs == With(old(recs), old(nextSeq), d, capacity) && |recs| <= nextSeq
      && first == Past(old(first), old(recs), Evicted(old(recs), |d| + TOTAL, capacity))
      && last == old(first) + |Frames(old(recs))| && biggest == Greater(old(biggest), |d| + TOTAL)
      && |old(recs)| <= old(nextSeq) && CursorAt(|recs| - 1) == old(CursorAt(|recs|))
      && |f| <= capacity <= data.Length
      && data[..capacity] == Overwritten(old(data[..capacity]), capacity, Turn(last, capacity), f)
    }

    /** Adds a frame that fits, the oldest making way. */
    method Admit(d: seq<Byte>, f: seq<Byte>, size: nat)
      requires Valid() && nextSeq + 1 < U64 && last + capacity < U64
      requires 0 < |d| < MAX_BYTES && f == Frame(Record(nextSeq, d)) && |f| == size <= capacity
      modifies this, data
      ensures Valid() && Stores(d)
    {
      EndAt();
      Place(size);
      Commit(d, f);
    }

    /** Makes way for a record, and does not write it. */
    method Skip(n: nat)
      requires Valid() && nextSeq + 1 < U64 && last + capacity < U64
      modifies this, data
      ensures nextSeq == old(nextSeq) + 1 && recs == [] && first == last && length == n
      ensures data[..capacity] == old(data[..capacity])
    {
      Place(0);
      nextSeq, length := nextSeq + 1, length + n;
      UpdateMeta();
    }

    /** Adds a record, the oldest making way.  A record at the very limit is let through without an
        error, empties the log and is not written. */
    method Insert(d: seq<Byte>) returns (err: Error)
      requires Valid() && nextSeq + 1 < U64 && last + capacity < U64 && (|d| == MAX_BYTES ==> 0 < capacity)
      modifies this, data
      ensures err == Verdict(|d|, capacity)
      ensures d == [] || err != NoError ==> recs == old(recs) && first == old(first) && nextSeq == old(nextSeq)
      ensures d != [] && |d| != MAX_BYTES && err == NoError ==> Stores(d)
      ensures d == [] || err != NoError ==> data[..] == old(data[..]) && biggest == old(biggest)
      ensures |d| == MAX_BYTES ==>
                && nextSeq == old(nextSeq) + 1 && recs == [] && first == last && length == |d|
                && data[..capacity] == old(data[..capacity])
      ensures |d| != MAX_BYTES ==> Valid()
    {
      if |d| == 0 {
        return NoError;
      }
      if |d| > MAX_BYTES {
        return FrameTooBig;
      }
      var f := Frame(Record(nextSeq, d));
      var size := SizeOf(f);
      FrameSize(Record(nextSeq, d));
      if size > capacity {
        return DataTooBig;
      }
      if size == 0 {
        // the size field has wrapped, so that none of the frame is copied
        Skip(|d|);
      } else {
        Admit(d, f, size);
      }
      err := NoError;
    }

    /** Where the next record will be. */
    lemma EndAt()
      requires Valid()
      ensures CursorAt(|recs|) == Cursor(first + |Frames(recs)|, nextSeq)
    {
      assert recs[..|recs|] == recs;
    }

    // ----- reading -----

    /** Where record `i` is; past the last one, where the next will be. */
    ghost function CursorAt(i: nat): Cursor
      requires i <= |recs| <= nextSeq
      reads this
    {
      Cursor(Offset(first, recs, i), nextSeq - |recs| + i)
    }

    /** The outcome of reading record `i` into `room` bytes. */
    ghost predicate Reads(i: nat, room: nat, out: seq<Byte>, next: Cursor, err: Error)
      requires i < |recs| <= nextSeq
      reads this
    {
      && out == Head(recs[i].data, room) && next == CursorAt(i + 1)
      && err == if |recs[i].data| <= room then NoError else PartialData
    }

    method FrameAtOffset(offset: nat) returns (f: seq<Byte>)
      requires Sized() && 0 < capacity
      ensures f == FrameOf(data[..], capacity, biggest, offset)
    {
      var n := FrameSizeAt(offset);
      f := FrameOfLen(offset, n);
    }

    method NextSeq(offset: nat, next: nat) returns (seqNo: nat)
      requires Sized() && 0 < capacity && offset <= next
      ensures seqNo == if next - offset == capacity || offset == last then nextSeq
                       else SeqOf(FrameOf(data[..], capacity, biggest, next))
    {
      if next - offset == capacity {
        return nextSeq;
      }
      if offset == last {
        return nextSeq;
      }
      var nextf := FrameAtOffset(next);
      seqNo := SeqOf(nextf);
    }

    /** The outcome of reading whatever is at an offset. */
    ghost predicate ReadsAt(offset: nat, room: nat, out: seq<Byte>, next: Cursor, err: Error)
      requires Sized()
      reads this, data
    {
      var bytes := data[..];
      var d := DataOf(FrameOf(bytes, capacity, biggest, offset));
      && out == Head(d, room) && err == (if |d| <= room then NoError else PartialData)
      && next.offset == offset + SizeAt(bytes, capacity, biggest, offset)
      && next.seqNo == if next.offset - offset == capacity || offset == last then nextSeq
                       else SeqOf(FrameOf(bytes, capacity, biggest, next.offset))
    }

    method ReadOffset(room: nat, offset: nat) returns (out: seq<Byte>, next: Cursor, err: Error)
      requires Valid()
      ensures recs == [] ==> out == [] && err == NotArrived
      ensures recs != [] ==> ReadsAt(offset, room, out, next, err)
      ensures forall i :: 0 <= i < |recs| && offset == CursorAt(i).offset ==> Reads(i, room, out, next, err)
    {
      if biggest == 0 {
        return [], Cursor(0, 0), NotArrived;
      }
      var f := FrameAtOffset(offset);
      var d := DataOf(f);
      out := Head(d, room);
      err := if |out| != |d| then PartialData else NoError;
      var nextOffset := NextFrameOffset(offset);
      var seqNo := NextSeq(offset, nextOffset);
      next := Cursor(nextOffset, seqNo);
      forall i | 0 <= i < |recs| && offset == CursorAt(i).offset
        ensures Reads(i, room, out, next, err)
      {
        ReadIs(i, room, out, next, err);
      }
    }

    lemma ReadIs(i: nat, room: nat, out: seq<Byte>, next: Cursor, err: Error)
      requires Valid() && i < |recs| && ReadsAt(CursorAt(i).offset, room, out, next, err)
      ensures Reads(i, room, out, next, err)
    {
      LiveRead(i);
    }

    /** What the header tests see at record `i`. */
    lemma LiveRead(i: nat)
      requires Valid() && i < |recs|
      ensures var off, bytes := CursorAt(i).offset, data[..];
              && DataOf(FrameOf(bytes, capacity, biggest, off)) == recs[i].data
              && off + SizeAt(bytes, capacity, biggest, off) == CursorAt(i + 1).offset
              && (i + 1 == |recs| ==> off == last)
              && (i + 1 < |recs| ==>
                    && off != last && SizeAt(bytes, capacity, biggest, off) < capacity
                    && SeqOf(FrameOf(bytes, capacity, biggest, CursorAt(i + 1).offset)) == CursorAt(i + 1).seqNo)
    {
      var bytes := data[..];
      assert Stored(recs[i], nextSeq - |recs| + i, biggest);
      LiveFrame(bytes, capacity, biggest, first, recs, i);
      FrameParts(recs[i]);
      OffsetNext(first, recs, i);
      if i + 1 < |recs| {
        assert Stored(recs[i + 1], nextSeq - |recs| + i + 1, biggest);
        LiveFrame(bytes, capacity, biggest, first, recs, i + 1);
        FrameSeq(recs[i + 1]);
        OffsetUp(first, recs, i);
      }
    }

    /** The bytes at `c` pass for a frame numbered `c.seqNo`. */
    ghost predicate Posing(c: Cursor)
      requires Sized()
      reads this, data
    {
      var f := FrameOf(data[..], capacity, biggest, c.offset);
      SizeOf(f) != 0 && SeqOf(f) == c.seqNo
    }

    /** A live record passes for what it is. */
    lemma LivePoses(i: nat)
      requires Valid() && i < |recs|
      ensures Posing(CursorAt(i)) && CursorAt(i).seqNo < nextSeq && CursorAt(i).offset <= last
    {
      assert Stored(recs[i], nextSeq - |recs| + i, biggest);
      LiveFrame(data[..], capacity, biggest, first, recs, i);
      FrameSeq(recs[i]);
      FrameSize(recs[i]);
      if i + 1 < |recs| {
        OffsetUp(first, recs, i);
      }
    }

    /** Reads at a cursor.  A live cursor gives its record and the cursor to the next one.  Any other that
        is not ahead gives the oldest record, unless the bytes now there pass for the record asked for. */
    method Read(room: nat, c: Cursor) returns (out: seq<Byte>, next: Cursor, err: Error)
      requires Valid()
      ensures err == NotArrived <==> c.seqNo >= nextSeq || c.offset > last
      ensures err == NotArrived ==> out == []
      ensures forall i :: 0 <= i < |recs| && c == CursorAt(i) ==> Reads(i, room, out, next, err)
      ensures err != NotArrived && !Posing(c) ==> recs != [] && Reads(0, room, out, next, err)
      ensures err != NotArrived && Posing(c) ==> recs != [] && ReadsAt(c.offset, room, out, next, err)
    {
      if c.seqNo >= nextSeq || c.offset > last {
        forall i | 0 <= i < |recs| ensures c != CursorAt(i) { LivePoses(i); }
        return [], Cursor(0, 0), NotArrived;
      }
      var f := FrameAtOffset(c.offset);
      if SizeOf(f) == 0 || SeqOf(f) != c.seqNo {
        forall i | 0 <= i < |recs| ensures c != CursorAt(i) { LivePoses(i); }
        out, next, err := ReadFirst(room);
        return;
      }
      out, next, err := ReadOffset(room, c.offset);
    }

    /** Reads the oldest record. */
    method ReadFirst(room: nat) returns (out: seq<Byte>, next: Cursor, err: Error)
      requires Valid()
      ensures recs == [] ==> out == [] && err == NotArrived
      ensures recs != [] ==> Reads(0, room, out, next, err)
    {
      out, next, err := ReadOffset(room, first);
      assert recs[..0] == [];
    }

    /** The bytes still to be read from a cursor on. */
    method Remaining(from: Cursor) returns (n: nat)
      requires Valid()
      ensures forall i :: 0 <= i <= |recs| && from == CursorAt(i) ==> n == |Frames(recs[i..])|
      ensures from.offset < first ==> n == |Frames(recs)|
    {
      if from.offset > last {
        forall i | 0 <= i <= |recs| && from == CursorAt(i) ensures |Frames(recs[i..])| == 0 { NothingPast(i); }
        return 0;
      }
      var off := from.offset;
      if off < first {
        off := first;
      }
      n := last - off;
      var size := FrameSizeAt(last);
      n := n + size;
      EndOfLog();
      forall i | 0 <= i <= |recs| && from == CursorAt(i) ensures n == |Frames(recs[i..])| { RestFrom(first, recs, i); }
    }

    /** A cursor past the last record is the end. */
    lemma NothingPast(i: nat)
      requires Valid() && i <= |recs| && CursorAt(i).offset > last
      ensures |Frames(recs[i..])| == 0
    {
      if i < |recs| {
        LivePoses(i);
      }
    }

    /** Opens the log again over the bytes another one left. */
    constructor Load(file: array<Byte>, ghost b: Buffer)
      requires b.Valid() && b.data == file
      ensures Valid() && data == file && capacity == b.capacity && recs == b.recs
      ensures first == b.first && last == b.last && nextSeq == b.nextSeq && biggest == b.biggest && length == b.length
    {
      capacity := file.Length - META;
      data := file;
      var off := file.Length - META;
      first := Get(file[off..off + 8]);
      last := Get(file[off + 8..off + 16]);
      nextSeq := Get(file[off + 16..off + 24]);
      biggest := Get(file[off + 24..off + 28]);
      length := Get(file[off + 28..off + 36]);
      recs := b.recs;
      new;
      b.Stamped();
    }

    /** The bookkeeping reads back. */
    lemma Stamped()
      requires Valid()
      ensures var c := capacity;
              && Get(data[c..c + 8]) == first && Get(data[c + 8..c + 16]) == last
              && Get(data[c + 16..c + 24]) == nextSeq && Get(data[c + 24..c + 28]) == biggest
              && Get(data[c + 28..c + 36]) == length
    {
      DataFits(recs);
      MetaParts(first, last, nextSeq, biggest, length);
      MetaSlices(data[..], capacity);
    }
  }
}
