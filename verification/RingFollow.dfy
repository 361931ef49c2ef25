/** A reader following a ring log while records come in. */
module RingFollow {
  import opened RingFormat
  import opened RingLog
  import opened RingBuffer

  // ----- a cursor to a record that is gone -----

  /** The same place on the ring gives the same bytes. */
  lemma SamePlace(bytes: seq<Byte>, cap: nat, x: nat, y: nat, n: nat)
    requires 0 < cap <= |bytes| && n <= cap && Turn(x, cap) == Turn(y, cap)
    ensures Ring(bytes, cap, x, n) == Ring(bytes, cap, y, n)
  {
    var r, s := Ring(bytes, cap, x, n), Ring(bytes, cap, y, n);
    forall k | 0 <= k < n ensures r[k] == s[k] {
      TurnStep(x, k, cap);
      TurnStep(y, k, cap);
    }
  }

  /** The four bytes behind a frame's size field are the low half of its number. */
  lemma NumberBytes(bytes: seq<Byte>, cap: nat, off: nat, r: Record)
    requires Holds(bytes, cap, off, Frame(r)[..|Frame(r)|]) && r.seqNo < U32
    ensures 0 < cap && Get(Ring(bytes, cap, off + SIZE, SIZE)) == r.seqNo
  {
    var f := Frame(r);
    assert f[..|f|] == f;
    FrameParts(r);
    HoldsSlice(bytes, cap, off, f, SIZE, SIZE);
    assert f[SIZE..][..SIZE] == f[SIZE..TOTAL][..SIZE] == Put(r.seqNo, SIZE);
    Widths();
    GetPutFits(r.seqNo, SIZE);
  }

  lemma HoldsRest(bytes: seq<Byte>, cap: nat, off: nat, f: seq<Byte>, a: nat)
    requires Holds(bytes, cap, off, f) && a <= |f|
    ensures Holds(bytes, cap, off + a, f[a..])
  {
    TakeDrop(f, a);
    HoldsPart(bytes, cap, off, f[..a], f[a..]);
  }

  lemma HoldsSlice(bytes: seq<Byte>, cap: nat, off: nat, f: seq<Byte>, a: nat, n: nat)
    requires Holds(bytes, cap, off, f) && a + n <= |f|
    ensures Holds(bytes, cap, off + a, f[a..][..n])
  {
    HoldsRest(bytes, cap, off, f, a);
    HoldsTake(bytes, cap, off + a, f[a..], n);
  }

  /** A cursor to the first record ever, long gone, is mistaken for a live one, and reads nothing, whenever
      a record numbered 4 to 11 has its number where that cursor points. */
  lemma Mistaken(b: Buffer, i: nat, c: Cursor)
    requires b.Valid() && i < |b.recs| && SIZE <= b.recs[i].seqNo < TOTAL && c.seqNo == 0
    requires Turn(c.offset, b.capacity) == Turn(b.CursorAt(i).offset + SIZE, b.capacity)
    ensures b.Posing(c) && DataOf(FrameOf(b.data[..], b.capacity, b.biggest, c.offset)) == []
  {
    var bytes, cap, r, off := b.data[..], b.capacity, b.recs[i], b.CursorAt(i).offset;
    assert Stored(r, b.nextSeq - |b.recs| + i, b.biggest);
    FrameAt(bytes, cap, b.first, b.recs, i, |Frame(r)|);
    NumberBytes(bytes, cap, off, r);
    SamePlace(bytes, cap, c.offset, off + SIZE, SIZE);
    Short(bytes, cap, c.offset, r.seqNo);
  }

  lemma Short(bytes: seq<Byte>, cap: nat, off: nat, n: nat)
    requires 0 < cap <= |bytes| && SIZE <= n && Get(Ring(bytes, cap, off, SIZE)) == n
    ensures SizeOf(Ring(bytes, cap, off, n)) == n && SizeOf(Ring(bytes, cap, off, SIZE)) == n
  {
    assert Ring(bytes, cap, off, n)[..SIZE] == Ring(bytes, cap, off, SIZE) == Ring(bytes, cap, off, SIZE)[..SIZE];
  }

  /** A ring of forty bytes that `k` records of seven bytes have gone through. */
  ghost predicate Filled(b: Buffer, k: nat)
    reads b, b.data
  {
    && b.Valid() && b.capacity == 40 && b.nextSeq == k && |b.recs| == (if k < 2 then k else 2)
    && Sevens(b.recs) && b.first == if k < 2 then 0 else 19 * (k - 2)
  }

  method FillOne(b: Buffer, k: nat)
    requires Filled(b, k) && k < 5
    modifies b, b.data
    ensures Filled(b, k + 1)
  {
    SevensLast(b);
    var d: seq<Byte> := [1, 2, 3, 4, 5, 6, 7];
    SevensNext(b.first, b.recs, k, d);
    var _ := b.Insert(d);
  }

  lemma SevensNext(first: nat, rs: seq<Record>, k: nat, d: seq<Byte>)
    requires Sevens(rs) && |rs| == (if k < 2 then k else 2) && |d| == 7 && first == if k < 2 then 0 else 19 * (k - 2)
    ensures var now := With(rs, k, d, 40);
            && Sevens(now) && |now| == (if k + 1 < 2 then k + 1 else 2)
            && Past(first, rs, Evicted(rs, |d| + TOTAL, 40)) == if k + 1 < 2 then 0 else 19 * (k + 1 - 2)
  {
    SevensEvicted(first, rs);
  }

  /** Such a run: five records of seven bytes through a ring of forty.  The zero cursor then reads nothing,
      without an error, although two records are there. */
  method EmptyRead() returns (b: Buffer, out: seq<Byte>, err: Error)
    ensures Filled(b, 5) && out == [] && err == NoError
  {
    b := new Buffer(40);
    for k := 0 to 5
      invariant Filled(b, k) && fresh(b) && fresh(b.data)
    {
      FillOne(b, k);
    }
    ZeroMistaken(b);
    var next;
    out, next, err := b.Read(7, Cursor(0, 0));
  }

  lemma ZeroMistaken(b: Buffer)
    requires Filled(b, 5)
    ensures b.Posing(Cursor(0, 0)) && DataOf(FrameOf(b.data[..], b.capacity, b.biggest, 0)) == []
  {
    SevensLast(b);
    assert Stored(b.recs[1], 4, b.biggest);
    TurnMod(0, 40);
    TurnMod(80, 40);
    Mistaken(b, 1, Cursor(0, 0));
  }

  ghost predicate Sevens(rs: seq<Record>) {
    forall i :: 0 <= i < |rs| ==> |rs[i].data| == 7
  }

  lemma {:induction false} SevensSize(rs: seq<Record>)
    requires Sevens(rs)
    ensures |Frames(rs)| == 19 * |rs|
  {
    if rs != [] {
      SevensSize(rs[1..]);
    }
  }

  lemma SevensEvicted(first: nat, rs: seq<Record>)
    requires Sevens(rs) && |rs| <= 2
    ensures var kept := if |rs| < 2 then rs else rs[1..];
            Evicted(rs, 19, 40) == kept && Past(first, rs, kept) == if |rs| < 2 then first else first + 19
  {
    SevensSize(rs);
    if |rs| == 2 {
      SevensSize(rs[1..]);
      SevensSize(rs[..1]);
    }
  }

  lemma SevensLast(b: Buffer)
    requires b.Valid() && Sevens(b.recs) && |b.recs| <= 2
    ensures b.recs != [] ==> b.last == b.first + 19 * (|b.recs| - 1)
    ensures |b.recs| == 2 ==> b.CursorAt(1).offset == b.first + 19
  {
    if b.recs != [] {
      SevensSize(b.recs[..|b.recs| - 1]);
    }
  }

  // ----- reading everything -----

  /** Reads at the cursor of record `i`, which may be the next to come. */
  method ReadNext(b: Buffer, room: nat, c: Cursor, ghost i: nat) returns (out: seq<Byte>, next: Cursor, err: Error)
    requires b.Valid() && i <= |b.recs| && c == b.CursorAt(i)
    ensures err == NotArrived <==> i == |b.recs|
    ensures i < |b.recs| ==> b.Reads(i, room, out, next, err)
  {
    if i < |b.recs| {
      b.LivePoses(i);
    }
    out, next, err := b.Read(room, c);
  }

  /** The first records have been read, each as far as there was room. */
  ghost predicate Drained(recs: seq<Record>, room: nat, outs: seq<seq<Byte>>) {
    |outs| <= |recs| && forall i :: 0 <= i < |outs| ==> outs[i] == Head(recs[i].data, room)
  }

  /** From the first record on, cursor by cursor: all that is there, in order; then nothing has arrived. */
  method Drain(b: Buffer, room: nat) returns (outs: seq<seq<Byte>>, end: Cursor)
    requires b.Valid()
    ensures |outs| == |b.recs| && Drained(b.recs, room, outs) && end == b.CursorAt(|b.recs|)
  {
    var out, next, err := b.ReadFirst(room);
    if err == NotArrived {
      b.EndAt();
      return [], Cursor(0, 0);
    }
    outs, end := [out], next;
    while true
      invariant Drained(b.recs, room, outs) && end == b.CursorAt(|outs|)
      decreases |b.recs| - |outs|
    {
      out, next, err := ReadNext(b, room, end, |outs|);
      if err == NotArrived {
        return;
      }
      outs, end := outs + [out], next;
    }
  }

  /** The last cursor is that of the next record: it has not arrived before, and is read once it is in. */
  method DrainOn(b: Buffer, room: nat, d: seq<Byte>) returns (before: Error, out: seq<Byte>, after: Error)
    requires b.Valid() && b.nextSeq + 1 < U64 && b.last + b.capacity < U64 && |d| != MAX_BYTES
    modifies b, b.data
    ensures before == NotArrived
    ensures if d != [] && Verdict(|d|, b.capacity) == NoError
            then out == Head(d, room) && after == (if |d| <= room then NoError else PartialData)
            else after == NotArrived
  {
    var outs, end := Drain(b, room);
    ghost var n := |b.recs|;
    var next;
    out, next, before := ReadNext(b, room, end, n);
    out, after := InsertAndRead(b, room, d, end);
  }

  method InsertAndRead(b: Buffer, room: nat, d: seq<Byte>, end: Cursor) returns (out: seq<Byte>, err: Error)
    requires b.Valid() && b.nextSeq + 1 < U64 && b.last + b.capacity < U64 && |d| != MAX_BYTES &&
             end == b.CursorAt(|b.recs|)
    modifies b, b.data
    ensures if d != [] && Verdict(|d|, b.capacity) == NoError
            then out == Head(d, room) && err == (if |d| <= room then NoError else PartialData)
            else err == NotArrived
  {
    var refused := b.Insert(d);
    var next;
    out, next, err :=
      ReadNext(b, room, end, if d != [] && Verdict(|d|, b.capacity) == NoError then |b.recs| - 1 else |b.recs|);
  }

  // ----- following -----

  datatype Event = Arrive(d: seq<Byte>) | Poll

  /** `recs` is the end of everything stored so far, and starts where it should. */
  ghost predicate Tail(all: seq<Record>, recs: seq<Record>, first: nat) {
    |recs| <= |all| && recs == all[|all| - |recs|..] && first == Offset(0, all, |all| - |recs|)
  }

  lemma OffsetFrom(all: seq<Record>, k: nat, i: nat)
    requires k + i <= |all|
    ensures Offset(Offset(0, all, k), all[k..], i) == Offset(0, all, k + i)
  {
    assert all[..k + i] == all[..k] + all[k..][..i];
    FramesJoin(all[..k], all[k..][..i]);
  }

  /** Offsets never move: a live cursor says how many bytes were ever written before its record. */
  lemma Absolute(b: Buffer, all: seq<Record>, i: nat)
    requires b.Valid() && Tail(all, b.recs, b.first) && b.nextSeq == |all| && i <= |b.recs|
    ensures var n := |all| - |b.recs| + i; b.CursorAt(i) == Cursor(Offset(0, all, n), n)
  {
    OffsetFrom(all, |all| - |b.recs|, i);
  }

  lemma TailGrows(all: seq<Record>, recs: seq<Record>, first: nat, kept: seq<Record>, r: Record)
    requires Tail(all, recs, first) && |kept| <= |recs| && kept == recs[|recs| - |kept|..]
    ensures Tail(all + [r], kept + [r], Past(first, recs, kept))
  {
    var k, j := |all| - |recs|, |recs| - |kept|;
    OffsetFrom(all, k, j);
    assert kept == all[k + j..];
    assert (all + [r])[..k + j] == all[..k + j] && (all + [r])[k + j..] == all[k + j..] + [r];
  }

  ghost predicate Fits(all: seq<Record>, cap: nat) {
    forall i :: 0 <= i < |all| ==> |Frame(all[i])| <= cap
  }

  lemma {:induction false} Bounded(all: seq<Record>, cap: nat)
    requires Fits(all, cap)
    ensures |Frames(all)| <= |all| * cap
  {
    if all != [] {
      Bounded(all[1..], cap);
      assert |all| * cap == cap + (|all| - 1) * cap;
    }
  }

  lemma OffsetWithin(all: seq<Record>, i: nat)
    requires i <= |all|
    ensures Offset(0, all, i) <= |Frames(all)|
  {
    assert all == all[..i] + all[i..];
    FramesJoin(all[..i], all[i..]);
  }

  /** How far a reader is: what it has been given, and where it reads next. */
  datatype Reader = Reader(got: seq<seq<Byte>>, at: Cursor)

  /** The cursor stands for a number, and where that record is or was or will be. */
  ghost predicate Stands(all: seq<Record>, c: Cursor) {
    c.seqNo <= |all| && c.offset == Offset(0, all, c.seqNo)
  }

  /** The bytes of the ring once all of `all` has been stored. */
  ghost function Bytes(all: seq<Record>, cap: nat): (r: seq<Byte>)
    ensures |r| == cap
  {
    if all == [] then seq(cap, _ => 0) else
      var n := |all| - 1;
      var f := Frame(all[n]);
      if 0 < |f| <= cap then Overwritten(Bytes(all[..n], cap), cap, Turn(Offset(0, all, n), cap), f)
        else Bytes(all[..n], cap)
  }

  /** The size of the biggest frame stored. */
  ghost function Biggest(all: seq<Record>): nat {
    if all == [] then 0 else Greater(Biggest(all[..|all| - 1]), |Frame(all[|all| - 1])|)
  }

  /** When all of `all` has been stored, the bytes at `c` pass for a frame numbered `c.seqNo`. */
  ghost predicate PosesAs(all: seq<Record>, cap: nat, c: Cursor) {
    var f := FrameOf(Bytes(all, cap), cap, Biggest(all), c.offset);
    SizeOf(f) != 0 && SeqOf(f) == c.seqNo
  }

  lemma FrameWithin(bytes: seq<Byte>, bytes': seq<Byte>, cap: nat, biggest: nat, off: nat)
    requires cap <= |bytes| && cap <= |bytes'| && bytes'[..cap] == bytes[..cap]
    ensures FrameOf(bytes', cap, biggest, off) == FrameOf(bytes, cap, biggest, off)
  {
    RingWithin(bytes, bytes', cap, off, SIZE);
    RingWithin(bytes, bytes', cap, off, SizeAt(bytes, cap, biggest, off));
  }

  /** What passes for a record is decided by what has been stored. */
  lemma PosingIs(b: Buffer, all: seq<Record>, c: Cursor)
    requires b.Valid() && InStep(b, all)
    ensures b.Posing(c) <==> PosesAs(all, b.capacity, c)
  {
    var ring := Bytes(all, b.capacity);
    assert b.data[..][..b.capacity] == b.data[..b.capacity] == ring == ring[..b.capacity];
    FrameWithin(ring, b.data[..], b.capacity, b.biggest, c.offset);
  }

  /** The log holds the end of `all`, everything stored so far. */
  ghost predicate InStep(b: Buffer, all: seq<Record>)
    reads b, b.data
  {
    && Tail(all, b.recs, b.first) && b.nextSeq == |all| && Fits(all, b.capacity)
    && b.capacity <= b.data.Length && b.data[..b.capacity] == Bytes(all, b.capacity) && b.biggest == Biggest(all)
  }

  /** The reader is where a record is or will be, and nothing passes for one that is gone. */
  ghost predicate Sound(b: Buffer, all: seq<Record>, c: Cursor)
    requires b.Valid()
    reads b, b.data
  {
    InStep(b, all) && Stands(all, c) && (Stale(b, c) ==> !b.Posing(c))
  }

  /** One poll, by a reader that is `sound` or may have been fooled. */
  method PollOnce(b: Buffer, r: Reader, ghost all: seq<Record>, ghost sound: bool) returns (r': Reader)
    requires b.Valid() && (sound ==> Sound(b, all, r.at))
    ensures sound && r.at.seqNo == |all| ==> r' == r
    ensures sound && r.at.seqNo < |all| ==>
              var n := b.nextSeq - |b.recs| + Wanted(b, r.at);
              && 0 <= n < |all| && r'.got == r.got + [all[n].data] && Stands(all, r'.at) && r'.at.seqNo == n + 1
  {
    ghost var due := sound && r.at.seqNo < |all|;
    if due {
      WantedIs(b, all, r.at);
    }
    var out, next, err := ReadDue(b, r.at, if due then Wanted(b, r.at) else 0, due);
    if err == NotArrived {
      return r;
    }
    r' := Reader(r.got + [out], next);
    if due {
      Given(b, all, Wanted(b, r.at), out, next, err);
    }
  }

  /** The live record a reader at `c` is due. */
  ghost function Wanted(b: Buffer, c: Cursor): int
    reads b
  {
    if Stale(b, c) then 0 else c.seqNo + |b.recs| - b.nextSeq
  }

  method ReadDue(b: Buffer, c: Cursor, ghost i: nat, ghost due: bool) returns (out: seq<Byte>, next: Cursor, err: Error)
    requires b.Valid()
    requires due ==>
             i < |b.recs| && c.seqNo < b.nextSeq && c.offset <= b.last &&
               (c == b.CursorAt(i) || (i == 0 && !b.Posing(c)))
    ensures err == NotArrived <==> c.seqNo >= b.nextSeq || c.offset > b.last
    ensures due ==> b.Reads(i, b.capacity, out, next, err)
  {
    out, next, err := b.Read(b.capacity, c);
  }

  /** The record due is live, and its cursor is `c`, or the place of `c` passes for nothing. */
  lemma WantedIs(b: Buffer, all: seq<Record>, c: Cursor)
    requires b.Valid() && Sound(b, all, c) && c.seqNo < |all|
    ensures c.seqNo < b.nextSeq && c.offset <= b.last && 0 <= Wanted(b, c) < |b.recs|
    ensures if Stale(b, c) then !b.Posing(c) && Wanted(b, c) == 0 else c == b.CursorAt(Wanted(b, c))
  {
    Arrived(b, all, c);
    if !Stale(b, c) {
      Absolute(b, all, Wanted(b, c));
    }
  }

  /** Reading live record `i` gives what was stored under its number. */
  lemma Given(b: Buffer, all: seq<Record>, i: nat, out: seq<Byte>, next: Cursor, err: Error)
    requires b.Valid() && InStep(b, all)
    requires i < |b.recs| && b.Reads(i, b.capacity, out, next, err)
    ensures var n := |all| - |b.recs| + i; out == all[n].data && Stands(all, next) && next.seqNo == n + 1
  {
    Absolute(b, all, i + 1);
    assert b.recs[i] == all[|all| - |b.recs| + i];
  }

  /** The record asked for has been overwritten. */
  ghost predicate Stale(b: Buffer, c: Cursor)
    reads b
  {
    c.seqNo + |b.recs| < b.nextSeq
  }

  /** Nothing older than the next record counts as not arrived. */
  lemma Arrived(b: Buffer, all: seq<Record>, c: Cursor)
    requires b.Valid() && Tail(all, b.recs, b.first) && b.nextSeq == |all| && Stands(all, c) && c.seqNo < |all|
    ensures b.recs != [] && c.offset <= b.last
  {
    var l := |b.recs| - 1;
    Absolute(b, all, l);
    assert all[..|all| - 1] == all[..c.seqNo] + all[c.seqNo..|all| - 1];
    FramesJoin(all[..c.seqNo], all[c.seqNo..|all| - 1]);
  }

  /** One arrival. */
  method ArriveOnce(b: Buffer, d: seq<Byte>, ghost all: seq<Record>) returns (ghost all': seq<Record>)
    requires b.Valid() && InStep(b, all)
    requires |d| != MAX_BYTES && |all| + 1 < U64 && (|all| + 1) * b.capacity < U64
    modifies b, b.data
    ensures b.Valid() && InStep(b, all')
    ensures all' == if Verdict(|d|, b.capacity) == NoError && d != [] then all + [Record(|all|, d)] else all
    ensures |b.recs| == if all' == all then |old(b.recs)| else |Evicted(old(b.recs), |d| + TOTAL, b.capacity)| + 1
  {
    LastBound(b, all);
    if d != [] && Verdict(|d|, b.capacity) == NoError {
      Taken(b, d, all);
      all' := all + [Record(|all|, d)];
    } else {
      Refused(b, d, all);
      all' := all;
    }
  }

  method Refused(b: Buffer, d: seq<Byte>, ghost all: seq<Record>)
    requires b.Valid() && InStep(b, all) && b.nextSeq + 1 < U64 && b.last + b.capacity < U64
    requires |d| != MAX_BYTES && (d == [] || Verdict(|d|, b.capacity) != NoError)
    modifies b, b.data
    ensures b.Valid() && InStep(b, all) && b.recs == old(b.recs)
  {
    ghost var bytes := b.data[..];
    assert b.data[..b.capacity] == bytes[..b.capacity];
    var err := b.Insert(d);
    assert b.data[..b.capacity] == b.data[..][..b.capacity];
  }

  method Taken(b: Buffer, d: seq<Byte>, ghost all: seq<Record>)
    requires b.Valid() && InStep(b, all) && b.nextSeq + 1 < U64 && b.last + b.capacity < U64
    requires |d| != MAX_BYTES && d != [] && Verdict(|d|, b.capacity) == NoError
    modifies b, b.data
    ensures b.Valid() && InStep(b, all + [Record(|all|, d)])
    ensures |b.recs| == |Evicted(old(b.recs), |d| + TOTAL, b.capacity)| + 1
  {
    ghost var r, recs, first, cap := Record(|all|, d), b.recs, b.first, b.capacity;
    ghost var ring := b.data[..cap];
    TailEnd(all, recs, first);
    var err := b.Insert(d);
    Extended(all, r, cap, b.last, ring, b.data[..cap]);
    Grown(all, recs, first, d, cap);
  }

  lemma Extended(all: seq<Record>, r: Record, cap: nat, at: nat, ring: seq<Byte>, ring': seq<Byte>)
    requires 0 < |Frame(r)| <= cap && at == Offset(0, all, |all|) && ring == Bytes(all, cap)
    requires ring' == Overwritten(ring, cap, Turn(at, cap), Frame(r))
    ensures ring' == Bytes(all + [r], cap) && Biggest(all + [r]) == Greater(Biggest(all), |Frame(r)|)
  {
    BytesMore(all, r, cap, at);
  }

  lemma TailEnd(all: seq<Record>, recs: seq<Record>, first: nat)
    requires Tail(all, recs, first)
    ensures first + |Frames(recs)| == Offset(0, all, |all|)
  {
    OffsetFrom(all, |all| - |recs|, |recs|);
    assert recs[..|recs|] == recs;
  }

  lemma BytesMore(all: seq<Record>, r: Record, cap: nat, at: nat)
    requires 0 < |Frame(r)| <= cap && at == Offset(0, all, |all|)
    ensures Bytes(all + [r], cap) == Overwritten(Bytes(all, cap), cap, Turn(at, cap), Frame(r))
    ensures Biggest(all + [r]) == Greater(Biggest(all), |Frame(r)|)
  {
    assert (all + [r])[..|all|] == all == all[..|all|];
  }

  lemma Grown(all: seq<Record>, recs: seq<Record>, first: nat, d: seq<Byte>, cap: nat)
    requires Tail(all, recs, first) && Fits(all, cap)
    ensures Tail(all + [Record(|all|, d)], With(recs, |all|, d, cap),
                 Past(first, recs, Evicted(recs, |d| + TOTAL, cap)))
    ensures |d| + TOTAL <= cap ==> Fits(all + [Record(|all|, d)], cap)
  {
    EvictedSuffix(recs, |d| + TOTAL, cap);
    TailGrows(all, recs, first, Evicted(recs, |d| + TOTAL, cap), Record(|all|, d));
  }

  lemma LastBound(b: Buffer, all: seq<Record>)
    requires b.Valid() && InStep(b, all)
    ensures b.last + b.capacity <= (|all| + 1) * b.capacity
  {
    Bounded(all, b.capacity);
    if b.recs != [] {
      Absolute(b, all, |b.recs| - 1);
      OffsetWithin(all, |all| - 1);
    }
    assert (|all| + 1) * b.capacity == |all| * b.capacity + b.capacity;
  }

  // ----- the same run without bytes -----

  /** Everything stored, how much of it is live, the number read next, the numbers read, and whether the
      reader has been overtaken. */
  datatype Model = Model(all: seq<Record>, live: nat, at: nat, numbers: seq<nat>, lapped: bool)

  /** Numbers below `at`, in order and none twice. */
  ghost predicate Rising(numbers: seq<nat>, at: nat) {
    && (forall i :: 0 <= i < |numbers| ==> numbers[i] < at)
    && (forall i, j :: 0 <= i < j < |numbers| ==> numbers[i] < numbers[j])
  }

  /** All numbers from the start. */
  ghost predicate FromStart(numbers: seq<nat>, at: nat) {
    at == |numbers| && forall i :: 0 <= i < |numbers| ==> numbers[i] == i
  }

  lemma RisingNext(numbers: seq<nat>, at: nat, n: nat)
    requires Rising(numbers, at) && at <= n
    ensures Rising(numbers + [n], n + 1)
    ensures FromStart(numbers, at) && n == at ==> FromStart(numbers + [n], n + 1)
  {
  }

  ghost predicate InOrder(m: Model) {
    && m.live <= |m.all| && m.at <= |m.all| && Rising(m.numbers, m.at)
    && (!m.lapped ==> FromStart(m.numbers, m.at))
  }

  ghost function AfterArrive(m: Model, d: seq<Byte>, cap: nat): (m': Model)
    requires InOrder(m)
    ensures InOrder(m') && |m'.all| <= |m.all| + 1
  {
    if Verdict(|d|, cap) == NoError && d != [] then
      Model(m.all + [Record(|m.all|, d)], |Evicted(m.all[|m.all| - m.live..], |d| + TOTAL, cap)| + 1, m.at, m.numbers,
            m.lapped)
    else m
  }

  /** The record a poll gives: the next, or the oldest if that is gone. */
  ghost function Due(m: Model): nat
    requires InOrder(m)
  {
    if m.at < |m.all| - m.live then |m.all| - m.live else m.at
  }

  ghost function AfterPoll(m: Model): (m': Model)
    requires InOrder(m)
    ensures InOrder(m') && m'.all == m.all
  {
    if m.at == |m.all| || m.live == 0 then m
    else
      RisingNext(m.numbers, m.at, Due(m));
      Model(m.all, m.live, Due(m) + 1, m.numbers + [Due(m)], m.lapped || Due(m) != m.at)
  }

  /** A whole run. */
  ghost function RunModel(events: seq<Event>, cap: nat): (m: Model)
    ensures InOrder(m) && |m.all| <= |events|
  {
    if events == [] then Model([], 0, 0, [], false)
    else AfterEvent(RunModel(events[..|events| - 1], cap), events[|events| - 1], cap)
  }

  ghost function AfterEvent(m: Model, e: Event, cap: nat): (m': Model)
    requires InOrder(m)
    ensures InOrder(m') && |m'.all| <= |m.all| + 1
  {
    if e.Arrive? then AfterArrive(m, e.d, cap) else AfterPoll(m)
  }

  /** What was stored under these numbers. */
  ghost function Under(all: seq<Record>, numbers: seq<nat>, at: nat): (got: seq<seq<Byte>>)
    requires Rising(numbers, at) && at <= |all|
    ensures |got| == |numbers| && forall i :: 0 <= i < |got| ==> got[i] == all[numbers[i]].data
  {
    seq(|numbers|, i requires 0 <= i < |numbers| => all[numbers[i]].data)
  }

  /** The reader is behind what is live, and the bytes where it reads next pass for the record it is due. */
  ghost predicate Deceives(m: Model, cap: nat)
    requires InOrder(m)
  {
    m.at < |m.all| - m.live && PosesAs(m.all, cap, Cursor(Offset(0, m.all, m.at), m.at))
  }

  /** Some poll of the run finds an overwritten place that passes for the record asked of it. */
  ghost predicate Fooled(events: seq<Event>, cap: nat) {
    events != [] && (
      var past, e := events[..|events| - 1], events[|events| - 1];
      Fooled(past, cap) || (e.Poll? && Deceives(RunModel(past, cap), cap)))
  }

  /** That takes a reader that has been overtaken. */
  lemma {:induction false} FooledLapped(events: seq<Event>, cap: nat)
    requires Fooled(events, cap)
    ensures RunModel(events, cap).lapped
    decreases |events|
  {
    var past := events[..|events| - 1];
    if Fooled(past, cap) {
      FooledLapped(past, cap);
    } else {
      LiveIs(past, cap);
    }
  }

  /** Something is live once something has been stored. */
  lemma {:induction false} LiveIs(events: seq<Event>, cap: nat)
    ensures var m := RunModel(events, cap); m.all != [] ==> m.live > 0
  {
    if events != [] {
      LiveIs(events[..|events| - 1], cap);
    }
  }

  /** The log and its reader are where the model is, until an overwritten place passes for a record. */
  ghost predicate Matches(b: Buffer, r: Reader, m: Model, fooled: bool)
    requires InOrder(m)
    reads b, b.data
  {
    && InStep(b, m.all) && |b.recs| == m.live
    && (!fooled ==> r.got == Under(m.all, m.numbers, m.at) && Stands(m.all, r.at) && r.at.seqNo == m.at)
  }

  lemma UnderMore(all: seq<Record>, x: Record, numbers: seq<nat>, at: nat)
    requires Rising(numbers, at) && at <= |all|
    ensures Under(all + [x], numbers, at) == Under(all, numbers, at)
    ensures Offset(0, all + [x], at) == Offset(0, all, at)
  {
    assert (all + [x])[..at] == all[..at];
  }

  lemma UnderNext(all: seq<Record>, numbers: seq<nat>, at: nat, n: nat)
    requires Rising(numbers, at) && at <= n < |all| && Rising(numbers + [n], n + 1)
    ensures Under(all, numbers + [n], n + 1) == Under(all, numbers, at) + [all[n].data]
  {
  }

  method Arriving(b: Buffer, d: seq<Byte>, ghost r: Reader, ghost m: Model, ghost fooled: bool)
    requires b.Valid() && InOrder(m) && Matches(b, r, m, fooled)
    requires |d| != MAX_BYTES && |m.all| + 1 < U64 && (|m.all| + 1) * b.capacity < U64
    modifies b, b.data
    ensures b.Valid() && Matches(b, r, AfterArrive(m, d, b.capacity), fooled)
  {
    ghost var recs, cap := b.recs, b.capacity;
    ghost var all := ArriveOnce(b, d, m.all);
    ArrivedMatches(b, r, m, d, fooled, recs, all);
  }

  lemma ArrivedMatches(b: Buffer, r: Reader, m: Model, d: seq<Byte>, fooled: bool, recs: seq<Record>, all: seq<Record>)
    requires InOrder(m) && InStep(b, all) && m.live == |recs| && recs == m.all[|m.all| - m.live..]
    requires !fooled ==> r.got == Under(m.all, m.numbers, m.at) && Stands(m.all, r.at) && r.at.seqNo == m.at
    requires all == if Verdict(|d|, b.capacity) == NoError && d != [] then m.all + [Record(|m.all|, d)] else m.all
    requires |b.recs| == if all == m.all then |recs| else |Evicted(recs, |d| + TOTAL, b.capacity)| + 1
    ensures Matches(b, r, AfterArrive(m, d, b.capacity), fooled)
  {
    UnderMore(m.all, Record(|m.all|, d), m.numbers, m.at);
  }

  method Polling(b: Buffer, r: Reader, ghost m: Model, ghost fooled: bool) returns (r': Reader)
    requires b.Valid() && InOrder(m) && Matches(b, r, m, fooled)
    ensures Matches(b, r', AfterPoll(m), fooled || Deceives(m, b.capacity))
  {
    ghost var sound := !fooled && !Deceives(m, b.capacity);
    if sound {
      PosingIs(b, m.all, r.at);
    }
    r' := PollOnce(b, r, m.all, sound);
    if sound {
      Polled(b, r, r', m);
    }
  }

  lemma Polled(b: Buffer, r: Reader, r': Reader, m: Model)
    requires b.Valid() && InOrder(m) && Matches(b, r, m, false)
    requires r.at.seqNo == |m.all| ==> r' == r
    requires r.at.seqNo < |m.all| ==>
               var n := b.nextSeq - |b.recs| + Wanted(b, r.at);
               0 <= n < |m.all| && r'.got == r.got + [m.all[n].data] && Stands(m.all, r'.at) && r'.at.seqNo == n + 1
    ensures Matches(b, r', AfterPoll(m), false)
  {
    if m.at < |m.all| {
      Arrived(b, m.all, r.at);
      RisingNext(m.numbers, m.at, Due(m));
      UnderNext(m.all, m.numbers, m.at, Due(m));
    }
  }

  /** Where things stand after the first `k` events. */
  ghost predicate Going(b: Buffer, r: Reader, events: seq<Event>, k: nat, cap: nat)
    requires k <= |events|
    reads b, b.data
  {
    b.Valid() && b.capacity == cap && Matches(b, r, RunModel(events[..k], cap), Fooled(events[..k], cap))
  }

  method Step(b: Buffer, events: seq<Event>, k: nat, r: Reader) returns (r': Reader)
    requires k < |events| && Going(b, r, events, k, b.capacity)
    requires |events| + 1 < U64 && (|events| + 1) * b.capacity < U64
    requires events[k].Arrive? ==> |events[k].d| != MAX_BYTES
    modifies b, b.data
    ensures Going(b, r', events, k + 1, b.capacity)
  {
    ghost var m := RunModel(events[..k], b.capacity);
    Times(|m.all| + 1, |events| + 1, b.capacity);
    r' := Happen(b, events[k], r, m, Fooled(events[..k], b.capacity));
    RunStep(events, k, b.capacity);
  }

  method Happen(b: Buffer, e: Event, r: Reader, ghost m: Model, ghost fooled: bool) returns (r': Reader)
    requires b.Valid() && InOrder(m) && Matches(b, r, m, fooled)
    requires |m.all| + 1 < U64 && (|m.all| + 1) * b.capacity < U64 && (e.Arrive? ==> |e.d| != MAX_BYTES)
    modifies b, b.data
    ensures b.Valid() && Matches(b, r', AfterEvent(m, e, b.capacity), fooled || (e.Poll? && Deceives(m, b.capacity)))
  {
    match e
    case Arrive(d) =>
      Arriving(b, d, r, m, fooled);
      r' := r;
    case Poll =>
      r' := Polling(b, r, m, fooled);
  }

  lemma RunStep(events: seq<Event>, k: nat, cap: nat)
    requires k < |events|
    ensures RunModel(events[..k + 1], cap) == AfterEvent(RunModel(events[..k], cap), events[k], cap)
    ensures Fooled(events[..k + 1], cap) <==>
            Fooled(events[..k], cap) || (events[k].Poll? && Deceives(RunModel(events[..k], cap), cap))
  {
    assert events[..k + 1][..k] == events[..k];
  }

  /** Any run of arrivals and polls gives the reader what the model says, in order and none of it twice, unless
      some poll finds an overwritten place that passes for the record asked of it.  A reader that is never
      overtaken has everything stored, from the start on. */
  method Follow(capacity: nat, events: seq<Event>) returns (r: Reader)
    requires capacity < U64 && |events| + 1 < U64 && (|events| + 1) * capacity < U64
    requires forall k :: 0 <= k < |events| && events[k].Arrive? ==> |events[k].d| != MAX_BYTES
    ensures var m := RunModel(events, capacity);
            && (!Fooled(events, capacity) ==> r.got == Under(m.all, m.numbers, m.at))
            && (!m.lapped ==> r.got == Under(m.all, m.numbers, m.at) && FromStart(m.numbers, m.at))
  {
    var b := new Buffer(capacity);
    Begins(b, Reader([], Cursor(0, 0)), events);
    r := FollowFrom(b, events, 0, Reader([], Cursor(0, 0)));
    assert events[..|events|] == events;
    if Fooled(events, capacity) {
      FooledLapped(events, capacity);
    }
  }

  method FollowFrom(b: Buffer, events: seq<Event>, k: nat, r: Reader) returns (r': Reader)
    requires k <= |events| && Going(b, r, events, k, b.capacity)
    requires |events| + 1 < U64 && (|events| + 1) * b.capacity < U64
    requires forall j :: 0 <= j < |events| && events[j].Arrive? ==> |events[j].d| != MAX_BYTES
    modifies b, b.data
    ensures Going(b, r', events, |events|, b.capacity)
    decreases |events| - k
  {
    if k == |events| {
      return r;
    }
    r' := Step(b, events, k, r);
    r' := FollowFrom(b, events, k + 1, r');
  }

  lemma Begins(b: Buffer, r: Reader, events: seq<Event>)
    requires b.Valid() && b.recs == [] && r == Reader([], Cursor(0, 0)) &&
             b.data[..b.capacity] == seq(b.capacity, _ => 0)
    ensures Going(b, r, events, 0, b.capacity)
  {
    assert events[..0] == [];
    var m := RunModel([], b.capacity);
    assert m.all[..0] == [];
  }

  lemma Times(a: nat, b: nat, c: nat)
    requires a <= b
    ensures a * c <= b * c
  {
  }
}
