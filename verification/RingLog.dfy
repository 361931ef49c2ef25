/** The framed ring log, against a bounded sequence of records. */
module RingLog {
  import opened RingFormat

  const META: nat := 4096

  /** The ring holds the frames of `rs`, one after the other, from offset `first` on. */
  ghost predicate Laid(bytes: seq<Byte>, cap: nat, first: nat, rs: seq<Record>) {
    Holds(bytes, cap, first, Frames(rs))
  }

  /** The ring holds the byte string `s` from offset `first` on. */
  ghost predicate Holds(bytes: seq<Byte>, cap: nat, first: nat, s: seq<Byte>) {
    && |s| <= cap <= |bytes|
    && (s != [] ==> Ring(bytes, cap, first, |s|) == s)
  }

  lemma HoldsPart(bytes: seq<Byte>, cap: nat, first: nat, a: seq<Byte>, b: seq<Byte>)
    requires Holds(bytes, cap, first, a + b)
    ensures Holds(bytes, cap, first, a) && Holds(bytes, cap, first + |a|, b)
  {
    if a + b != [] {
      RingJoin(bytes, cap, first, |a|, |b|);
      var l, r := Ring(bytes, cap, first, |a|), Ring(bytes, cap, first + |a|, |b|);
      assert l == (l + r)[..|a|] == (a + b)[..|a|] == a;
      assert r == (l + r)[|a|..] == (a + b)[|a|..] == b;
    }
  }

  lemma FramesSplit(rs: seq<Record>, i: nat)
    requires i < |rs|
    ensures Frames(rs) == Frames(rs[..i]) + Frames(rs[i..])
    ensures Frames(rs[i..]) == Frame(rs[i]) + Frames(rs[i + 1..])
  {
    assert rs == rs[..i] + rs[i..] && rs[i..][1..] == rs[i + 1..];
    FramesJoin(rs[..i], rs[i..]);
  }

  lemma FramesPrefix(rs: seq<Record>, i: nat)
    requires i < |rs|
    ensures Frames(rs[..i + 1]) == Frames(rs[..i]) + Frame(rs[i])
  {
    assert rs[..i + 1] == rs[..i] + [rs[i]];
    FramesJoin(rs[..i], [rs[i]]);
    FramesOne(rs[i]);
  }

  lemma FramesOne(r: Record)
    ensures Frames([r]) == Frame(r)
  {
    assert [r][1..] == [];
    assert Frames([r]) == Frame(r) + [];
  }

  /** Where frame `i` starts. */
  ghost function Offset(first: nat, rs: seq<Record>, i: nat): nat
    requires i <= |rs|
  {
    first + |Frames(rs[..i])|
  }

  /** Reading `n` bytes at the start of frame `i` gives its first `n` bytes. */
  lemma FrameAt(bytes: seq<Byte>, cap: nat, first: nat, rs: seq<Record>, i: nat, n: nat)
    requires Laid(bytes, cap, first, rs) && i < |rs| && n <= |Frame(rs[i])|
    ensures Holds(bytes, cap, Offset(first, rs, i), Frame(rs[i])[..n])
  {
    FramesSplit(rs, i);
    HoldsMiddle(bytes, cap, first, Frames(rs[..i]), Frame(rs[i]), Frames(rs[i + 1..]), n);
  }

  lemma HoldsMiddle(bytes: seq<Byte>, cap: nat, first: nat, a: seq<Byte>, f: seq<Byte>, c: seq<Byte>, n: nat)
    requires Holds(bytes, cap, first, a + (f + c)) && n <= |f|
    ensures Holds(bytes, cap, first + |a|, f[..n])
  {
    HoldsPart(bytes, cap, first, a, f + c);
    HoldsTake(bytes, cap, first + |a|, f + c, n);
    TakeLeft(f, c, n);
  }

  lemma HoldsTake(bytes: seq<Byte>, cap: nat, first: nat, s: seq<Byte>, n: nat)
    requires Holds(bytes, cap, first, s) && n <= |s|
    ensures Holds(bytes, cap, first, s[..n])
  {
    TakeDrop(s, n);
    HoldsPart(bytes, cap, first, s[..n], s[n..]);
  }

  lemma TakeDrop(s: seq<Byte>, n: nat)
    requires n <= |s|
    ensures s == s[..n] + s[n..]
  {
  }

  lemma TakeLeft(f: seq<Byte>, c: seq<Byte>, n: nat)
    requires n <= |f|
    ensures (f + c)[..n] == f[..n]
  {
  }

  /** The oldest record goes. */
  lemma LaidDrop(bytes: seq<Byte>, cap: nat, first: nat, rs: seq<Record>)
    requires Laid(bytes, cap, first, rs) && rs != []
    ensures Laid(bytes, cap, first + |Frame(rs[0])|, rs[1..])
    ensures |Frames(rs)| == |Frame(rs[0])| + |Frames(rs[1..])|
  {
    HoldsPart(bytes, cap, first, Frame(rs[0]), Frames(rs[1..]));
  }

  /** `bytes'` is `bytes` with `f` written round the ring at offset `at`. */
  ghost predicate Written(bytes: seq<Byte>, bytes': seq<Byte>, cap: nat, at: nat, f: seq<Byte>) {
    && 0 < cap <= |bytes| == |bytes'| && |f| <= cap
    && Ring(bytes', cap, at, |f|) == f
    && forall x :: 0 <= x < |bytes| && Clear(x, at, |f|, cap) ==> bytes'[x] == bytes[x]
  }

  ghost predicate Clear(x: nat, at: nat, n: nat, cap: nat)
    requires cap > 0
  {
    forall i :: 0 <= i < n ==> x != Spot(at, i, cap)
  }

  /** What stands before the written part, less than once round, is untouched. */
  lemma RingKept(bytes: seq<Byte>, bytes': seq<Byte>, cap: nat, first: nat, a: nat, f: seq<Byte>)
    requires Written(bytes, bytes', cap, first + a, f) && a + |f| <= cap
    ensures Ring(bytes', cap, first, a) == Ring(bytes, cap, first, a)
  {
    var r', r, at := Ring(bytes', cap, first, a), Ring(bytes, cap, first, a), first + a;
    forall k | 0 <= k < a ensures r'[k] == r[k] {
      var x := Spot(first, k, cap);
      forall i | 0 <= i < |f| ensures x != Spot(at, i, cap) {
        TurnDistinct(first + k, at + i, cap);
      }
      assert Clear(x, at, |f|, cap);
    }
  }

  lemma RingJoin(bytes: seq<Byte>, cap: nat, off: nat, a: nat, b: nat)
    requires 0 < cap <= |bytes|
    ensures Ring(bytes, cap, off, a + b) == Ring(bytes, cap, off, a) + Ring(bytes, cap, off + a, b)
  {
    var all, l, r := Ring(bytes, cap, off, a + b), Ring(bytes, cap, off, a), Ring(bytes, cap, off + a, b);
    forall k | 0 <= k < a + b ensures all[k] == (l + r)[k] {
      if k >= a {
        assert (l + r)[k] == r[k - a];
        assert off + k == (off + a) + (k - a);
      }
    }
  }

  /** Bytes written behind others, into free space. */
  lemma HoldsAppend(bytes: seq<Byte>, bytes': seq<Byte>, cap: nat, first: nat, s: seq<Byte>, f: seq<Byte>)
    requires Written(bytes, bytes', cap, first + |s|, f) && |s| + |f| <= cap
    requires Holds(bytes, cap, first, s)
    ensures Holds(bytes', cap, first, s + f)
  {
    RingKept(bytes, bytes', cap, first, |s|, f);
    RingJoin(bytes', cap, first, |s|, |f|);
  }

  lemma FramesLast(rs: seq<Record>, r: Record)
    ensures Frames(rs + [r]) == Frames(rs) + Frame(r)
  {
    FramesJoin(rs, [r]);
    FramesOne(r);
  }

  /** The test the eviction loop makes, with `start` and `end` taken round the ring. */
  predicate Overlaps(firstWrapped: nat, start: nat, end: nat) {
    if end <= start then !(end <= firstWrapped && firstWrapped < start)
    else !(end <= firstWrapped) && !(start > firstWrapped)
  }

  /** The oldest record is in the way exactly when the new frame does not fit behind the last. */
  lemma OverlapMeans(first: nat, last: nat, size: nat, cap: nat)
    requires 0 < cap && first < last <= first + cap && 0 < size < cap
    ensures var start := Turn(last, cap);
            Overlaps(Turn(first, cap), start, Turn(start + size, cap)) <==> last + size - first > cap
  {
    TurnStep(first, last - first, cap);
    TurnStep(Turn(last, cap), size, cap);
  }

  /** Reading round the ring, as one slice or two. */
  function Slices(bytes: seq<Byte>, cap: nat, start: nat, n: nat): seq<Byte>
    requires start < cap && n <= cap <= |bytes|
  {
    var end := start + n;
    if end > cap then bytes[start..cap] + bytes[..end - cap] else bytes[start..end]
  }

  lemma SlicesRing(bytes: seq<Byte>, cap: nat, off: nat, n: nat)
    requires n <= cap <= |bytes| && 0 < cap
    ensures Slices(bytes, cap, Turn(off, cap), n) == Ring(bytes, cap, off, n)
  {
    var s, r := Slices(bytes, cap, Turn(off, cap), n), Ring(bytes, cap, off, n);
    forall i | 0 <= i < n ensures s[i] == r[i] { TurnStep(off, i, cap); }
  }

  /** Writing round the ring, in one piece or two. */
  ghost function Overwritten(bytes: seq<Byte>, cap: nat, start: nat, f: seq<Byte>): (r: seq<Byte>)
    requires |f| <= cap <= |bytes| && start < cap
    ensures |r| == |bytes| && (f == [] ==> r == bytes)
  {
    var fit := if start + |f| > cap then cap - start else |f|;
    f[fit..] + bytes[|f| - fit..start] + f[..fit] + bytes[start + fit..]
  }

  /** Two copies, or one, do it. */
  lemma TwoCopies(bytes: seq<Byte>, cap: nat, start: nat, f: seq<Byte>, fit: nat, once: seq<Byte>, twice: seq<Byte>)
    requires |f| <= cap <= |bytes| && start < cap && fit == if start + |f| > cap then cap - start else |f|
    requires once == bytes[..start] + f[..fit] + bytes[start + fit..]
    requires twice == once[..0] + f[fit..] + once[|f[fit..]|..]
    ensures start + |f| > cap ==> twice == Overwritten(bytes, cap, start, f)
    ensures start + |f| <= cap ==> once == Overwritten(bytes, cap, start, f)
  {
    if start + |f| > cap {
      var tail := |f| - fit;
      assert once[tail..] == bytes[tail..start] + f[..fit] + bytes[start + fit..];
    }
  }

  lemma OverwrittenWithin(bytes: seq<Byte>, cap: nat, start: nat, f: seq<Byte>)
    requires |f| <= cap <= |bytes| && start < cap
    ensures Overwritten(bytes, cap, start, f)[..cap] == Overwritten(bytes[..cap], cap, start, f)
  {
  }

  lemma OverwrittenWritten(bytes: seq<Byte>, cap: nat, at: nat, f: seq<Byte>)
    requires 0 < |f| <= cap <= |bytes|
    ensures Written(bytes, Overwritten(bytes, cap, Turn(at, cap), f), cap, at, f)
  {
    var start := Turn(at, cap);
    var r := Overwritten(bytes, cap, start, f);
    var ring := Ring(r, cap, at, |f|);
    forall i | 0 <= i < |f| ensures ring[i] == f[i] {
      SpotIs(at, i, cap, start);
    }
    forall x | 0 <= x < |bytes| && Clear(x, at, |f|, cap) ensures r[x] == bytes[x] {
      NotHit(x, at, |f|, cap, start);
    }
  }

  lemma SpotIs(off: nat, i: nat, cap: nat, start: nat)
    requires 0 < cap && i <= cap && start == Turn(off, cap)
    ensures Spot(off, i, cap) == if start + i < cap then start + i else start + i - cap
  {
    TurnStep(off, i, cap);
  }

  lemma NotHit(x: nat, at: nat, n: nat, cap: nat, start: nat)
    requires 0 < cap && Clear(x, at, n, cap) && n <= cap && start == Turn(at, cap)
    ensures !(start <= x < start + n && x < cap) && !(x + cap < start + n)
  {
    if start <= x < start + n && x < cap {
      SpotIs(at, x - start, cap, start);
    }
    if x + cap < start + n {
      SpotIs(at, x + cap - start, cap, start);
    }
  }

  /** Only the ring itself matters. */
  lemma LaidWithin(bytes: seq<Byte>, bytes': seq<Byte>, cap: nat, first: nat, rs: seq<Record>)
    requires Laid(bytes, cap, first, rs) && cap <= |bytes'| && bytes'[..cap] == bytes[..cap]
    ensures Laid(bytes', cap, first, rs)
  {
    RingWithin(bytes, bytes', cap, first, |Frames(rs)|);
  }

  lemma RingWithin(bytes: seq<Byte>, bytes': seq<Byte>, cap: nat, first: nat, n: nat)
    requires cap <= |bytes| && cap <= |bytes'| && bytes'[..cap] == bytes[..cap]
    ensures cap > 0 ==> Ring(bytes', cap, first, n) == Ring(bytes, cap, first, n)
  {
    if cap > 0 {
      var r', r := Ring(bytes', cap, first, n), Ring(bytes, cap, first, n);
      forall i | 0 <= i < n ensures r'[i] == r[i] {
        assert bytes'[..cap][Spot(first, i, cap)] == bytes[..cap][Spot(first, i, cap)];
      }
    }
  }

  // ----- the metadata behind the ring -----

  function Meta(first: nat, last: nat, nextSeq: nat, biggest: nat, length: nat): (m: seq<Byte>)
    ensures |m| == 36
  {
    Put(first, 8) + Put(last, 8) + Put(nextSeq, 8) + Put(biggest, 4) + Put(length, 8)
  }

  lemma MetaParts(first: nat, last: nat, nextSeq: nat, biggest: nat, length: nat)
    requires first < U64 && last < U64 && nextSeq < U64 && biggest < U32 && length < U64
    ensures var m := Meta(first, last, nextSeq, biggest, length);
            && Get(m[..8]) == first && Get(m[8..16]) == last && Get(m[16..24]) == nextSeq
            && Get(m[24..28]) == biggest && Get(m[28..36]) == length
  {
    Widths();
    GetPutFits(first, 8);
    GetPutFits(last, 8);
    GetPutFits(nextSeq, 8);
    GetPutFits(biggest, 4);
    GetPutFits(length, 8);
    FiveParts(Put(first, 8), Put(last, 8), Put(nextSeq, 8), Put(biggest, 4), Put(length, 8));
  }

  lemma FiveParts(a: seq<Byte>, b: seq<Byte>, c: seq<Byte>, d: seq<Byte>, e: seq<Byte>)
    requires |a| == |b| == |c| == |e| == 8 && |d| == 4
    ensures var m := a + b + c + d + e;
            m[..8] == a && m[8..16] == b && m[16..24] == c && m[24..28] == d && m[28..36] == e
  {
  }
}
