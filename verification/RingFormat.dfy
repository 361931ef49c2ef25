/** Frames of the ring log, and byte strings laid round a ring. */
module RingFormat {
  import opened Arithmetic

  type Byte = b: int | 0 <= b < 256

  // ----- little-endian numbers -----

  function Pow256(k: nat): (p: nat)
    ensures p > 0
  {
    if k == 0 then 1 else 256 * Pow256(k - 1)
  }

  /** Byte `i` of a number. */
  function Digit(n: nat, i: nat): Byte {
    if i == 0 then n % 256 else Digit(n / 256, i - 1)
  }

  function Put(n: nat, k: nat): (s: seq<Byte>)
    ensures |s| == k
  {
    seq(k, i requires 0 <= i < k => Digit(n, i))
  }

  function Get(s: seq<Byte>): nat {
    if s == [] then 0 else s[0] + 256 * Get(s[1..])
  }

  /** A number reads back reduced to the bytes it was given. */
  lemma {:induction false} GetPut(n: nat, k: nat)
    ensures Get(Put(n, k)) < Pow256(k) && exists q: nat :: n == Get(Put(n, k)) + q * Pow256(k)
  {
    if k == 0 {
      assert n == 0 + n * Pow256(0);
    } else {
      GetPut(n / 256, k - 1);
      var r, p := Get(Put(n / 256, k - 1)), Pow256(k - 1);
      var q: nat :| n / 256 == r + q * p;
      PutStep(n, k);
      Shift(n, r, q, p);
      assert n == Get(Put(n, k)) + q * Pow256(k);
    }
  }

  lemma PutStep(n: nat, k: nat)
    requires k > 0
    ensures Put(n, k)[0] == n % 256 && Put(n, k)[1..] == Put(n / 256, k - 1)
  {
  }

  lemma Shift(n: nat, r: nat, q: nat, p: nat)
    requires n / 256 == r + q * p
    ensures n == n % 256 + 256 * r + q * (256 * p)
  {
    assert 256 * (r + q * p) == 256 * r + q * (256 * p);
  }

  lemma GetPutFits(n: nat, k: nat)
    requires n < Pow256(k)
    ensures Get(Put(n, k)) == n
  {
    GetPut(n, k);
    var q: nat :| n == Get(Put(n, k)) + q * Pow256(k);
    SmallMultiple(q, Pow256(k));
  }

  const U32: nat := 0x1_0000_0000
  const U64: nat := 0x1_0000_0000_0000_0000

  lemma Widths()
    ensures Pow256(4) == U32 && Pow256(8) == U64
  {
    assert Pow256(2) == 65536;
    assert Pow256(4) == U32;
    assert Pow256(6) == 0x1_0000_0000_0000;
  }

  // ----- frames -----

  const SIZE: nat := 4
  const SEQUENCE: nat := 8
  const TOTAL: nat := 12

  /** The most data a frame is allowed to carry. */
  const MAX_BYTES: nat := U32 - TOTAL

  datatype Record = Record(seqNo: nat, data: seq<Byte>)

  /** The size field holds the frame's length cut to 32 bits. */
  function Frame(r: Record): (f: seq<Byte>)
    ensures |f| == TOTAL + |r.data|
  {
    Put((|r.data| + TOTAL) % U32, SIZE) + Put(r.seqNo, SEQUENCE) + r.data
  }

  function SizeOf(f: seq<Byte>): nat { if |f| < SIZE then 0 else Get(f[..SIZE]) }

  function SeqOf(f: seq<Byte>): nat { if |f| < TOTAL then 0 else Get(f[SIZE..TOTAL]) }

  function DataOf(f: seq<Byte>): seq<Byte> { if |f| < TOTAL then [] else f[TOTAL..] }

  lemma FrameParts(r: Record)
    ensures Frame(r)[..SIZE] == Put((|r.data| + TOTAL) % U32, SIZE)
    ensures Frame(r)[SIZE..TOTAL] == Put(r.seqNo, SEQUENCE)
    ensures DataOf(Frame(r)) == r.data
  {
  }

  /** The size field tells the length of the frame just when the data is short of the limit:
      at the limit itself, which is let through, the field wraps to zero. */
  lemma FrameSize(r: Record)
    requires |r.data| <= MAX_BYTES
    ensures SizeOf(Frame(r)) == |Frame(r)| <==> |r.data| < MAX_BYTES
    ensures |r.data| == MAX_BYTES ==> SizeOf(Frame(r)) == 0
  {
    FrameParts(r);
    Widths();
    GetPutFits((|r.data| + TOTAL) % U32, SIZE);
  }

  lemma FrameSeq(r: Record)
    requires r.seqNo < U64
    ensures SeqOf(Frame(r)) == r.seqNo
  {
    FrameParts(r);
    Widths();
    GetPutFits(r.seqNo, SEQUENCE);
  }

  /** Records as they follow one another. */
  ghost function Frames(rs: seq<Record>): seq<Byte> {
    if rs == [] then [] else Frame(rs[0]) + Frames(rs[1..])
  }

  lemma {:induction false} FramesJoin(a: seq<Record>, b: seq<Record>)
    ensures Frames(a + b) == Frames(a) + Frames(b)
  {
    if a == [] {
      assert a + b == b;
    } else {
      FramesJoin(a[1..], b);
      assert (a + b)[1..] == a[1..] + b;
      Associative(Frame(a[0]), Frames(a[1..]), Frames(b));
    }
  }

  lemma Associative(x: seq<Byte>, y: seq<Byte>, z: seq<Byte>)
    ensures x + (y + z) == (x + y) + z
  {
  }

  ghost function DataSize(rs: seq<Record>): nat {
    if rs == [] then 0 else |rs[0].data| + DataSize(rs[1..])
  }

  lemma {:induction false} DataSizeJoin(a: seq<Record>, b: seq<Record>)
    ensures DataSize(a + b) == DataSize(a) + DataSize(b)
  {
    if a == [] {
      assert a + b == b;
    } else {
      DataSizeJoin(a[1..], b);
      assert (a + b)[1..] == a[1..] + b;
    }
  }

  lemma {:induction false} DataFits(rs: seq<Record>)
    ensures DataSize(rs) <= |Frames(rs)|
  {
    if rs != [] {
      DataFits(rs[1..]);
    }
  }

  /** What is left of `rs` when the oldest make way until `need` more bytes fit. */
  ghost function Evicted(rs: seq<Record>, need: nat, capacity: nat): (r: seq<Record>)
    ensures |r| <= |rs|
  {
    if rs == [] || |Frames(rs)| + need <= capacity then rs else Evicted(rs[1..], need, capacity)
  }

  lemma {:induction false} EvictedSuffix(rs: seq<Record>, need: nat, capacity: nat)
    ensures var r := Evicted(rs, need, capacity); r == rs[|rs| - |r|..]
  {
    if rs != [] && |Frames(rs)| + need > capacity {
      EvictedSuffix(rs[1..], need, capacity);
    }
  }

  /** It is the longest suffix that fits. */
  lemma {:induction false} EvictedLongest(rs: seq<Record>, need: nat, capacity: nat, k: nat)
    requires k <= |rs| && need <= capacity
    ensures |Frames(Evicted(rs, need, capacity))| + need <= capacity
    ensures |Frames(rs[k..])| + need <= capacity ==> |rs| - k <= |Evicted(rs, need, capacity)|
  {
    if rs != [] && |Frames(rs)| + need > capacity {
      if k == 0 {
        assert rs[0..] == rs;
        EvictedLongest(rs[1..], need, capacity, 0);
      } else {
        EvictedLongest(rs[1..], need, capacity, k - 1);
        assert rs[1..][k - 1..] == rs[k..];
      }
    }
  }

  // ----- byte strings round a ring -----

  /** Where offset `x` falls on a ring of `cap` bytes. */
  ghost function Turn(x: nat, cap: nat): (y: nat)
    requires cap > 0
    ensures y < cap
  {
    if x < cap then x else Turn(x - cap, cap)
  }

  lemma {:induction false} TurnMod(x: nat, cap: nat)
    requires cap > 0
    ensures Turn(x, cap) == x % cap
    decreases x
  {
    if x < cap {
      DivIs(x, cap, 0, x);
    } else {
      TurnMod(x - cap, cap);
      var q := (x - cap) / cap;
      assert x == (q + 1) * cap + (x - cap) % cap;
      DivIs(x, cap, q + 1, (x - cap) % cap);
    }
  }

  ghost function Spot(at: nat, i: nat, cap: nat): nat
    requires cap > 0
  {
    Turn(at + i, cap)
  }

  /** `n` bytes from offset `off` on, wrapping at `cap`. */
  ghost function Ring(bytes: seq<Byte>, cap: nat, off: nat, n: nat): (s: seq<Byte>)
    requires 0 < cap <= |bytes|
    ensures |s| == n && forall i :: 0 <= i < n ==> s[i] == bytes[Spot(off, i, cap)]
  {
    seq(n, i requires 0 <= i < n => bytes[Spot(off, i, cap)])
  }

  /** Going `d` bytes on from `x`, at most once round. */
  lemma ModStep(x: nat, d: nat, cap: nat)
    requires 0 < cap && d <= cap
    ensures (x + d) % cap == if x % cap + d < cap then x % cap + d else x % cap + d - cap
  {
    var q, r := x / cap, x % cap;
    assert x == q * cap + r;
    if r + d < cap {
      DivIs(x + d, cap, q, r + d);
    } else {
      assert x + d == (q + 1) * cap + (r + d - cap);
      DivIs(x + d, cap, q + 1, r + d - cap);
    }
  }

  lemma TurnStep(x: nat, d: nat, cap: nat)
    requires 0 < cap && d <= cap
    ensures Turn(x + d, cap) == if Turn(x, cap) + d < cap then Turn(x, cap) + d else Turn(x, cap) + d - cap
  {
    TurnMod(x, cap);
    TurnMod(x + d, cap);
    ModStep(x, d, cap);
  }

  lemma TurnDistinct(x: nat, y: nat, cap: nat)
    requires 0 < cap && x < y < x + cap
    ensures Turn(x, cap) != Turn(y, cap)
  {
    TurnStep(x, y - x, cap);
  }
}
