/** Messages laid across arenas of a fixed size. */
module BigQueueLayout {
  import opened Arithmetic
  import opened RingFormat

  /** A place: an arena and an offset in it. */
  datatype Place = Place(aid: nat, off: nat)

  /** The bytes in the length field before a message. */
  const WORD: nat := 8

  type Files = map<nat, seq<Byte>>

  /** What an arena holds: its file, or zeros where there is none yet. */
  ghost function Arena(files: Files, size: nat, aid: nat): (r: seq<Byte>)
    ensures |r| == size
  {
    if aid in files && |files[aid]| == size then files[aid] else seq(size, _ => 0)
  }

  ghost predicate Sits(p: Place, size: nat) { p.off < size }

  ghost predicate NotAfter(p: Place, q: Place) { p.aid < q.aid || (p.aid == q.aid && p.off <= q.off) }

  /** The place `n` bytes on. */
  ghost function Advance(size: nat, p: Place, n: nat): (q: Place)
    requires Sits(p, size)
    ensures Sits(q, size) && NotAfter(p, q) && (n > 0 ==> p != q)
    decreases n
  {
    if p.off + n < size then Place(p.aid, p.off + n) else Advance(size, Place(p.aid + 1, 0), n - (size - p.off))
  }

  /** The `n` bytes from a place on. */
  ghost function Stream(files: Files, size: nat, p: Place, n: nat): (s: seq<Byte>)
    requires Sits(p, size)
    ensures |s| == n
    decreases n
  {
    var a := Arena(files, size, p.aid);
    if p.off + n < size then a[p.off..p.off + n]
    else a[p.off..] + Stream(files, size, Place(p.aid + 1, 0), n - (size - p.off))
  }

  /** Where the length field of a message at `p` is: it is never broken across arenas. */
  ghost function FieldAt(size: nat, p: Place): Place {
    if p.off + WORD > size then Place(p.aid + 1, 0) else p
  }

  /** Where the message itself starts. */
  ghost function BodyAt(size: nat, p: Place): (q: Place)
    requires WORD <= size && Sits(p, size)
    ensures Sits(q, size) && NotAfter(p, q) && p != q
  {
    Advance(size, FieldAt(size, p), WORD)
  }

  ghost function Field(files: Files, size: nat, p: Place): (s: seq<Byte>)
    requires WORD <= size && Sits(p, size)
  {
    var q := FieldAt(size, p);
    Arena(files, size, q.aid)[q.off..q.off + WORD]
  }

  /** Where the next message starts, after one of `n` bytes at `p`. */
  ghost function After(size: nat, p: Place, n: nat): (q: Place)
    requires WORD <= size && Sits(p, size)
    ensures Sits(q, size) && NotAfter(p, q) && p != q
  {
    Advance(size, BodyAt(size, p), n)
  }

  /** Message `m` lies at `p`. */
  ghost predicate Lies(files: Files, size: nat, p: Place, m: seq<Byte>)
    requires WORD <= size && Sits(p, size)
  {
    Field(files, size, p) == Put(|m|, WORD) && Stream(files, size, BodyAt(size, p), |m|) == m
  }

  /** The messages lie one after the other from `p` to `q`. */
  ghost predicate Laid(files: Files, size: nat, p: Place, msgs: seq<seq<Byte>>, q: Place)
    requires WORD <= size && Sits(p, size)
    decreases |msgs|
  {
    if msgs == [] then p == q
    else Lies(files, size, p, msgs[0]) && Laid(files, size, After(size, p, |msgs[0]|), msgs[1..], q)
  }

  // ----- places -----

  /** Division finds the place too. */
  lemma {:induction false} AdvanceDiv(size: nat, p: Place, n: nat)
    requires Sits(p, size)
    ensures (p.off + n) / size >= 0
    ensures Advance(size, p, n) == Place(p.aid + (p.off + n) / size, (p.off + n) % size)
    decreases n
  {
    if p.off + n < size {
      DivIs(p.off + n, size, 0, p.off + n);
    } else {
      var rest := n - (size - p.off);
      AdvanceDiv(size, Place(p.aid + 1, 0), rest);
      var q, r := rest / size, rest % size;
      assert rest == q * size + r;
      assert (q + 1) * size == q * size + size;
      DivIs(p.off + n, size, q + 1, r);
    }
  }

  lemma {:induction false} AdvanceTwice(size: nat, p: Place, n: nat, k: nat)
    requires Sits(p, size)
    ensures Advance(size, Advance(size, p, n), k) == Advance(size, p, n + k)
    decreases n
  {
    if p.off + n >= size {
      AdvanceTwice(size, Place(p.aid + 1, 0), n - (size - p.off), k);
    }
  }

  lemma Cut(a: seq<Byte>, i: nat, j: nat, k: nat)
    requires i <= j <= k <= |a|
    ensures a[i..k] == a[i..j] + a[j..k]
  {
  }

  lemma CutRest(a: seq<Byte>, i: nat, j: nat)
    requires i <= j <= |a|
    ensures a[i..] == a[i..j] + a[j..]
  {
  }

  /** A stream that leaves its arena, with `m` bytes to come. */
  lemma StreamOver(files: Files, size: nat, p: Place, n: nat, m: nat)
    requires Sits(p, size) && p.off + n == size + m
    ensures Stream(files, size, p, n) ==
            Arena(files, size, p.aid)[p.off..] + Stream(files, size, Place(p.aid + 1, 0), m)
    ensures Advance(size, p, n) == Advance(size, Place(p.aid + 1, 0), m)
  {
    assert n - (size - p.off) == m;
  }

  lemma {:induction false} StreamTwice(files: Files, size: nat, p: Place, n: nat, k: nat, sum: nat)
    requires Sits(p, size) && sum == n + k
    ensures Stream(files, size, p, sum) == Stream(files, size, p, n) + Stream(files, size, Advance(size, p, n), k)
    decreases n
  {
    if p.off + n < size {
      StreamWithin(files, size, p, n, k, sum);
    } else {
      var next, m := Place(p.aid + 1, 0), p.off + n - size;
      StreamTwice(files, size, next, m, k, m + k);
      StreamOver(files, size, p, sum, m + k);
      StreamOver(files, size, p, n, m);
      Associative(Arena(files, size, p.aid)[p.off..], Stream(files, size, next, m),
                  Stream(files, size, Advance(size, next, m), k));
    }
  }

  lemma StreamShort(files: Files, size: nat, p: Place, n: nat, end: nat)
    requires Sits(p, size) && p.off + n == end < size
    ensures Stream(files, size, p, n) == Arena(files, size, p.aid)[p.off..end]
  {
  }

  lemma StreamWithin(files: Files, size: nat, p: Place, n: nat, k: nat, sum: nat)
    requires Sits(p, size) && p.off + n < size && sum == n + k
    ensures Stream(files, size, p, sum) == Stream(files, size, p, n) + Stream(files, size, Place(p.aid, p.off + n), k)
  {
    var a, m := Arena(files, size, p.aid), p.off + n;
    var q := Place(p.aid, m);
    StreamShort(files, size, p, n, m);
    if m + k < size {
      Cut(a, p.off, m, m + k);
      StreamShort(files, size, q, k, m + k);
      StreamShort(files, size, p, sum, m + k);
    } else {
      var rest := m + k - size;
      CutRest(a, p.off, m);
      StreamOver(files, size, p, sum, rest);
      StreamOver(files, size, q, k, rest);
      Chain(Stream(files, size, p, sum), a[p.off..], Stream(files, size, p, n), Stream(files, size, q, k),
            a[p.off..m], a[m..], Stream(files, size, Place(p.aid + 1, 0), rest));
    }
  }

  lemma Chain(s: seq<Byte>, t: seq<Byte>, u: seq<Byte>, v: seq<Byte>, x: seq<Byte>, y: seq<Byte>, r: seq<Byte>)
    requires s == t + r && t == x + y && u == x && v == y + r
    ensures s == u + v
  {
  }

  // ----- what a write leaves alone -----

  /** The arenas from `lo` on agree before place `q`. */
  ghost predicate Agree(files: Files, files': Files, size: nat, lo: nat, q: Place) {
    && q.off <= size
    && (forall a :: lo <= a < q.aid ==> Arena(files', size, a) == Arena(files, size, a))
    && (lo <= q.aid ==> Arena(files', size, q.aid)[..q.off] == Arena(files, size, q.aid)[..q.off])
  }

  lemma {:induction false} StreamKept(files: Files, files': Files, size: nat, lo: nat, q: Place, p: Place, n: nat)
    requires Agree(files, files', size, lo, q) && Sits(p, size) && lo <= p.aid && NotAfter(Advance(size, p, n), q)
    ensures Stream(files', size, p, n) == Stream(files, size, p, n)
    decreases n
  {
    var a, a' := Arena(files, size, p.aid), Arena(files', size, p.aid);
    if p.off + n < size {
      assert p.aid == q.aid ==> a[..q.off][p.off..p.off + n] == a[p.off..p.off + n];
      assert p.aid == q.aid ==> a'[..q.off][p.off..p.off + n] == a'[p.off..p.off + n];
    } else {
      StreamKept(files, files', size, lo, q, Place(p.aid + 1, 0), n - (size - p.off));
    }
  }

  lemma AgreeLess(files: Files, files': Files, size: nat, lo: nat, q: Place, q': Place)
    requires Agree(files, files', size, lo, q) && NotAfter(q', q) && Sits(q', size)
    ensures Agree(files, files', size, lo, q')
  {
    if q'.aid == q.aid && lo <= q.aid {
      var a, a' := Arena(files, size, q.aid), Arena(files', size, q.aid);
      assert a[..q'.off] == a[..q.off][..q'.off] && a'[..q'.off] == a'[..q.off][..q'.off];
    }
  }

  lemma AgreeTwice(one: Files, two: Files, three: Files, size: nat, lo: nat, q: Place, q': Place)
    requires Agree(one, two, size, lo, q) && Agree(two, three, size, lo, q') && NotAfter(q, q') && Sits(q, size)
    ensures Agree(one, three, size, lo, q)
  {
    AgreeLess(two, three, size, lo, q', q);
  }

  lemma FieldKept(files: Files, files': Files, size: nat, lo: nat, q: Place, p: Place)
    requires WORD <= size && Sits(p, size)
    requires Agree(files, files', size, lo, q) && lo <= p.aid && NotAfter(BodyAt(size, p), q)
    ensures Field(files', size, p) == Field(files, size, p)
  {
    var f := FieldAt(size, p);
    var a, a' := Arena(files, size, f.aid), Arena(files', size, f.aid);
    if f.aid == q.aid {
      assert a[..q.off][f.off..f.off + WORD] == a[f.off..f.off + WORD];
      assert a'[..q.off][f.off..f.off + WORD] == a'[f.off..f.off + WORD];
    }
  }

  lemma LiesKept(files: Files, files': Files, size: nat, lo: nat, q: Place, p: Place, m: seq<Byte>)
    requires WORD <= size && Sits(p, size) && Lies(files, size, p, m)
    requires Agree(files, files', size, lo, q) && lo <= p.aid && NotAfter(After(size, p, |m|), q)
    ensures Lies(files', size, p, m)
  {
    FieldKept(files, files', size, lo, q, p);
    StreamKept(files, files', size, lo, q, BodyAt(size, p), |m|);
  }

  /** Messages lie in order, and there are none just when the places are the same. */
  lemma {:induction false} LaidOrder(files: Files, size: nat, p: Place, msgs: seq<seq<Byte>>, q: Place)
    requires WORD <= size && Sits(p, size) && Laid(files, size, p, msgs, q)
    ensures NotAfter(p, q) && Sits(q, size) && (msgs == [] <==> p == q)
    decreases |msgs|
  {
    if msgs != [] {
      LaidOrder(files, size, After(size, p, |msgs[0]|), msgs[1..], q);
    }
  }

  lemma {:induction false} LaidKept(files: Files, files': Files, size: nat, lo: nat, p: Place, msgs: seq<seq<Byte>>,
                                    q: Place)
    requires WORD <= size && Sits(p, size) && Laid(files, size, p, msgs, q)
    requires Agree(files, files', size, lo, q) && lo <= p.aid
    ensures Laid(files', size, p, msgs, q)
    decreases |msgs|
  {
    if msgs != [] {
      var next := After(size, p, |msgs[0]|);
      LaidOrder(files, size, next, msgs[1..], q);
      LiesKept(files, files', size, lo, q, p, msgs[0]);
      LaidKept(files, files', size, lo, next, msgs[1..], q);
    }
  }

  lemma {:induction false} LaidMore(files: Files, size: nat, p: Place, msgs: seq<seq<Byte>>, q: Place, m: seq<Byte>)
    requires WORD <= size && Sits(p, size) && Sits(q, size) && Laid(files, size, p, msgs, q) && Lies(files, size, q, m)
    ensures Laid(files, size, p, msgs + [m], After(size, q, |m|))
    decreases |msgs|
  {
    if msgs == [] {
      assert [m][1..] == [] && msgs + [m] == [m];
    } else {
      LaidMore(files, size, After(size, p, |msgs[0]|), msgs[1..], q, m);
      assert (msgs + [m])[1..] == msgs[1..] + [m];
    }
  }

  // ----- writing -----

  /** An arena with `s` written over it. */
  function Patched(a: seq<Byte>, off: nat, s: seq<Byte>): (r: seq<Byte>)
    requires off + |s| <= |a|
    ensures |r| == |a| && r[..off] == a[..off] && r[off..off + |s|] == s
  {
    a[..off] + s + a[off + |s|..]
  }

  lemma PatchAgrees(files: Files, size: nat, lo: nat, aid: nat, off: nat, s: seq<Byte>)
    requires aid in files && |files[aid]| == size && off + |s| <= size
    ensures Agree(files, files[aid := Patched(files[aid], off, s)], size, lo, Place(aid, off))
    ensures Arena(files[aid := Patched(files[aid], off, s)], size, aid)[off..off + |s|] == s
  {
  }

  /** The stream grows by what is written at its end. */
  lemma StreamGrows(files: Files, files': Files, size: nat, lo: nat, p: Place, n: nat, aid: nat, off: nat, s: seq<Byte>)
    requires Sits(p, size) && lo <= p.aid && Advance(size, p, n) == Place(aid, off) && off + |s| <= size
    requires Agree(files, files', size, lo, Place(aid, off)) && Arena(files', size, aid)[off..off + |s|] == s
    ensures Stream(files', size, p, n + |s|) == Stream(files, size, p, n) + s
    ensures Advance(size, p, n + |s|) == if off + |s| == size then Place(aid + 1, 0) else Place(aid, off + |s|)
  {
    var q := Place(aid, off);
    StreamKept(files, files', size, lo, q, p, n);
    StreamTwice(files', size, p, n, |s|, n + |s|);
    AdvanceTwice(size, p, n, |s|);
    if off + |s| == size {
      StreamOver(files', size, q, |s|, 0);
      assert Stream(files', size, Place(aid + 1, 0), 0) == [];
    } else {
      StreamShort(files', size, q, |s|, off + |s|);
    }
  }
}
