/** The weak checksum of a block, computed afresh and by sliding a window. */
module RsyncHash {

  type Byte = b: int | 0 <= b < 256

  const WORD := 0x1_0000_0000   // uint32 arithmetic wraps here
  const MOD := 0x1_0000

  function Wrap(x: int): (r: int)
    ensures 0 <= r < WORD
  {
    x % WORD
  }

  datatype Weak = Weak(r1: int, r2: int)

  /** The 32-bit checksum sent over the wire. */
  function Packed(w: Weak): int { Wrap(w.r1 + Wrap(MOD * w.r2)) }

  // ----- the mathematical sums -----

  ghost function Sum(s: seq<Byte>): int {
    if s == [] then 0 else Sum(s[..|s| - 1]) + s[|s| - 1]
  }

  /** Every byte times its distance from the end. */
  ghost function Weighted(s: seq<Byte>): int {
    if s == [] then 0 else Weighted(s[..|s| - 1]) + Sum(s)
  }

  ghost function WeakOf(s: seq<Byte>): Weak {
    Weak(Sum(s) % MOD, Weighted(s) % MOD)
  }

  lemma {:induction false} SumDrop(s: seq<Byte>)
    requires s != []
    ensures Sum(s[1..]) == Sum(s) - s[0]
    ensures Weighted(s[1..]) == Weighted(s) - |s| * s[0]
  {
    if |s| > 1 {
      var t := s[..|s| - 1];
      SumDrop(t);
      assert s[1..][..|s| - 2] == t[1..];
      assert (|s| - 1) * s[0] + s[0] == |s| * s[0];
    }
  }

  lemma SumAppend(s: seq<Byte>, b: Byte)
    ensures Sum(s + [b]) == Sum(s) + b
    ensures Weighted(s + [b]) == Weighted(s) + Sum(s) + b
  {
    assert (s + [b])[..|s|] == s;
  }

  // ----- wrapped arithmetic -----

  lemma WrapMod(x: int)
    ensures Wrap(x) % MOD == x % MOD
  {
  }

  lemma SameMod(x: int, y: int, k: int)
    requires x - y == k * MOD
    ensures x % MOD == y % MOD
  {
  }

  // ----- computing it afresh -----

  /** The weighted sum as the loop builds it: the byte at `i` counts `l - i` times. */
  ghost function Partial(s: seq<Byte>, l: int, i: nat): int
    requires i <= |s|
  {
    if i == 0 then 0 else Partial(s, l, i - 1) + (l - (i - 1)) * s[i - 1]
  }

  lemma {:induction false} PartialIs(s: seq<Byte>, l: int, i: nat)
    requires i <= |s|
    ensures Partial(s, l, i) == Weighted(s[..i]) + (l - i) * Sum(s[..i])
  {
    if i > 0 {
      PartialIs(s, l, i - 1);
      assert s[..i][..i - 1] == s[..i - 1];
      OneMore(l - i, Sum(s[..i - 1]), s[i - 1]);
    }
  }

  lemma OneMore(d: int, a: int, b: int)
    ensures (d + 1) * a + (d + 1) * b == a + b + d * (a + b)
  {
  }

  /** The loop's running sums, up to multiples of `MOD`. */
  ghost predicate Tracks(block: seq<Byte>, i: nat, a: int, b: int) {
    i <= |block| && a % MOD == Sum(block[..i]) % MOD && b % MOD == Partial(block, |block|, i) % MOD
  }

  function NextSum(a: int, v: Byte): int { Wrap(a + v) }

  function NextWeighted(b: int, l: int, i: int, v: Byte): int { Wrap(b + Wrap(Wrap(l - Wrap(i)) * v)) }

  lemma TracksNext(block: seq<Byte>, i: nat, a: int, b: int)
    requires Tracks(block, i, a, b) && i < |block|
    ensures Tracks(block, i + 1, NextSum(a, block[i]), NextWeighted(b, Wrap(|block|), i, block[i]))
  {
    assert block[..i + 1][..i] == block[..i];
    StepMod(a, Sum(block[..i]), block[i]);
    TermMod(b, Partial(block, |block|, i), |block|, i, block[i]);
  }

  method RollingHash(block: seq<Byte>) returns (w: Weak)
    ensures w == WeakOf(block)
  {
    var a, b := 0, 0;
    var l := Wrap(|block|);
    for i := 0 to |block|
      invariant Tracks(block, i, a, b)
    {
      TracksNext(block, i, a, b);
      a, b := NextSum(a, block[i]), NextWeighted(b, l, i, block[i]);
    }
    TracksAll(block, a, b);
    return Weak(a % MOD, b % MOD);
  }

  lemma TracksAll(block: seq<Byte>, a: int, b: int)
    requires Tracks(block, |block|, a, b)
    ensures Weak(a % MOD, b % MOD) == WeakOf(block)
  {
    assert block[..|block|] == block;
    PartialIs(block, |block|, |block|);
    assert (|block| - |block|) * Sum(block) == 0;
  }

  lemma StepMod(a: int, sum: int, v: int)
    requires a % MOD == sum % MOD
    ensures Wrap(a + v) % MOD == (sum + v) % MOD
  {
    WrapMod(a + v);
  }

  lemma TermMod(b: int, sum: int, len: int, i: int, v: int)
    requires b % MOD == sum % MOD
    ensures Wrap(b + Wrap(Wrap(Wrap(len) - Wrap(i)) * v)) % MOD == (sum + (len - i) * v) % MOD
  {
    var f := Wrap(Wrap(len) - Wrap(i));
    var q1, q2, q3 := len / WORD, i / WORD, (Wrap(len) - Wrap(i)) / WORD;
    assert f == len - i + (q2 - q1 - q3) * WORD;
    var k := q2 - q1 - q3;
    assert f * v == (len - i) * v + (k * v) * WORD by { Distribute(len - i, k, v); }
    var t := Wrap(f * v);
    WrapMod(f * v);
    WordMod((len - i) * v, k * v);
    StepMod(b, sum, t);
    assert t % MOD == ((len - i) * v) % MOD;
    AddMod(sum, t, (len - i) * v);
  }

  lemma Distribute(a: int, k: int, v: int)
    ensures (a + k * WORD) * v == a * v + (k * v) * WORD
  {
  }

  lemma WordMod(x: int, k: int)
    ensures (x + k * WORD) % MOD == x % MOD
  {
    SameMod(x + k * WORD, x, k * MOD);
  }

  lemma AddMod(a: int, x: int, y: int)
    requires x % MOD == y % MOD
    ensures (a + x) % MOD == (a + y) % MOD
  {
  }

  // ----- sliding a window -----

  function RollingHash2(l: int, w: Weak, outgoing: Byte, incoming: Byte): Weak {
    RollBy(l * outgoing, w, outgoing, incoming)
  }

  function RollBy(product: int, w: Weak, outgoing: Byte, incoming: Byte): Weak {
    var r1 := Wrap(Wrap(w.r1 - outgoing) + incoming) % MOD;
    var r2 := Wrap(Wrap(w.r2 - Wrap(product)) + r1) % MOD;
    Weak(r1, r2)
  }

  lemma RollingSums(product: int, a: int, b: int, outgoing: Byte, incoming: Byte)
    ensures RollBy(product, Weak(a % MOD, b % MOD), outgoing, incoming)
         == Weak((a - outgoing + incoming) % MOD, (b - product + (a - outgoing + incoming)) % MOD)
  {
    Rolled(a, outgoing, incoming);
    RolledWrapped(b, product, a - outgoing + incoming);
  }

  lemma RolledWrapped(b: int, off: int, on: int)
    ensures Wrap(Wrap(b % MOD - Wrap(off)) + on % MOD) % MOD == (b - off + on) % MOD
  {
    Rolled(b, Wrap(off), on % MOD);
    AddMod(b - Wrap(off), on % MOD, on);
    var k := off / WORD;
    assert Wrap(off) == off - k * WORD;
    WordMod(b - off + on, k);
  }

  lemma Rolled(x: int, off: int, on: int)
    ensures Wrap(Wrap(x % MOD - off) + on) % MOD == (x - off + on) % MOD
  {
    WrapMod(Wrap(x % MOD - off) + on);
    WrapMod(x % MOD - off);
    AddMod(on, Wrap(x % MOD - off), x % MOD - off);
    AddMod(on - off, x % MOD, x);
  }

  /** Sliding the window gives the checksum of the next window. */
  lemma SlideIsFresh(window: seq<Byte>, incoming: Byte)
    requires window != []
    ensures RollingHash2(Wrap(|window|), WeakOf(window), window[0], incoming) == WeakOf(window[1..] + [incoming])
  {
    SumDrop(window);
    SumAppend(window[1..], incoming);
    SlideSums(|window|, Sum(window), Weighted(window), window[0], incoming);
  }

  lemma SlideSums(l: int, a: int, b: int, o: Byte, incoming: Byte)
    ensures RollingHash2(Wrap(l), Weak(a % MOD, b % MOD), o, incoming)
         == Weak((a - o + incoming) % MOD, (b - l * o + (a - o + incoming)) % MOD)
  {
    var k := l / WORD;
    assert Wrap(l) == l - k * WORD;
    Distribute(l, -k, o);
    SlideProducts(l * o, Wrap(l) * o, -k * o, a, b, o, incoming);
  }

  lemma SlideProducts(p: int, q: int, k: int, a: int, b: int, o: Byte, incoming: Byte)
    requires q == p + k * WORD
    ensures RollBy(q, Weak(a % MOD, b % MOD), o, incoming)
         == Weak((a - o + incoming) % MOD, (b - p + (a - o + incoming)) % MOD)
  {
    RollingSums(q, a, b, o, incoming);
    WordMod(b - p + (a - o + incoming), -k);
  }

  /** By induction, any number of slides. */
  lemma {:induction false} SlidesAreFresh(data: seq<Byte>, n: nat, w: Weak, k: nat)
    requires 0 < n && n + k <= |data| && w == WeakOf(data[..n])
    ensures Slid(data, n, w, k) == WeakOf(data[k..k + n])
    decreases k
  {
    if k == 0 {
      assert data[0..n] == data[..n];
    } else {
      SlidesAreFresh(data, n, w, k - 1);
      var window := data[k - 1..k - 1 + n];
      SlideIsFresh(window, data[k - 1 + n]);
      assert window[1..] + [data[k - 1 + n]] == data[k..k + n];
    }
  }

  /** The checksum after sliding a window of length `n` by `k` bytes. */
  ghost function Slid(data: seq<Byte>, n: nat, w: Weak, k: nat): Weak
    requires 0 < n && n + k <= |data|
    decreases k
  {
    if k == 0 then w else RollingHash2(Wrap(n), Slid(data, n, w, k - 1), data[k - 1], data[k - 1 + n])
  }

  /** The window that shrinks at the end of the data: the byte passed as incoming is the last
      one of the window already, so the checksum is right only by coincidence. */
  lemma ShrunkWindow(window: seq<Byte>)
    requires 2 <= |window| < WORD
    ensures var last := window[|window| - 1];
            RollingHash2(|window| - 1, WeakOf(window), window[0], last) == WeakOf(window[1..])
            <==> last == 0 && Sum(window) % MOD == 0
  {
    var l, a, b, o, last := |window|, Sum(window), Weighted(window), window[0], window[|window| - 1];
    assert WeakOf(window[1..]) == Weak((a - o) % MOD, (b - l * o) % MOD) by { SumDrop(window); }
    ShrunkBy(l, a, b, o, last);
  }

  lemma ShrunkBy(l: int, a: int, b: int, o: Byte, last: Byte)
    ensures RollingHash2(l - 1, Weak(a % MOD, b % MOD), o, last) == Weak((a - o) % MOD, (b - l * o) % MOD)
            <==> last == 0 && a % MOD == 0
  {
    var product := l * o;
    assert (l - 1) * o == product - o;
    ShrunkSums(product, a, b, o, last);
  }

  lemma ShrunkSums(product: int, a: int, b: int, o: Byte, last: Byte)
    ensures RollBy(product - o, Weak(a % MOD, b % MOD), o, last) == Weak((a - o) % MOD, (b - product) % MOD)
            <==> last == 0 && a % MOD == 0
  {
    RollingSums(product - o, a, b, o, last);
    Shifted(a - o, last);
    Shifted(b - product, a + last);
  }

  lemma Shifted(x: int, d: int)
    ensures (x + d) % MOD == x % MOD <==> d % MOD == 0
  {
  }

  /** Both parts are below 65536, and can be read back from the packed checksum. */
  ghost predicate Small(w: Weak) { 0 <= w.r1 < MOD && 0 <= w.r2 < MOD }

  lemma PackedTells(v: Weak, w: Weak)
    requires Small(v) && Small(w)
    ensures Packed(v) == Packed(w) <==> v == w
  {
    assert Packed(v) == v.r1 + MOD * v.r2 && Packed(w) == w.r1 + MOD * w.r2;
  }

  lemma AllSmall(s: seq<Byte>, product: int, w: Weak, outgoing: Byte, incoming: Byte)
    ensures Small(WeakOf(s)) && Small(RollBy(product, w, outgoing, incoming))
  {
  }
}
