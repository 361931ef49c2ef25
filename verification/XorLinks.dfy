/** Doubly linked elements that keep one link, the exclusive or of their neighbours' addresses. */
module XorLinks {

  datatype Addr = Addr(bits: bv64)

  const NIL := Addr(0)

  type Op = (Addr, Addr) -> Addr

  function Mix(p: bv64, q: bv64): bv64 { p ^ q }

  function Xor(a: Addr, b: Addr): Addr { Addr(Mix(a.bits, b.bits)) }

  // ----- what is used of the operation -----

  ghost predicate Inverts(x: Op) { forall a, b :: x(a, x(a, b)) == b && x(b, x(a, b)) == a }

  ghost predicate HasNeutral(x: Op) { forall a :: x(NIL, a) == a && x(a, NIL) == a }

  ghost predicate Bridges(x: Op) { forall a, b, c :: x(x(a, b), x(b, c)) == x(a, c) && x(x(b, a), x(b, c)) == x(c, a) }

  ghost predicate Tells(x: Op) {
    forall a, b :: (x(a, b) == NIL <==> a == b) && (x(a, b) == a <==> b == NIL) && (x(a, b) == b <==> a == NIL)
  }

  ghost predicate Laws(x: Op) { Inverts(x) && HasNeutral(x) && Bridges(x) && Tells(x) }

  /** The same, out of sight of proofs that do not ask for it with `Obeys`. */
  ghost predicate Lawful(x: Op) { forall n: nat :: LawsNow(x, n) }

  ghost predicate LawsNow(x: Op, n: nat) { Laws(x) }

  lemma Obeys(x: Op)
    ensures Lawful(x) <==> Laws(x)
  {
    assert LawsNow(x, 0) == Laws(x);
  }

  lemma MixCancel(p: bv64, q: bv64)
    ensures Mix(p, Mix(p, q)) == q && Mix(q, Mix(p, q)) == p
  {
  }

  lemma MixNeutral(p: bv64)
    ensures Mix(0, p) == p && Mix(p, 0) == p
  {
  }

  lemma MixBridge(p: bv64, q: bv64, r: bv64)
    ensures Mix(Mix(p, q), Mix(q, r)) == Mix(p, r)
  {
  }

  lemma MixCommutes(p: bv64, q: bv64)
    ensures Mix(p, q) == Mix(q, p)
  {
  }

  lemma MixNothing(p: bv64, q: bv64)
    ensures Mix(p, q) == 0 <==> p == q
  {
    MixCancel(p, q);
    MixNeutral(q);
  }

  lemma MixSame(p: bv64, q: bv64)
    ensures Mix(p, q) == p <==> q == 0
  {
  }

  lemma XorInverts()
    ensures Inverts(Xor) && HasNeutral(Xor)
  {
    forall a: Addr, b: Addr { MixCancel(a.bits, b.bits); }
    forall a: Addr { MixNeutral(a.bits); }
  }

  lemma XorBridges()
    ensures Bridges(Xor)
  {
    forall a: Addr, b: Addr, c: Addr { MixBridge(a.bits, b.bits, c.bits); }
    forall a: Addr, b: Addr { MixCommutes(a.bits, b.bits); }
  }

  lemma XorTells()
    ensures Tells(Xor)
  {
    forall a: Addr, b: Addr { MixNothing(a.bits, b.bits); }
    forall a: Addr, b: Addr { MixSame(a.bits, b.bits); }
    forall a: Addr, b: Addr { MixCommutes(a.bits, b.bits); }
  }

  /** Exclusive or has all of it. */
  lemma XorObeys()
    ensures Lawful(Xor)
  {
    XorInverts();
    XorBridges();
    XorTells();
    Obeys(Xor);
  }

  // ----- elements in memory -----

  datatype Element = Element(pn: Addr, value: int)

  type Memory = map<Addr, Element>

  ghost function Before(spine: seq<Addr>, i: nat): Addr
    requires i < |spine|
  {
    if i == 0 then NIL else spine[i - 1]
  }

  ghost function After(spine: seq<Addr>, i: nat): Addr
    requires i < |spine|
  {
    if i + 1 == |spine| then NIL else spine[i + 1]
  }

  ghost predicate Distinct(spine: seq<Addr>) {
    forall i, j :: 0 <= i < j < |spine| ==> spine[i] != spine[j]
  }

  /** The link of the element at place `j` is right. */
  ghost predicate LinkedAt(x: Op, m: Memory, spine: seq<Addr>, j: nat)
    requires j < |spine|
  {
    spine[j] != NIL && spine[j] in m && m[spine[j]].pn == x(Before(spine, j), After(spine, j))
  }

  /** The elements of the spine, sentinels included, are linked in this order. */
  ghost predicate Linked(x: Op, m: Memory, spine: seq<Addr>) {
    && |spine| >= 2 && Distinct(spine)
    && (forall i :: 0 <= i < |spine| ==> spine[i] != NIL && spine[i] in m)
    && (forall i :: 0 <= i < |spine| ==> LinkedAt(x, m, spine, i))
  }

  /** The address reached, or a fault where there is no element. */
  datatype Reach = At(a: Addr) | Fault

  function Next(x: Op, m: Memory, e: Addr, prev: Addr): Reach {
    if e == NIL then At(NIL) else
    if e !in m then Fault else
    if m[e].pn == NIL then At(NIL) else
      var next := x(prev, m[e].pn);
      if next == NIL then At(NIL) else
      if next !in m then Fault else
      if m[next].pn == e then At(NIL) else At(next)
  }

  /** Going back is going on, from the other side. */
  function Prev(x: Op, m: Memory, e: Addr, next: Addr): Reach { Next(x, m, e, next) }

  /** Going on from an element, knowing the one before it, leads to the one after it, or to nothing where
      that would be the tail. */
  lemma NextIs(x: Op, m: Memory, spine: seq<Addr>, i: nat)
    requires Lawful(x) && Linked(x, m, spine) && i < |spine|
    ensures Next(x, m, spine[i], Before(spine, i)) == At(if i + 2 < |spine| then spine[i + 1] else NIL)
  {
    Obeys(x);
    var b, a := Before(spine, i), After(spine, i);
    assert LinkedAt(x, m, spine, i);
    assert m[spine[i]].pn == x(b, a) && x(b, x(b, a)) == a;
    if i + 1 < |spine| {
      assert LinkedAt(x, m, spine, i + 1);
    }
  }

  lemma PrevIs(x: Op, m: Memory, spine: seq<Addr>, i: nat)
    requires Lawful(x) && Linked(x, m, spine) && i < |spine|
    ensures Prev(x, m, spine[i], After(spine, i)) == At(if i >= 2 then spine[i - 1] else NIL)
  {
    Obeys(x);
    var b, a := Before(spine, i), After(spine, i);
    assert LinkedAt(x, m, spine, i);
    assert m[spine[i]].pn == x(b, a) && x(a, x(b, a)) == b;
    if i > 0 {
      assert LinkedAt(x, m, spine, i - 1);
      assert i == 1 ==> m[b].pn == spine[1];
      assert i >= 2 ==> x(Before(spine, i - 1), spine[i]) != spine[i];
    }
  }

  // ----- changing the links -----

  /** An element put between two neighbours. */
  function Inserted(x: Op, m: Memory, e: Addr, value: int, prev: Addr, next: Addr): Memory
    requires prev in m && next in m
  {
    m[e := Element(x(prev, next), value)]
     [prev := Element(x(m[prev].pn, x(next, e)), m[prev].value)]
     [next := Element(x(m[next].pn, x(prev, e)), m[next].value)]
  }

  /** An element taken out from between its neighbours. */
  function Removed(x: Op, m: Memory, e: Addr, prev: Addr, next: Addr): Memory
    requires prev in m && next in m && e in m
  {
    m[prev := Element(x(m[prev].pn, x(e, next)), m[prev].value)]
     [next := Element(x(m[next].pn, x(e, prev)), m[next].value)]
     [e := Element(NIL, m[e].value)]
  }

  function Joined(spine: seq<Addr>, i: nat, e: Addr): seq<Addr>
    requires i + 1 < |spine|
  {
    spine[..i + 1] + [e] + spine[i + 1..]
  }

  lemma JoinedAround(spine: seq<Addr>, i: nat, e: Addr, j: nat)
    requires i + 1 < |spine| && j <= |spine|
    ensures var s := Joined(spine, i, e);
            && s[j] == (if j <= i then spine[j] else if j == i + 1 then e else spine[j - 1])
            && (j < i ==> Before(s, j) == Before(spine, j) && After(s, j) == After(spine, j))
            && (j == i ==> Before(s, j) == Before(spine, i) && After(s, j) == e)
            && (j == i + 1 ==> Before(s, j) == spine[i] && After(s, j) == spine[i + 1])
            && (j == i + 2 ==> Before(s, j) == e && After(s, j) == After(spine, i + 1))
            && (j > i + 2 ==> Before(s, j) == Before(spine, j - 1) && After(s, j) == After(spine, j - 1))
  {
  }

  lemma InsertedAt(x: Op, m: Memory, spine: seq<Addr>, i: nat, e: Addr, value: int, j: nat)
    requires Bridges(x) && Linked(x, m, spine) && i + 1 < |spine| && e != NIL && e !in spine && j <= |spine|
    ensures LinkedAt(x, Inserted(x, m, e, value, spine[i], spine[i + 1]), Joined(spine, i, e), j)
  {
    JoinedAround(spine, i, e, j);
    var s, p, n := Joined(spine, i, e), spine[i], spine[i + 1];
    var m' := Inserted(x, m, e, value, p, n);
    if j == i {
      assert LinkedAt(x, m, spine, i);
    } else if j == i + 2 {
      assert LinkedAt(x, m, spine, i + 1);
    } else if j < i {
      assert LinkedAt(x, m, spine, j) && m'[s[j]] == m[spine[j]];
    } else if j > i + 2 {
      assert LinkedAt(x, m, spine, j - 1) && m'[s[j]] == m[spine[j - 1]];
    }
  }

  lemma InsertedLinked(x: Op, m: Memory, spine: seq<Addr>, i: nat, e: Addr, value: int)
    requires Lawful(x) && Linked(x, m, spine) && i + 1 < |spine| && e != NIL && e !in spine
    ensures Linked(x, Inserted(x, m, e, value, spine[i], spine[i + 1]), Joined(spine, i, e))
  {
    Obeys(x);
    var s, m' := Joined(spine, i, e), Inserted(x, m, e, value, spine[i], spine[i + 1]);
    forall j | 0 <= j < |s| ensures LinkedAt(x, m', s, j) { InsertedAt(x, m, spine, i, e, value, j); }
    forall j, k | 0 <= j < k < |s| ensures s[j] != s[k] {
      JoinedAround(spine, i, e, j);
      JoinedAround(spine, i, e, k);
    }
  }

  function Cut(spine: seq<Addr>, i: nat): seq<Addr>
    requires 0 < i && i + 1 < |spine|
  {
    spine[..i] + spine[i + 1..]
  }

  lemma CutAround(spine: seq<Addr>, i: nat, j: nat)
    requires 0 < i && i + 1 < |spine| && j + 1 < |spine|
    ensures var s := Cut(spine, i);
            && s[j] == (if j < i then spine[j] else spine[j + 1])
            && (j < i - 1 ==> Before(s, j) == Before(spine, j) && After(s, j) == After(spine, j))
            && (j == i - 1 ==> Before(s, j) == Before(spine, j) && After(s, j) == spine[i + 1])
            && (j == i ==> Before(s, j) == spine[i - 1] && After(s, j) == After(spine, i + 1))
            && (j > i ==> Before(s, j) == Before(spine, j + 1) && After(s, j) == After(spine, j + 1))
  {
  }

  lemma RemovedAt(x: Op, m: Memory, spine: seq<Addr>, i: nat, j: nat)
    requires Bridges(x) && Linked(x, m, spine) && 0 < i && i + 1 < |spine| && j + 1 < |spine|
    ensures LinkedAt(x, Removed(x, m, spine[i], spine[i - 1], spine[i + 1]), Cut(spine, i), j)
  {
    CutAround(spine, i, j);
    var s, p, n, e := Cut(spine, i), spine[i - 1], spine[i + 1], spine[i];
    var m' := Removed(x, m, e, p, n);
    if j == i - 1 {
      assert LinkedAt(x, m, spine, j);
    } else if j == i {
      assert LinkedAt(x, m, spine, i + 1);
    } else if j < i - 1 {
      assert LinkedAt(x, m, spine, j) && m'[s[j]] == m[spine[j]];
    } else {
      assert LinkedAt(x, m, spine, j + 1) && m'[s[j]] == m[spine[j + 1]];
    }
  }

  lemma RemovedLinked(x: Op, m: Memory, spine: seq<Addr>, i: nat)
    requires Lawful(x) && Linked(x, m, spine) && 0 < i && i + 1 < |spine|
    ensures Linked(x, Removed(x, m, spine[i], spine[i - 1], spine[i + 1]), Cut(spine, i))
  {
    Obeys(x);
    var s, m' := Cut(spine, i), Removed(x, m, spine[i], spine[i - 1], spine[i + 1]);
    forall j | 0 <= j < |s| ensures LinkedAt(x, m', s, j) { RemovedAt(x, m, spine, i, j); }
    forall j, k | 0 <= j < k < |s| ensures s[j] != s[k] {
      CutAround(spine, i, j);
      CutAround(spine, i, k);
    }
  }
}
