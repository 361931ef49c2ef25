/** Walking over a list while it changes. */
module XorWalk {
  import opened XorLinks
  import opened XorList

  /** Addresses for new elements: none twice, and nothing is there yet. */
  ghost predicate AllSpare(m: Memory, spare: seq<Addr>) {
    Distinct(spare) && forall i :: 0 <= i < |spare| ==> spare[i] != NIL && spare[i] !in m
  }

  /** The lists are the same, or share no element. */
  ghost predicate Separate(l: List, other: List)
    reads l, other
  {
    l == other || forall a :: a in other.Spine() ==> a !in l.Spine()
  }

  /** One element more at the back; the other list, or the same one, can still be walked. */
  method PushBackOne(l: List, other: List, value: int, e: Addr)
    requires l.Valid() && other.Valid() && l.heap == other.heap && Separate(l, other)
    requires e != NIL && e !in l.heap.cells
    modifies l, l.heap
    ensures l.Valid() && other.Valid() && Separate(l, other) && l.elems == old(l.elems) + [e]
    ensures OneMore(old(l.heap.cells), l.heap.cells, e, value)
    ensures other.elems == if other == l then old(other.elems) + [e] else old(other.elems)
  {
    ghost var m, s, o := l.heap.cells, l.Spine(), other.Spine();
    l.PushBack(value, e);
    SpineIn(l.heap.x, m, s);
    SpineIn(l.heap.x, m, o);
    MoreSpine(l.head, old(l.elems), l.tail, e);
    if other != l {
      KeptLinked(l.heap.x, m, l.heap.cells, s + [e], o);
    }
  }

  /** One new element, and every old one with its value. */
  ghost predicate OneMore(m: Memory, m': Memory, e: Addr, value: int) {
    && (forall a :: a in m ==> a in m' && m'[a].value == m[a].value)
    && (forall a :: a in m' ==> a in m || a == e) && e in m' && m'[e].value == value
  }

  lemma SpineIn(x: Op, m: Memory, spine: seq<Addr>)
    requires Linked(x, m, spine)
    ensures forall a :: a in spine ==> a in m && a != NIL
  {
  }

  lemma MoreSpine(head: Addr, l: seq<Addr>, tail: Addr, e: Addr)
    ensures forall a :: a in SpineOf(head, l + [e], tail) <==> a in SpineOf(head, l, tail) || a == e
  {
    forall a ensures a in SpineOf(head, l + [e], tail) <==> a in SpineOf(head, l, tail) || a == e {
      InSpine(head, l + [e], tail, a);
      InSpine(head, l, tail, a);
    }
  }

  /** `j` elements of the other list have been copied to the back, and the walk is at the next. */
  ghost predicate Appending(l: List, other: List, m: Memory, mine: seq<Addr>, theirs: seq<Addr>, spare: seq<Addr>,
                            j: nat, e: Addr, p: Addr)
    reads l, other, l.heap, other.heap
  {
    && l.Valid() && other.Valid() && l.heap == other.heap && Separate(l, other)
    && theirs <= other.elems && Copying(m, l.heap.cells, theirs, spare, j) && l.elems == mine + spare[..j]
    && (j < |other.elems| ==> e == other.elems[j] && p == other.Spine()[j])
  }

  method AppendNext(l: List, other: List, e: Addr, p: Addr, new_: Addr, ghost m: Memory, ghost mine: seq<Addr>,
                    ghost theirs: seq<Addr>, ghost spare: seq<Addr>, ghost j: nat)
    returns (next: Addr)
    requires Appending(l, other, m, mine, theirs, spare, j, e, p) && j < |spare| && new_ == spare[j]
    requires AllSpare(m, spare) && forall k :: 0 <= k < |theirs| ==> theirs[k] in m
    modifies l, l.heap
    ensures Appending(l, other, m, mine, theirs, spare, j + 1, next, e)
  {
    assert e == theirs[j] && Copied(m, l.heap.cells, e, e);
    ghost var before, elems := l.heap.cells, other.elems;
    SpareStill(m, before, theirs, spare, j);
    PushBackOne(l, other, l.heap.cells[e].value, new_);
    CopiedNext(m, before, l.heap.cells, theirs, spare, j);
    SameStart(other.head, elems, other.elems, other.tail, j);
    TakeMore(mine, spare, j);
    next := other.GoOn(e, p, j + 1);
  }

  lemma TakeMore(mine: seq<Addr>, spare: seq<Addr>, j: nat)
    requires j < |spare|
    ensures mine + spare[..j] + [spare[j]] == mine + spare[..j + 1]
  {
  }

  lemma SameStart(head: Addr, l: seq<Addr>, l': seq<Addr>, tail: Addr, j: nat)
    requires l <= l' && j < |l|
    ensures SpineOf(head, l', tail)[j] == SpineOf(head, l, tail)[j]
    ensures SpineOf(head, l', tail)[j + 1] == SpineOf(head, l, tail)[j + 1] == l[j] == l'[j]
  {
    if j > 0 {
      assert l'[j - 1] == l[j - 1];
    }
  }

  lemma SpareStill(m: Memory, m': Memory, from: seq<Addr>, spare: seq<Addr>, j: nat)
    requires AllSpare(m, spare) && j < |spare| && Copying(m, m', from, spare, j)
    ensures spare[j] !in m' && spare[j] != NIL
  {
  }

  /** Copies the other list, or the same one, to the back. */
  method PushBackList(l: List, other: List, spare: seq<Addr>)
    requires l.Valid() && other.Valid() && l.heap == other.heap && Separate(l, other)
    requires |spare| == |other.elems| && AllSpare(l.heap.cells, spare)
    modifies l, l.heap
    ensures l.Valid() && l.elems == old(l.elems) + spare
    ensures Copying(old(l.heap.cells), l.heap.cells, old(other.elems), spare, |spare|)
  {
    ghost var m, mine, theirs := l.heap.cells, l.elems, other.elems;
    SpineIn(l.heap.x, m, other.Spine());
    forall k | 0 <= k < |theirs| ensures theirs[k] in m { assert other.Spine()[k + 1] == theirs[k]; }
    var e, p := other.Front();
    var i, j := other.len, 0;
    assert mine + spare[..0] == mine;
    while i > 0 && e != NIL
      invariant j + i == |spare| && 0 <= j && 0 <= i && Appending(l, other, m, mine, theirs, spare, j, e, p)
      decreases i
    {
      var next := AppendNext(l, other, e, p, spare[j], m, mine, theirs, spare, j);
      e, p := next, e;
      i, j := i - 1, j + 1;
    }
    Reached(l, other, m, mine, theirs, spare, j, e, p);
  }

  lemma Reached(l: List, other: List, m: Memory, mine: seq<Addr>, theirs: seq<Addr>, spare: seq<Addr>, j: nat, e: Addr,
                p: Addr)
    requires Appending(l, other, m, mine, theirs, spare, j, e, p) && (j == |spare| || e == NIL)
    ensures j == |spare| && l.elems == mine + spare
  {
    SentinelsApart(other.heap.x, other.heap.cells, other.head, other.elems, other.tail);
    assert spare[..|spare|] == spare;
  }

  /** Address `a'` now holds the value `a` had. */
  ghost predicate Copied(m: Memory, m': Memory, a: Addr, a': Addr) {
    a in m && a' in m' && m'[a'].value == m[a].value
  }

  /** The first `j` elements have been copied, and the old ones are there. */
  ghost predicate Copying(m: Memory, m': Memory, from: seq<Addr>, spare: seq<Addr>, j: nat) {
    && j <= |spare| == |from|
    && (forall a :: a in m ==> Copied(m, m', a, a))
    && (forall a :: a in m' ==> a in m || a in spare[..j])
    && (forall k :: 0 <= k < j ==> Copied(m, m', from[k], spare[k]))
  }

  lemma CopiedNext(m: Memory, before: Memory, now: Memory, from: seq<Addr>, spare: seq<Addr>, j: nat)
    requires AllSpare(m, spare) && j < |spare| && Copying(m, before, from, spare, j) && from[j] in m
    requires OneMore(before, now, spare[j], before[from[j]].value)
    ensures Copying(m, now, from, spare, j + 1)
  {
    assert spare[..j + 1] == spare[..j] + [spare[j]];
    assert Copied(m, before, from[j], from[j]);
    forall k | 0 <= k < j ensures Copied(m, now, from[k], spare[k]) { assert Copied(m, before, from[k], spare[k]); }
    forall a | a in m ensures Copied(m, now, a, a) { assert Copied(m, before, a, a); }
  }

  // ----- the same to the front -----

  /** One element more at the front; the other list, or the same one, can still be walked. */
  method PushFrontOne(l: List, other: List, value: int, e: Addr)
    requires l.Valid() && other.Valid() && l.heap == other.heap && Separate(l, other)
    requires e != NIL && e !in l.heap.cells
    modifies l, l.heap
    ensures l.Valid() && other.Valid() && Separate(l, other) && l.elems == [e] + old(l.elems)
    ensures OneMore(old(l.heap.cells), l.heap.cells, e, value)
    ensures other.elems == if other == l then [e] + old(other.elems) else old(other.elems)
  {
    ghost var m, s, o := l.heap.cells, l.Spine(), other.Spine();
    l.PushFront(value, e);
    SpineIn(l.heap.x, m, s);
    SpineIn(l.heap.x, m, o);
    FrontSpine(l.head, old(l.elems), l.tail, e);
    if other != l {
      KeptLinked(l.heap.x, m, l.heap.cells, s + [e], o);
    }
  }

  lemma FrontSpine(head: Addr, l: seq<Addr>, tail: Addr, e: Addr)
    ensures forall a :: a in SpineOf(head, [e] + l, tail) <==> a in SpineOf(head, l, tail) || a == e
  {
    forall a ensures a in SpineOf(head, [e] + l, tail) <==> a in SpineOf(head, l, tail) || a == e {
      InSpine(head, [e] + l, tail, a);
      InSpine(head, l, tail, a);
    }
  }

  /** The elements from `k` on have been copied, and the old ones are there. */
  ghost predicate CopyingFrom(m: Memory, m': Memory, from: seq<Addr>, spare: seq<Addr>, k: nat) {
    && k <= |spare| == |from|
    && (forall a :: a in m ==> Copied(m, m', a, a))
    && (forall a :: a in m' ==> a in m || a in spare[k..])
    && (forall i :: k <= i < |spare| ==> Copied(m, m', from[i], spare[i]))
  }

  lemma CopiedBefore(m: Memory, before: Memory, now: Memory, from: seq<Addr>, spare: seq<Addr>, k: nat)
    requires AllSpare(m, spare) && k < |spare| && CopyingFrom(m, before, from, spare, k + 1) && from[k] in m
    requires OneMore(before, now, spare[k], before[from[k]].value)
    ensures CopyingFrom(m, now, from, spare, k)
  {
    assert spare[k..] == [spare[k]] + spare[k + 1..];
    assert Copied(m, before, from[k], from[k]);
    forall i | k + 1 <= i < |spare|
      ensures Copied(m, now, from[i], spare[i])
    {
      assert Copied(m, before, from[i], spare[i]);
    }
    forall a | a in m ensures Copied(m, now, a, a) { assert Copied(m, before, a, a); }
  }

  lemma SpareAhead(m: Memory, m': Memory, from: seq<Addr>, spare: seq<Addr>, k: nat)
    requires AllSpare(m, spare) && k < |spare| && CopyingFrom(m, m', from, spare, k + 1)
    ensures spare[k] !in m' && spare[k] != NIL
  {
  }

  /** The elements from `k` on have been copied to the front, and the walk is at the one before. */
  ghost predicate Prepending(l: List, other: List, m: Memory, mine: seq<Addr>, theirs: seq<Addr>, spare: seq<Addr>,
                             k: nat, e: Addr, n: Addr)
    reads l, other, l.heap, other.heap
  {
    && InFront(l, other, mine, theirs, spare, k) && CopyingFrom(m, l.heap.cells, theirs, spare, k)
    && (k > 0 ==> e == theirs[k - 1] && n == if k < |theirs| then theirs[k] else other.tail)
  }

  /** Where element `i` of `theirs`, which stands behind the copies if they are in the same list, is linked. */
  lemma Behind(head: Addr, front: seq<Addr>, theirs: seq<Addr>, tail: Addr, i: nat)
    requires i < |theirs|
    ensures var s, at := SpineOf(head, front + theirs, tail), |front| + i;
            && s[at + 1] == theirs[i] && After(s, at + 1) == (if i + 1 < |theirs| then theirs[i + 1] else tail)
            && (i > 0 ==> at > 0 && (front + theirs)[at - 1] == theirs[i - 1])
  {
    var elems, at := front + theirs, |front| + i;
    assert elems[at] == theirs[i];
    if i + 1 < |theirs| {
      assert elems[at + 1] == theirs[i + 1];
    }
  }

  method PrependNext(l: List, other: List, e: Addr, n: Addr, new_: Addr, ghost m: Memory, ghost mine: seq<Addr>,
                     ghost theirs: seq<Addr>, ghost spare: seq<Addr>, ghost k: nat)
    returns (prev: Addr)
    requires k > 0 && Prepending(l, other, m, mine, theirs, spare, k, e, n) && new_ == spare[k - 1]
    requires AllSpare(m, spare) && forall i :: 0 <= i < |theirs| ==> theirs[i] in m
    modifies l, l.heap
    ensures Prepending(l, other, m, mine, theirs, spare, k - 1, prev, e)
  {
    PrependOne(l, other, e, new_, m, mine, theirs, spare, k - 1, k);
    prev := StepAside(l, other, e, n, mine, theirs, spare, k);
  }

  /** The copies are in front. */
  ghost predicate InFront(l: List, other: List, mine: seq<Addr>, theirs: seq<Addr>, spare: seq<Addr>, k: nat)
    reads l, other, l.heap, other.heap
  {
    && l.Valid() && other.Valid() && l.heap == other.heap && Separate(l, other) && (l == other ==> mine == theirs)
    && k <= |spare| == |theirs| && l.elems == spare[k..] + mine && (l != other ==> other.elems == theirs)
  }

  method PrependOne(l: List, other: List, e: Addr, new_: Addr, ghost m: Memory, ghost mine: seq<Addr>,
                    ghost theirs: seq<Addr>, ghost spare: seq<Addr>, ghost k: nat, ghost more: nat)
    requires more == k + 1 && InFront(l, other, mine, theirs, spare, more) &&
             CopyingFrom(m, l.heap.cells, theirs, spare, more)
    requires AllSpare(m, spare) && new_ == spare[k] && e == theirs[k] && e in m
    modifies l, l.heap
    ensures InFront(l, other, mine, theirs, spare, k) && CopyingFrom(m, l.heap.cells, theirs, spare, k)
  {
    ghost var before := l.heap.cells;
    SpareAhead(m, before, theirs, spare, k);
    assert Copied(m, before, e, e);
    PushFrontOne(l, other, l.heap.cells[e].value, new_);
    CopiedBefore(m, before, l.heap.cells, theirs, spare, k);
    TakeBefore(mine, spare, k);
  }

  /** Goes back in the other list. */
  method StepAside(l: List, other: List, e: Addr, n: Addr, ghost mine: seq<Addr>, ghost theirs: seq<Addr>,
                   ghost spare: seq<Addr>, ghost k: nat)
    returns (prev: Addr)
    requires 0 < k <= |theirs| && InFront(l, other, mine, theirs, spare, k - 1)
    requires e == theirs[k - 1] && n == if k < |theirs| then theirs[k] else other.tail
    ensures k > 1 ==> prev == theirs[k - 2]
  {
    ghost var front := if l == other then spare[k - 1..] else [];
    assert other.elems == front + theirs;
    Behind(other.head, front, theirs, other.tail, k - 1);
    prev := other.GoBack(e, n, |front| + k - 1);
  }

  lemma TakeBefore(mine: seq<Addr>, spare: seq<Addr>, k: nat)
    requires k < |spare|
    ensures [spare[k]] + (spare[k + 1..] + mine) == spare[k..] + mine
  {
  }

  lemma NothingYet(l: List, other: List, spare: seq<Addr>, e: Addr, n: Addr)
    requires l.Valid() && other.Valid() && l.heap == other.heap && Separate(l, other) && |spare| == |other.elems|
    requires other.elems != [] ==> e == other.elems[|other.elems| - 1] && n == other.tail
    ensures Prepending(l, other, l.heap.cells, l.elems, other.elems, spare, |spare|, e, n)
  {
    assert spare[|spare|..] + l.elems == l.elems;
  }

  /** Copies the other list, or the same one, to the front, in the same order. */
  method PushFrontList(l: List, other: List, spare: seq<Addr>)
    requires l.Valid() && other.Valid() && l.heap == other.heap && Separate(l, other)
    requires |spare| == |other.elems| && AllSpare(l.heap.cells, spare)
    modifies l, l.heap
    ensures l.Valid() && l.elems == spare + old(l.elems)
    ensures CopyingFrom(old(l.heap.cells), l.heap.cells, old(other.elems), spare, 0)
  {
    ghost var m, mine, theirs := l.heap.cells, l.elems, other.elems;
    SpineIn(l.heap.x, m, other.Spine());
    forall k | 0 <= k < |theirs| ensures theirs[k] in m { assert other.Spine()[k + 1] == theirs[k]; }
    SentinelsApart(other.heap.x, other.heap.cells, other.head, other.elems, other.tail);
    var e, n := other.Back();
    var i := other.len;
    NothingYet(l, other, spare, e, n);
    Prepend(l, other, spare, e, n, i, m, mine, theirs);
  }

  /** One turn, and the others. */
  method Prepend(l: List, other: List, spare: seq<Addr>, e: Addr, n: Addr, i: nat, ghost m: Memory,
                 ghost mine: seq<Addr>, ghost theirs: seq<Addr>)
    requires i <= |spare| && Prepending(l, other, m, mine, theirs, spare, i, e, n) && AllSpare(m, spare)
    requires forall k :: 0 <= k < |theirs| ==> theirs[k] in m && theirs[k] != NIL
    modifies l, l.heap
    ensures l.Valid() && l.elems == spare + mine && CopyingFrom(m, l.heap.cells, theirs, spare, 0)
    decreases i
  {
    if i > 0 && e != NIL {
      var prev := PrependNext(l, other, e, n, spare[i - 1], m, mine, theirs, spare, i);
      Prepend(l, other, spare, prev, e, i - 1, m, mine, theirs);
    } else {
      AllInFront(l, other, m, mine, theirs, spare, i, e, n);
    }
  }

  lemma AllInFront(l: List, other: List, m: Memory, mine: seq<Addr>, theirs: seq<Addr>, spare: seq<Addr>, i: nat,
                   e: Addr, n: Addr)
    requires Prepending(l, other, m, mine, theirs, spare, i, e, n) && (i == 0 || e == NIL)
    requires forall k :: 0 <= k < |theirs| ==> theirs[k] != NIL
    ensures l.Valid() && l.elems == spare + mine && CopyingFrom(m, l.heap.cells, theirs, spare, 0)
  {
    assert spare[0..] == spare;
  }

  // ----- deleting while iterating -----

  /** One turn of the way the list's documentation gives for deleting while iterating: step back to the element
      before, and to the one before that, delete, and go on. It goes on to the right element unless the one
      deleted was the second: the step back from the first gives nothing instead of the head, and going on
      from there leads nowhere. */
  lemma BackAndOn(x: Op, m: Memory, spine: seq<Addr>, i: nat)
    requires Lawful(x) && Linked(x, m, spine) && i + 2 < |spine|
    ensures var at, gone, after := spine[i], spine[i + 1], spine[i + 2];
            var back := Prev(x, m, at, gone);
            var m' := Removed(x, m, gone, at, after);
            && back.At?
            && (i != 1 ==> Next(x, m', at, back.a) == At(if i + 3 < |spine| then after else NIL))
            && (i == 1 ==> back.a == NIL)
            && (i == 1 && x(spine[0], after) !in m ==> Next(x, m', at, back.a) == Fault)
            && (i == 1 && i + 3 < |spine| ==> Next(x, m', at, back.a) != At(after))
  {
    Obeys(x);
    var at, gone, after := spine[i], spine[i + 1], spine[i + 2];
    PrevIs(x, m, spine, i);
    RemovedLinked(x, m, spine, i + 1);
    var s, m' := Cut(spine, i + 1), Removed(x, m, gone, at, after);
    CutAround(spine, i + 1, i);
    NextIs(x, m', s, i);
    assert LinkedAt(x, m', s, i);
    CutAround(spine, i + 1, i + 1);
  }

  /** The elements whose value does not meet the condition. */
  ghost function Staying(m: Memory, s: seq<Addr>, cond: int -> bool): (r: seq<Addr>)
    requires forall i :: 0 <= i < |s| ==> s[i] in m
    ensures |r| <= |s|
  {
    if s == [] then [] else
      var e := s[|s| - 1];
      Staying(m, s[..|s| - 1], cond) + if cond(m[e].value) then [] else [e]
  }

  /** The element after the first that stays, stays too. */
  ghost predicate SecondStays(m: Memory, s: seq<Addr>, cond: int -> bool)
    requires forall i :: 0 <= i < |s| ==> s[i] in m
  {
    forall t :: 0 <= t < |s| && |Staying(m, s[..t], cond)| == 1 ==> !cond(m[s[t]].value)
  }

  lemma StayingNext(m: Memory, s: seq<Addr>, cond: int -> bool, t: nat)
    requires (forall i :: 0 <= i < |s| ==> s[i] in m) && t < |s|
    ensures Staying(m, s[..t + 1], cond) == Staying(m, s[..t], cond) + if cond(m[s[t]].value) then [] else [s[t]]
  {
    assert s[..t + 1][..t] == s[..t];
  }

  /** The walk has come to element `t` of `all`: what was before it stays, the rest is still there. */
  ghost predicate Sweeping(l: List, m: Memory, all: seq<Addr>, cond: int -> bool, t: nat, k: nat, e: Addr, p: Addr)
    requires forall i :: 0 <= i < |all| ==> all[i] in m
    reads l, l.heap
  {
    && l.Valid() && t <= |all| && k == |Staying(m, all[..t], cond)|
    && l.elems == Staying(m, all[..t], cond) + all[t..]
    && (forall a :: a in m ==> a in l.heap.cells && l.heap.cells[a].value == m[a].value)
    && NoStray(l.heap.x, l.heap.cells, l.Spine()) && p == l.Spine()[k] && e == if t < |all| then all[t] else NIL
  }

  /** Steps back from element `k` of the list to the one before, and to the one before that; from the second
      element, to nothing. */
  method StepBack(l: List, p: Addr, e: Addr, ghost k: nat) returns (pp: Addr)
    requires l.Valid() && k < |l.elems| && p == l.Spine()[k] && e == l.elems[k]
    ensures pp == if k == 1 then NIL else Before(l.Spine(), k)
  {
    PrevIs(l.heap.x, l.heap.cells, l.Spine(), k);
    assert After(l.Spine(), k) == e;
    pp := Prev(l.heap.x, l.heap.cells, p, e).a;
  }

  /** The difference of the head and another address of the list is no address of an element. */
  ghost predicate NoStray(x: Op, m: Memory, spine: seq<Addr>) {
    spine != [] && forall i :: 0 < i < |spine| ==> x(spine[0], spine[i]) !in m
  }

  /** Going on from the first element as if nothing were before it. */
  lemma OffTheList(x: Op, m: Memory, spine: seq<Addr>)
    requires Lawful(x) && Linked(x, m, spine) && |spine| >= 3 && x(spine[0], spine[2]) !in m
    ensures Next(x, m, spine[1], NIL) == Fault
  {
    Obeys(x);
    assert LinkedAt(x, m, spine, 1);
  }

  /** Deletes element `k` and goes on from the one before it. */
  method DeleteHere(l: List, e: Addr, p: Addr, ghost k: nat) returns (next: Reach)
    requires l.Valid() && k < |l.elems| && p == l.Spine()[k] && e == l.elems[k] &&
             NoStray(l.heap.x, l.heap.cells, l.Spine())
    modifies l, l.heap
    ensures l.Valid() && l.elems == old(l.elems)[..k] + old(l.elems)[k + 1..] &&
            Kept(old(l.heap.cells), l.heap.cells, old(l.Spine()))
    ensures NoStray(l.heap.x, l.heap.cells, l.Spine()) && p == l.Spine()[k]
    ensures next == if k == 1 then Fault else At(if k < |l.elems| then l.elems[k] else NIL)
  {
    ghost var m, elems := l.heap.cells, l.elems;
    var pp := StepBack(l, p, e, k);
    DeleteOne(l, e, k);
    StillNoStray(l.heap.x, m, l.heap.cells, l.head, elems, l.tail, k);
    SameUpTo(l.head, elems, l.tail, k);
    next := Onward(l, p, pp, k);
  }

  method DeleteOne(l: List, e: Addr, ghost k: nat)
    requires l.Valid() && k < |l.elems| && e == l.elems[k]
    modifies l, l.heap
    ensures l.Valid() && l.elems == old(l.elems)[..k] + old(l.elems)[k + 1..] &&
            Kept(old(l.heap.cells), l.heap.cells, old(l.Spine()))
  {
    SentinelsApart(l.heap.x, l.heap.cells, l.head, l.elems, l.tail);
    LessIs(l.elems, e, k);
    var _ := l.Detach(e);
  }

  method Onward(l: List, p: Addr, pp: Addr, ghost k: nat) returns (next: Reach)
    requires l.Valid() && k <= |l.elems| && p == l.Spine()[k] && NoStray(l.heap.x, l.heap.cells, l.Spine())
    requires pp == if k == 1 then NIL else Before(l.Spine(), k)
    ensures next == if k == 1 then Fault else At(if k < |l.elems| then l.elems[k] else NIL)
  {
    next := Next(l.heap.x, l.heap.cells, p, pp);
    if k == 1 {
      OffTheList(l.heap.x, l.heap.cells, l.Spine());
    } else {
      NextIs(l.heap.x, l.heap.cells, l.Spine(), k);
    }
  }

  lemma StillNoStray(x: Op, m: Memory, m': Memory, head: Addr, elems: seq<Addr>, tail: Addr, k: nat)
    requires k < |elems| && NoStray(x, m, SpineOf(head, elems, tail)) && Linked(x, m, SpineOf(head, elems, tail))
    requires Kept(m, m', SpineOf(head, elems, tail))
    ensures NoStray(x, m', SpineOf(head, elems[..k] + elems[k + 1..], tail))
  {
    var s := SpineOf(head, elems, tail);
    var cut := Cut(s, k + 1);
    CutSpine(head, elems, tail, k);
    SpineIn(x, m, s);
    forall i | 0 < i < |cut| ensures x(head, cut[i]) !in m' {
      CutAround(s, k + 1, i);
    }
  }

  lemma SameUpTo(head: Addr, l: seq<Addr>, tail: Addr, k: nat)
    requires k < |l|
    ensures var l' := l[..k] + l[k + 1..];
            SpineOf(head, l', tail)[k] == SpineOf(head, l, tail)[k] &&
              Before(SpineOf(head, l', tail), k) == Before(SpineOf(head, l, tail), k)
  {
    var l' := l[..k] + l[k + 1..];
    assert k >= 1 ==> l'[k - 1] == l[k - 1];
    assert k >= 2 ==> l'[k - 2] == l[k - 2];
  }

  /** Before place `t` no second element has been deleted. */
  ghost predicate StaysUpTo(m: Memory, s: seq<Addr>, cond: int -> bool, t: nat)
    requires (forall i :: 0 <= i < |s| ==> s[i] in m) && t <= |s|
  {
    forall i :: 0 <= i < t && |Staying(m, s[..i], cond)| == 1 ==> !cond(m[s[i]].value)
  }

  lemma StaysOn(m: Memory, s: seq<Addr>, cond: int -> bool, t: nat)
    requires (forall i :: 0 <= i < |s| ==> s[i] in m) && t < |s| && StaysUpTo(m, s, cond, t)
    requires !(|Staying(m, s[..t], cond)| == 1 && cond(m[s[t]].value))
    ensures StaysUpTo(m, s, cond, t + 1)
  {
  }

  lemma StaysThrough(m: Memory, s: seq<Addr>, cond: int -> bool)
    requires (forall i :: 0 <= i < |s| ==> s[i] in m) && StaysUpTo(m, s, cond, |s|)
    ensures SecondStays(m, s, cond)
  {
  }

  lemma SecondFalls(m: Memory, s: seq<Addr>, cond: int -> bool, t: nat)
    requires (forall i :: 0 <= i < |s| ==> s[i] in m) && t < |s| && |Staying(m, s[..t], cond)| == 1 &&
             cond(m[s[t]].value)
    ensures !SecondStays(m, s, cond)
  {
  }

  /** The walk has come to element `t`, and has not deleted what was second. */
  ghost predicate Swept(l: List, m: Memory, all: seq<Addr>, cond: int -> bool, t: nat, k: nat, e: Addr, p: Addr)
    requires forall i :: 0 <= i < |all| ==> all[i] in m
    reads l, l.heap
  {
    Sweeping(l, m, all, cond, t, k, e, p) && StaysUpTo(m, all, cond, t)
  }

  /** Deletes while iterating, the documented way.  It comes through, with what does not meet the condition
      left, just when it never deletes what is second at the time; else it ends in a fault there. */
  method DeleteWhere(l: List, cond: int -> bool) returns (ok: bool)
    requires l.Valid() && NoStray(l.heap.x, l.heap.cells, l.Spine()) &&
             (forall i :: 0 <= i < |l.elems| ==> l.elems[i] in l.heap.cells)
    modifies l, l.heap
    ensures l.Valid() && (ok <==> SecondStays(old(l.heap.cells), old(l.elems), cond))
    ensures ok ==> l.elems == Staying(old(l.heap.cells), old(l.elems), cond)
  {
    SentinelsApart(l.heap.x, l.heap.cells, l.head, l.elems, l.tail);
    var e, p := l.Front();
    if e == NIL {
      return true;
    }
    assert l.elems[..0] == [] && l.elems[0..] == l.elems;
    ok := Sweep(l, cond, e, p, l.heap.cells, l.elems, 0, 0);
  }

  /** One turn, and the others. */
  method Sweep(l: List, cond: int -> bool, e: Addr, p: Addr, ghost m: Memory, ghost all: seq<Addr>, ghost t: nat,
               ghost k: nat)
    returns (ok: bool)
    requires (forall i :: 0 <= i < |all| ==> all[i] in m && all[i] != NIL) && t <= |all| &&
             Swept(l, m, all, cond, t, k, e, p)
    modifies l, l.heap
    ensures l.Valid() && (ok <==> SecondStays(m, all, cond)) && (ok ==> l.elems == Staying(m, all, cond))
    decreases |all| - t
  {
    if e == NIL {
      SweepDone(l, m, all, cond, t, k, e, p);
      return true;
    }
    var e', p';
    ghost var k';
    ok, e', p', k' := SweepNext(l, e, p, cond, m, all, t, k);
    if ok {
      ok := Sweep(l, cond, e', p', m, all, t + 1, k');
    }
  }

  method SweepNext(l: List, e: Addr, p: Addr, cond: int -> bool, ghost m: Memory, ghost all: seq<Addr>, ghost t: nat,
                   ghost k: nat)
    returns (ok: bool, e': Addr, p': Addr, ghost k': nat)
    requires (forall i :: 0 <= i < |all| ==> all[i] in m) && t < |all| && Swept(l, m, all, cond, t, k, e, p)
    modifies l, l.heap
    ensures l.Valid() && if ok then Swept(l, m, all, cond, t + 1, k', e', p') else !SecondStays(m, all, cond)
  {
    ok, e', p', k' := SweepOne(l, e, p, cond, m, all, t, k);
    if ok {
      StaysOn(m, all, cond, t);
    } else {
      SecondFalls(m, all, cond, t);
    }
  }

  method SweepOne(l: List, e: Addr, p: Addr, cond: int -> bool, ghost m: Memory, ghost all: seq<Addr>, ghost t: nat,
                  ghost k: nat)
    returns (ok: bool, e': Addr, p': Addr, ghost k': nat)
    requires (forall i :: 0 <= i < |all| ==> all[i] in m) && t < |all| && Sweeping(l, m, all, cond, t, k, e, p)
    modifies l, l.heap
    ensures l.Valid() && (ok <==> !(k == 1 && cond(m[all[t]].value)))
    ensures ok ==> Sweeping(l, m, all, cond, t + 1, k', e', p')
  {
    if cond(l.heap.cells[e].value) {
      var next := SweepOff(l, e, p, cond, m, all, t, k);
      if next.Fault? {
        return false, NIL, p, k;
      }
      ok, e', p', k' := true, next.a, p, k;
    } else {
      ok, p', k' := true, e, k + 1;
      e' := SweepPast(l, e, p, cond, m, all, t, k);
    }
  }

  method SweepOff(l: List, e: Addr, p: Addr, ghost cond: int -> bool, ghost m: Memory, ghost all: seq<Addr>,
                  ghost t: nat, ghost k: nat)
    returns (next: Reach)
    requires (forall i :: 0 <= i < |all| ==> all[i] in m) && t < |all| && Sweeping(l, m, all, cond, t, k, e, p) &&
             cond(m[all[t]].value)
    modifies l, l.heap
    ensures l.Valid() && (next.Fault? <==> k == 1) && (next.At? ==> Sweeping(l, m, all, cond, t + 1, k, next.a, p))
  {
    StayingNext(m, all, cond, t);
    Split(l.elems, Staying(m, all[..t], cond), all, t);
    next := DeleteHere(l, e, p, k);
  }

  method SweepPast(l: List, e: Addr, p: Addr, ghost cond: int -> bool, ghost m: Memory, ghost all: seq<Addr>,
                   ghost t: nat, ghost k: nat)
    returns (e': Addr)
    requires (forall i :: 0 <= i < |all| ==> all[i] in m) && t < |all| && Sweeping(l, m, all, cond, t, k, e, p) &&
             !cond(m[all[t]].value)
    ensures Sweeping(l, m, all, cond, t + 1, k + 1, e', e)
  {
    StayingNext(m, all, cond, t);
    Split(l.elems, Staying(m, all[..t], cond), all, t);
    assert l.Spine()[k + 1] == e;
    e' := l.GoOn(e, p, k + 1);
  }

  lemma Split(elems: seq<Addr>, front: seq<Addr>, all: seq<Addr>, t: nat)
    requires t < |all| && elems == front + all[t..]
    ensures elems[|front|] == all[t] && elems[..|front|] + elems[|front| + 1..] == front + all[t + 1..]
    ensures elems == front + [all[t]] + all[t + 1..]
    ensures t + 1 < |all| ==> |front| + 1 < |elems| && elems[|front| + 1] == all[t + 1]
    ensures t + 1 == |all| ==> |front| + 1 == |elems|
  {
    assert all[t..] == [all[t]] + all[t + 1..];
  }

  lemma SweepDone(l: List, m: Memory, all: seq<Addr>, cond: int -> bool, t: nat, k: nat, e: Addr, p: Addr)
    requires (forall i :: 0 <= i < |all| ==> all[i] in m && all[i] != NIL)
    requires Swept(l, m, all, cond, t, k, e, p) && e == NIL
    ensures l.elems == Staying(m, all, cond) && SecondStays(m, all, cond)
  {
    assert all[..|all|] == all && all[|all|..] == [];
    StaysThrough(m, all, cond);
  }

  // ----- a list on which that fails -----

  lemma Strays()
    ensures Mix(1, 2) == 3 && Mix(1, 4) == 5 && Mix(1, 8) == 9 && Mix(1, 16) == 17
  {
  }

  method PushNew(l: List, value: int, e: Addr)
    requires l.Valid() && e != NIL && e !in l.heap.cells
    modifies l, l.heap
    ensures l.Valid() && l.elems == old(l.elems) + [e] && l.heap.cells.Keys == old(l.heap.cells.Keys) + {e}
    ensures l.heap.cells[e].value == value && forall a :: a in old(l.heap.cells) ==>
            l.heap.cells[a].value == old(l.heap.cells)[a].value
  {
    ghost var m, s := l.heap.cells, l.Spine();
    SpineIn(l.heap.x, m, s);
    l.PushBack(value, e);
    forall a ensures a in l.heap.cells <==> a in m || a == e { assert a in s + [e] <==> a in s || a == e; }
  }

  /** A list of the elements at 4, 8 and 16, with the values 1, 2 and 3. */
  method Three() returns (l: List)
    ensures fresh(l) && fresh(l.heap) && l.Valid() && l.heap.x == Xor && l.head == Addr(1) && l.tail == Addr(2)
    ensures l.elems == [Addr(4), Addr(8), Addr(16)] &&
            l.heap.cells.Keys == {Addr(1), Addr(2), Addr(4), Addr(8), Addr(16)}
    ensures l.heap.cells[Addr(4)].value == 1 && l.heap.cells[Addr(8)].value == 2 && l.heap.cells[Addr(16)].value == 3
  {
    l := Empty();
    PushNew(l, 1, Addr(4));
    assert l.elems == [Addr(4)];
    PushNew(l, 2, Addr(8));
    assert l.elems == [Addr(4), Addr(8)];
    PushNew(l, 3, Addr(16));
  }

  method Empty() returns (l: List)
    ensures fresh(l) && fresh(l.heap) && l.Valid() && l.heap.x == Xor && l.head == Addr(1) && l.tail == Addr(2)
    ensures l.elems == [] && l.heap.cells.Keys == {Addr(1), Addr(2)}
  {
    var heap := new Heap();
    l := new List(heap, Addr(1), Addr(2));
    forall a ensures a in heap.cells <==> a == Addr(1) || a == Addr(2) {
      assert a in [Addr(1), Addr(2)] <==> a == Addr(1) || a == Addr(2);
    }
  }

  /** Three elements of which the second is to go: the walk ends in a fault. */
  method SecondOfThree() returns (ok: bool)
    ensures !ok
  {
    var l := Three();
    Strays();
    SecondFalls(l.heap.cells, l.elems, v => v == 2, 1);
    ok := DeleteWhere(l, v => v == 2);
  }
}
