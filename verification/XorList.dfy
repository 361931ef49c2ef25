/** The list over such elements, against a sequence. */
module XorList {
  import opened XorLinks

  /** The memory the elements of all lists are in. */
  class Heap {
    const x: Op
    var cells: Memory

    constructor ()
      ensures Lawful(x) && x == Xor && cells == map[]
    {
      x, cells := Xor, map[];
      new;
      XorObeys();
    }
  }

  ghost function SpineOf(head: Addr, elems: seq<Addr>, tail: Addr): (s: seq<Addr>)
    ensures |s| == |elems| + 2 && s[0] == head && s[|elems| + 1] == tail
    ensures forall i :: 0 <= i < |elems| ==> s[i + 1] == elems[i]
  {
    [head] + elems + [tail]
  }

  /** Nothing outside the list and the new element has changed, and no value has. */
  ghost predicate Kept(m: Memory, m': Memory, spine: seq<Addr>) {
    && (forall a :: a in m ==> a in m' && m'[a].value == m[a].value)
    && (forall a :: a in m && a !in spine ==> m'[a] == m[a])
    && (forall a :: a in m' ==> a in m || a in spine)
  }

  lemma KeptLinked(x: Op, m: Memory, m': Memory, spine: seq<Addr>, other: seq<Addr>)
    requires Linked(x, m, other) && Kept(m, m', spine) && forall a :: a in other ==> a !in spine
    ensures Linked(x, m', other)
  {
    forall i | 0 <= i < |other| ensures LinkedAt(x, m', other, i) {
      assert LinkedAt(x, m, other, i) && other[i] in other;
    }
  }

  lemma SentinelsApart(x: Op, m: Memory, head: Addr, elems: seq<Addr>, tail: Addr)
    requires Linked(x, m, SpineOf(head, elems, tail))
    ensures forall i :: 0 <= i < |elems| ==> elems[i] != head && elems[i] != tail && elems[i] != NIL
    ensures forall i, j :: 0 <= i < j < |elems| ==> elems[i] != elems[j]
  {
    var s := SpineOf(head, elems, tail);
    forall i | 0 <= i < |elems| ensures elems[i] != head && elems[i] != tail && elems[i] != NIL {
      assert s[i + 1] == elems[i] && s[0] == head && s[|elems| + 1] == tail;
    }
    forall i, j | 0 <= i < j < |elems| ensures elems[i] != elems[j] {
      assert s[i + 1] == elems[i] && s[j + 1] == elems[j];
    }
  }

  lemma InsertedKept(x: Op, m: Memory, spine: seq<Addr>, i: nat, e: Addr, value: int)
    requires i + 1 < |spine| && spine[i] in m && spine[i + 1] in m && (e in m ==> m[e].value == value)
    requires e != spine[i] && e != spine[i + 1]
    ensures var m' := Inserted(x, m, e, value, spine[i], spine[i + 1]);
            Kept(m, m', spine + [e]) && e in m' && m'[e].value == value
  {
    var touched := spine + [e];
    assert touched[i] == spine[i] && touched[i + 1] == spine[i + 1] && touched[|spine|] == e;
  }

  lemma RemovedKept(x: Op, m: Memory, spine: seq<Addr>, i: nat)
    requires 0 < i && i + 1 < |spine| && spine[i] in m && spine[i - 1] in m && spine[i + 1] in m
    ensures var m' := Removed(x, m, spine[i], spine[i - 1], spine[i + 1]);
            Kept(m, m', spine) && m'[spine[i]].pn == NIL
  {
  }

  lemma Parts(head: Addr, elems: seq<Addr>, tail: Addr, i: nat)
    requires i <= |elems|
    ensures SpineOf(head, elems, tail)[..i + 1] == [head] + elems[..i]
    ensures SpineOf(head, elems, tail)[i + 1..] == elems[i..] + [tail]
  {
  }

  lemma JoinedSpine(head: Addr, elems: seq<Addr>, tail: Addr, i: nat, e: Addr)
    requires i <= |elems|
    ensures SpineOf(head, elems[..i] + [e] + elems[i..], tail) == Joined(SpineOf(head, elems, tail), i, e)
  {
    Parts(head, elems, tail, i);
    Regroup(head, elems[..i], [e], elems[i..], tail);
  }

  lemma Regroup(head: Addr, a: seq<Addr>, b: seq<Addr>, c: seq<Addr>, tail: Addr)
    ensures [head] + (a + b + c) + [tail] == ([head] + a) + b + (c + [tail])
  {
  }

  lemma CutSpine(head: Addr, elems: seq<Addr>, tail: Addr, i: nat)
    requires i < |elems|
    ensures SpineOf(head, elems[..i] + elems[i + 1..], tail) == Cut(SpineOf(head, elems, tail), i + 1)
  {
    Parts(head, elems, tail, i);
    Parts(head, elems, tail, i + 1);
    Regroup(head, elems[..i], [], elems[i + 1..], tail);
    assert elems[..i] + [] + elems[i + 1..] == elems[..i] + elems[i + 1..];
    assert ([head] + elems[..i]) + [] == [head] + elems[..i];
  }

  lemma CutOut(spine: seq<Addr>, i: nat)
    requires 0 < i && i + 1 < |spine| && Distinct(spine)
    ensures spine[i] !in Cut(spine, i)
  {
    forall j | 0 <= j < |Cut(spine, i)| ensures Cut(spine, i)[j] != spine[i] { CutAround(spine, i, j); }
  }

  /** The sentinels link to the ends. */
  lemma Ends(x: Op, m: Memory, head: Addr, elems: seq<Addr>, tail: Addr)
    requires Lawful(x) && Linked(x, m, SpineOf(head, elems, tail))
    ensures m[head].pn == SpineOf(head, elems, tail)[1] && m[tail].pn == SpineOf(head, elems, tail)[|elems|]
  {
    Obeys(x);
    assert LinkedAt(x, m, SpineOf(head, elems, tail), 0);
    assert LinkedAt(x, m, SpineOf(head, elems, tail), |elems| + 1);
  }

  lemma AtStart(elems: seq<Addr>, e: Addr)
    ensures elems[..0] + [e] + elems[0..] == [e] + elems
  {
  }

  lemma AtEnd(elems: seq<Addr>, e: Addr)
    ensures elems[..|elems|] + [e] + elems[|elems|..] == elems + [e]
  {
  }

  lemma LinkedIn(x: Op, m: Memory, head: Addr, elems: seq<Addr>, tail: Addr, i: nat, e: Addr, value: int, prev: Addr,
                 next: Addr)
    requires Lawful(x) && Linked(x, m, SpineOf(head, elems, tail)) && i <= |elems|
    requires prev == SpineOf(head, elems, tail)[i] && next == SpineOf(head, elems, tail)[i + 1]
    requires e != NIL && e !in SpineOf(head, elems, tail) && (e in m ==> m[e].value == value)
    ensures var m' := Inserted(x, m, e, value, prev, next);
            && Linked(x, m', SpineOf(head, elems[..i] + [e] + elems[i..], tail))
            && Kept(m, m', SpineOf(head, elems, tail) + [e]) && e in m' && m'[e].value == value
  {
    var s := SpineOf(head, elems, tail);
    InsertedLinked(x, m, s, i, e, value);
    InsertedKept(x, m, s, i, e, value);
    JoinedSpine(head, elems, tail, i, e);
  }

  lemma LinkedOut(x: Op, m: Memory, head: Addr, elems: seq<Addr>, tail: Addr, i: nat, e: Addr, prev: Addr, next: Addr)
    requires Lawful(x) && Linked(x, m, SpineOf(head, elems, tail)) && i < |elems|
    requires e == elems[i] && prev == SpineOf(head, elems, tail)[i] && next == SpineOf(head, elems, tail)[i + 2]
    ensures prev in m && next in m && e in m
    ensures var m', rest := Removed(x, m, e, prev, next), SpineOf(head, elems[..i] + elems[i + 1..], tail);
            && Linked(x, m', rest) && e !in rest
            && Kept(m, m', SpineOf(head, elems, tail)) && e in m' && m'[e].pn == NIL
  {
    var s := SpineOf(head, elems, tail);
    assert s[i + 1] == e;
    RemovedLinked(x, m, s, i + 1);
    RemovedKept(x, m, s, i + 1);
    CutSpine(head, elems, tail, i);
    CutOut(s, i + 1);
  }

  class List {
    const heap: Heap
    const head: Addr
    const tail: Addr
    var len: int
    ghost var elems: seq<Addr>

    ghost function Spine(): (s: seq<Addr>)
      reads this
    {
      SpineOf(head, elems, tail)
    }

    ghost predicate Valid()
      reads this, heap
    {
      Lawful(heap.x) && Linked(heap.x, heap.cells, Spine()) && len == |elems|
    }

    /** An empty list at two addresses. */
    constructor (heap: Heap, head: Addr, tail: Addr)
      requires Lawful(heap.x) && head != NIL && tail != NIL && head != tail && head !in heap.cells &&
               tail !in heap.cells
      modifies heap
      ensures Valid() && elems == [] && this.heap == heap && this.head == head && this.tail == tail
      ensures Kept(old(heap.cells), heap.cells, [head, tail])
    {
      this.heap, this.head, this.tail, len, elems := heap, head, tail, 0, [];
      heap.cells := heap.cells[head := Element(tail, 0)][tail := Element(head, 0)];
      new;
      Obeys(heap.x);
      assert LinkedAt(heap.x, heap.cells, Spine(), 0) && LinkedAt(heap.x, heap.cells, Spine(), 1);
    }

    /** Links `e` in between two neighbours, the ones at places `i` and `i + 1`. */
    method Insert(e: Addr, value: int, prev: Addr, next: Addr, ghost i: nat)
      requires Valid() && i <= |elems| && prev == Spine()[i] && next == Spine()[i + 1] && Loose(e, value)
      modifies this, heap
      ensures Valid() && elems == old(elems)[..i] + [e] + old(elems)[i..]
      ensures Kept(old(heap.cells), heap.cells, old(Spine()) + [e]) && e in heap.cells && heap.cells[e].value == value
    {
      LinkIn(e, value, prev, next, i);
      Become(len + 1, elems[..i] + [e] + elems[i..]);
    }

    method LinkIn(e: Addr, value: int, prev: Addr, next: Addr, ghost i: nat)
      requires Valid() && i <= |elems| && prev == Spine()[i] && next == Spine()[i + 1] && Loose(e, value)
      modifies heap
      ensures Linked(heap.x, heap.cells, SpineOf(head, elems[..i] + [e] + elems[i..], tail))
      ensures Kept(old(heap.cells), heap.cells, Spine() + [e]) && e in heap.cells && heap.cells[e].value == value
    {
      LinkedIn(heap.x, heap.cells, head, elems, tail, i, e, value, prev, next);
      heap.cells := Inserted(heap.x, heap.cells, e, value, prev, next);
    }

    method Become(n: int, ghost now: seq<Addr>)
      requires Lawful(heap.x) && Linked(heap.x, heap.cells, SpineOf(head, now, tail)) && n == |now|
      modifies this
      ensures Valid() && elems == now
    {
      len, elems := n, now;
    }

    /** Takes out the element at place `i + 1`. */
    method Unlink(e: Addr, prev: Addr, next: Addr, ghost i: nat)
      requires Valid() && i < |elems| && e == elems[i] && prev == Spine()[i] && next == Spine()[i + 2]
      modifies this, heap
      ensures Valid() && elems == old(elems)[..i] + old(elems)[i + 1..] && e !in Spine()
      ensures Kept(old(heap.cells), heap.cells, old(Spine())) && heap.cells[e].pn == NIL
    {
      LinkOut(e, prev, next, i);
      Become(len - 1, elems[..i] + elems[i + 1..]);
    }

    method LinkOut(e: Addr, prev: Addr, next: Addr, ghost i: nat)
      requires Valid() && i < |elems| && e == elems[i] && prev == Spine()[i] && next == Spine()[i + 2]
      modifies heap
      ensures Linked(heap.x, heap.cells, SpineOf(head, elems[..i] + elems[i + 1..], tail))
      ensures e !in SpineOf(head, elems[..i] + elems[i + 1..], tail)
      ensures Kept(old(heap.cells), heap.cells, Spine()) && e in heap.cells && heap.cells[e].pn == NIL
    {
      LinkedOut(heap.x, heap.cells, head, elems, tail, i, e, prev, next);
      heap.cells := Removed(heap.x, heap.cells, e, prev, next);
    }

    /** The element after the one at place `i`, given the one before it. */
    method GoOn(e: Addr, prev: Addr, ghost i: nat) returns (next: Addr)
      requires Valid() && i <= |elems| && e == Spine()[i] && prev == Before(Spine(), i)
      ensures next == if i < |elems| then elems[i] else NIL
    {
      NextIs(heap.x, heap.cells, Spine(), i);
      next := Next(heap.x, heap.cells, e, prev).a;
    }

    /** The element before number `i`, or before the tail, given the one after it. */
    method GoBack(e: Addr, next: Addr, ghost i: nat) returns (prev: Addr)
      requires Valid() && i <= |elems| && e == Spine()[i + 1] && next == After(Spine(), i + 1)
      ensures prev == if i > 0 then elems[i - 1] else NIL
    {
      PrevIs(heap.x, heap.cells, Spine(), i + 1);
      prev := Prev(heap.x, heap.cells, e, next).a;
    }

    /** The first element, and the head. */
    method Front() returns (front: Addr, h: Addr)
      requires Valid()
      ensures elems == [] ==> front == NIL && h == NIL
      ensures elems != [] ==> front == elems[0] && h == head
    {
      if len == 0 {
        return NIL, NIL;
      }
      Ends(heap.x, heap.cells, head, elems, tail);
      return heap.cells[head].pn, head;
    }

    /** The last element, and the tail. */
    method Back() returns (back: Addr, t: Addr)
      requires Valid()
      ensures elems == [] ==> back == NIL && t == NIL
      ensures elems != [] ==> back == elems[|elems| - 1] && t == tail
    {
      if len == 0 {
        return NIL, NIL;
      }
      Ends(heap.x, heap.cells, head, elems, tail);
      return heap.cells[tail].pn, tail;
    }

    /** Walking on, `cur` is element number `i`, or none is left; none before it is `e`. */
    ghost predicate Passed(e: Addr, prev: Addr, cur: Addr, i: nat)
      reads this
    {
      && i <= |elems| && prev == Spine()[i] && cur == (if i < |elems| then elems[i] else NIL)
      && forall j :: 0 <= j < i ==> elems[j] != e
    }

    method StepOn(e: Addr, prev: Addr, cur: Addr, ghost i: nat) returns (next: Addr)
      requires Valid() && Passed(e, prev, cur, i) && cur != NIL && cur != e
      ensures Passed(e, cur, next, i + 1)
    {
      next := GoOn(cur, prev, i + 1);
    }

    /** Walks on from the head until `e` or the tail is met. */
    method WalkOn(e: Addr) returns (prev: Addr, cur: Addr, ghost i: nat)
      requires Valid() && e != NIL
      ensures Passed(e, prev, cur, i) && (cur == NIL || cur == e || cur == tail)
    {
      prev, i := head, 0;
      cur := GoOn(prev, NIL, 0);
      while cur != NIL && cur != e && cur != tail
        invariant Passed(e, prev, cur, i)
        decreases |elems| - i
      {
        var next := StepOn(e, prev, cur, i);
        prev, cur, i := cur, next, i + 1;
      }
    }

    /** The element before `e`, found from the head. */
    method FindPrev(e: Addr) returns (prev: Addr, ghost i: nat)
      requires Valid() && e != NIL
      ensures e in elems ==> i < |elems| && elems[i] == e && prev == Spine()[i]
      ensures e !in elems ==> prev == NIL
    {
      SentinelsApart(heap.x, heap.cells, head, elems, tail);
      var cur;
      prev, cur, i := WalkOn(e);
      if cur != e {
        prev := NIL;
      }
    }

    /** Walks back from the tail until `e` or the head is met. */
    method WalkBack(e: Addr) returns (next: Addr, cur: Addr, ghost k: nat)
      requires Valid() && e != NIL
      ensures k <= |elems| && next == Spine()[k + 1] && cur == (if k > 0 then elems[k - 1] else NIL)
      ensures e !in elems[k..] && (cur == NIL || cur == e || cur == head)
    {
      ghost var s, el := Spine(), elems;
      next, k := tail, |elems|;
      cur := GoBack(next, NIL, k);
      while cur != NIL && cur != e && cur != head
        invariant k <= |el| && next == s[k + 1] && cur == (if k > 0 then el[k - 1] else NIL) && e !in el[k..]
        decreases k
      {
        assert el[k - 1..] == [cur] + el[k..];
        k := k - 1;
        assert cur == s[k + 1];
        var before := GoBack(cur, next, k);
        next, cur := cur, before;
      }
    }

    /** The element after `e`, found from the tail. */
    method FindNext(e: Addr) returns (next: Addr, ghost at: nat)
      requires Valid() && e != NIL
      ensures e in elems ==> 0 < at <= |elems| && elems[at - 1] == e == Spine()[at] && next == Spine()[at + 1]
      ensures e !in elems ==> next == NIL
    {
      SentinelsApart(heap.x, heap.cells, head, elems, tail);
      var cur;
      next, cur, at := WalkBack(e);
      assert elems[0..] == elems;
      if cur != e {
        next := NIL;
      }
    }

    // ----- operations -----

    /** Takes `e` out, if it is in the list. */
    method Remove(e: Addr) returns (value: int)
      requires Valid() && e != NIL && e in heap.cells
      modifies this, heap
      ensures Valid() && value == old(heap.cells[e].value) && Kept(old(heap.cells), heap.cells, old(Spine()))
      ensures e !in old(elems) ==> elems == old(elems) && heap.cells == old(heap.cells)
      ensures e in old(elems) ==> elems == Less(old(elems), e) && heap.cells[e].pn == NIL && e !in Spine()
    {
      value := heap.cells[e].value;
      var _ := Detach(e);
    }

    /** Takes `e` out, if it is in the list, and tells whether it was. */
    method Detach(e: Addr) returns (was: bool)
      requires Valid() && e != NIL
      modifies this, heap
      ensures Valid() && was == (e in old(elems)) && Kept(old(heap.cells), heap.cells, old(Spine()))
      ensures !was ==> elems == old(elems) && heap.cells == old(heap.cells)
      ensures was ==> elems == Less(old(elems), e) && e in heap.cells && heap.cells[e].pn == NIL && e !in Spine()
    {
      SentinelsApart(heap.x, heap.cells, head, elems, tail);
      var prev;
      ghost var i;
      prev, i := FindPrev(e);
      if prev == NIL {
        return false;
      }
      LessIs(elems, e, i);
      var next := GoOn(e, prev, i + 1);
      if next == NIL {
        next := tail;
      }
      Unlink(e, prev, next, i);
      return true;
    }

    method PushFront(value: int, e: Addr)
      requires Valid() && Loose(e, value)
      modifies this, heap
      ensures Valid() && elems == [e] + old(elems)
      ensures Kept(old(heap.cells), heap.cells, old(Spine()) + [e]) && e in heap.cells && heap.cells[e].value == value
    {
      Ends(heap.x, heap.cells, head, elems, tail);
      AtStart(elems, e);
      Insert(e, value, head, heap.cells[head].pn, 0);
    }

    method PushBack(value: int, e: Addr)
      requires Valid() && Loose(e, value)
      modifies this, heap
      ensures Valid() && elems == old(elems) + [e]
      ensures Kept(old(heap.cells), heap.cells, old(Spine()) + [e]) && e in heap.cells && heap.cells[e].value == value
    {
      Ends(heap.x, heap.cells, head, elems, tail);
      AtEnd(elems, e);
      Insert(e, value, heap.cells[tail].pn, tail, |elems|);
    }

    /** An address that is not in the list; nothing is there yet, or an element with this value. */
    ghost predicate Loose(e: Addr, value: int)
      reads this, heap
    {
      e != NIL && e !in Spine() && (e in heap.cells ==> heap.cells[e].value == value)
    }

    /** Links `e` in before `mark`, if that is in the list. */
    method InsertBefore(value: int, mark: Addr, e: Addr) returns (done: bool)
      requires Valid() && Loose(e, value) && mark != NIL
      modifies this, heap
      ensures Valid() && done == (mark in old(elems)) && Kept(old(heap.cells), heap.cells, old(Spine()) + [e])
      ensures !done ==> elems == old(elems) && heap.cells == old(heap.cells)
      ensures done ==> elems == With(old(elems), mark, e, 0) && e in heap.cells && heap.cells[e].value == value
    {
      SentinelsApart(heap.x, heap.cells, head, elems, tail);
      var prev;
      ghost var i;
      prev, i := FindPrev(mark);
      if prev == NIL {
        return false;
      }
      WithIs(elems, mark, e, 0, i, i);
      Insert(e, value, prev, mark, i);
      return true;
    }

    /** Links `e` in after `mark`, if that is in the list. */
    method InsertAfter(value: int, mark: Addr, e: Addr) returns (done: bool)
      requires Valid() && Loose(e, value) && mark != NIL
      modifies this, heap
      ensures Valid() && done == (mark in old(elems)) && Kept(old(heap.cells), heap.cells, old(Spine()) + [e])
      ensures !done ==> elems == old(elems) && heap.cells == old(heap.cells)
      ensures done ==> elems == With(old(elems), mark, e, 1) && e in heap.cells && heap.cells[e].value == value
    {
      SentinelsApart(heap.x, heap.cells, head, elems, tail);
      var next;
      ghost var at;
      next, at := FindNext(mark);
      if next == NIL {
        return false;
      }
      WithIs(elems, mark, e, 1, at - 1, at);
      Insert(e, value, mark, next, at);
      return true;
    }

    method MoveToFront(e: Addr)
      requires Valid() && e != NIL
      modifies this, heap
      ensures Valid() && elems == if e in old(elems) then [e] + Less(old(elems), e) else old(elems)
      ensures Kept(old(heap.cells), heap.cells, old(Spine()))
    {
      ghost var m, l := heap.cells, elems;
      var was := Detach(e);
      if !was {
        return;
      }
      ghost var m' := heap.cells;
      PushFront(heap.cells[e].value, e);
      KeptMove(m, m', heap.cells, head, l, tail, e);
    }

    method MoveToBack(e: Addr)
      requires Valid() && e != NIL
      modifies this, heap
      ensures Valid() && elems == if e in old(elems) then Less(old(elems), e) + [e] else old(elems)
      ensures Kept(old(heap.cells), heap.cells, old(Spine()))
    {
      ghost var m, l := heap.cells, elems;
      var was := Detach(e);
      if !was {
        return;
      }
      ghost var m' := heap.cells;
      PushBack(heap.cells[e].value, e);
      KeptMove(m, m', heap.cells, head, l, tail, e);
    }

    method MoveBefore(e: Addr, mark: Addr)
      requires Valid()
      modifies this, heap
      ensures Valid() && Kept(old(heap.cells), heap.cells, old(Spine()))
      ensures e == mark || e !in old(elems) || mark !in old(elems) ==> elems == old(elems)
      ensures e != mark && e in old(elems) && mark in old(elems) ==> elems == With(Less(old(elems), e), mark, e, 0)
    {
      SentinelsApart(heap.x, heap.cells, head, elems, tail);
      if e == NIL || mark == NIL || e == mark {
        return;
      }
      ghost var m, l := heap.cells, elems;
      var before;
      ghost var i;
      before, i := FindPrev(mark);
      if before == NIL {
        return;
      }
      var was := Detach(e);
      if !was {
        return;
      }
      LessHas(l, e, mark);
      ghost var m' := heap.cells;
      var _ := InsertBefore(heap.cells[e].value, mark, e);
      KeptMove(m, m', heap.cells, head, l, tail, e);
    }

    method MoveAfter(e: Addr, mark: Addr)
      requires Valid()
      modifies this, heap
      ensures Valid() && Kept(old(heap.cells), heap.cells, old(Spine()))
      ensures e == mark || e !in old(elems) || mark !in old(elems) ==> elems == old(elems)
      ensures e != mark && e in old(elems) && mark in old(elems) ==> elems == With(Less(old(elems), e), mark, e, 1)
    {
      SentinelsApart(heap.x, heap.cells, head, elems, tail);
      if e == NIL || mark == NIL || e == mark {
        return;
      }
      ghost var m, l := heap.cells, elems;
      var before;
      ghost var i;
      before, i := FindPrev(mark);
      if before == NIL {
        return;
      }
      var was := Detach(e);
      if !was {
        return;
      }
      LessHas(l, e, mark);
      ghost var m' := heap.cells;
      var _ := InsertAfter(heap.cells[e].value, mark, e);
      KeptMove(m, m', heap.cells, head, l, tail, e);
    }

  }

  lemma InSpine(head: Addr, l: seq<Addr>, tail: Addr, a: Addr)
    ensures a in SpineOf(head, l, tail) <==> a == head || a == tail || a in l
  {
    var s := SpineOf(head, l, tail);
    assert s[0] == head && s[|l| + 1] == tail;
    if a in l {
      var i :| 0 <= i < |l| && l[i] == a;
      assert s[i + 1] == a;
    }
  }

  /** Taking an element of the list out and putting it in again touches the list only. */
  lemma KeptMove(one: Memory, two: Memory, three: Memory, head: Addr, l: seq<Addr>, tail: Addr, e: Addr)
    requires e in l && Kept(one, two, SpineOf(head, l, tail)) && Kept(two, three, SpineOf(head, Less(l, e), tail) + [e])
    ensures Kept(one, three, SpineOf(head, l, tail))
  {
    forall a | a in one && a !in SpineOf(head, l, tail) ensures three[a] == one[a] {
      InSpine(head, l, tail, a);
      InSpine(head, Less(l, e), tail, a);
      assert a !in SpineOf(head, Less(l, e), tail) + [e];
    }
  }

  lemma LessHas(s: seq<Addr>, e: Addr, a: Addr)
    requires e in s && a in s && a != e
    ensures a in Less(s, e)
  {
    var i, j := Place(s, e), Place(s, a);
    assert Less(s, e)[if j < i then j else j - 1] == a;
  }

  // ----- the same on sequences -----

  /** Where an address is. */
  ghost function Place(s: seq<Addr>, a: Addr): (i: nat)
    requires a in s
    ensures i < |s| && s[i] == a
  {
    var i :| 0 <= i < |s| && s[i] == a;
    i
  }

  lemma PlaceIs(s: seq<Addr>, a: Addr, i: nat)
    requires Distinct(s) && i < |s| && s[i] == a
    ensures a in s && Place(s, a) == i
  {
  }

  /** `s` without `a`. */
  ghost function Less(s: seq<Addr>, a: Addr): (r: seq<Addr>)
    ensures forall x :: x in r ==> x in s
  {
    if a in s then s[..Place(s, a)] + s[Place(s, a) + 1..] else s
  }

  lemma LessIs(s: seq<Addr>, a: Addr, i: nat)
    requires Distinct(s) && i < |s| && s[i] == a
    ensures a in s && Less(s, a) == s[..i] + s[i + 1..]
  {
    PlaceIs(s, a, i);
  }

  /** `s` with `e` before (0) or after (1) `mark`. */
  ghost function With(s: seq<Addr>, mark: Addr, e: Addr, d: nat): seq<Addr>
    requires d <= 1
  {
    if mark in s then s[..Place(s, mark) + d] + [e] + s[Place(s, mark) + d..] else s
  }

  lemma WithIs(s: seq<Addr>, mark: Addr, e: Addr, d: nat, i: nat, at: nat)
    requires Distinct(s) && i < |s| && s[i] == mark && d <= 1 && at == i + d
    ensures With(s, mark, e, d) == s[..at] + [e] + s[at..]
  {
    PlaceIs(s, mark, i);
  }
}
