/** Node memory: addresses, ownership contexts, and what one write step of a tree may
    change in a memory that other trees share. */
module BTreeMemory {
  import opened BTreeOrder
  import opened BTreeShape

  /** A write context, identified by its tag. Trees cloned from one another share a free list. */
  datatype Context = Context(tag: nat, freelist: nat)

  /** A node in memory. No context owns a node that was freed. */
  datatype Cell<T> = Cell(items: seq<T>, children: seq<nat>, cow: Option<Context>)

  /** What stays in a node cut at item `j`. */
  function CutLeft<T>(cell: Cell<T>, j: nat): Cell<T>
    requires j < |cell.items| && (cell.children != [] ==> j < |cell.children|)
  {
    Cell(cell.items[..j], if cell.children == [] then [] else cell.children[..j + 1], cell.cow)
  }

  /** What moves to the node behind it. */
  function CutRight<T>(cell: Cell<T>, j: nat): Cell<T>
    requires j < |cell.items| && (cell.children != [] ==> j < |cell.children|)
  {
    Cell(cell.items[j + 1..], if cell.children == [] then [] else cell.children[j + 1..], cell.cow)
  }

  type Memory<T> = map<nat, Cell<T>>

  ghost predicate Used<T>(m: Memory<T>, x: nat) {
    x in m && m[x].cow.Some?
  }

  ghost predicate Kept<T>(m: Memory<T>, m': Memory<T>, x: nat) {
    x in m && x in m' && m'[x] == m[x]
  }

  /** The memory holds the tree value at the addresses the value names. */
  ghost predicate Held<T>(m: Memory<T>, t: Tree<T>) {
    HeldTop(m, t) && forall i :: 0 <= i < |t.kids| ==> Held(m, t.kids[i])
  }

  ghost predicate HeldTop<T>(m: Memory<T>, t: Tree<T>) {
    && Used(m, t.id) && m[t.id].items == t.items && |m[t.id].children| == |t.kids|
    && forall i :: 0 <= i < |t.kids| ==> m[t.id].children[i] == t.kids[i].id
  }

  /** Nothing in use changes, except nodes of `t` that context `c` owns. */
  ghost predicate Framed<T>(m: Memory<T>, m': Memory<T>, c: Context, t: Tree<T>) {
    forall x: nat :: Used(m, x) && (Occ(t, x) == 0 || m[x].cow != Some(c)) ==> Kept(m, m', x)
  }

  /** The nodes of `t'` come from `t` or were not in use. */
  ghost predicate Grown<T>(m: Memory<T>, t: Tree<T>, t': Tree<T>) {
    forall x: nat :: Occ(t', x) > 0 ==> Occ(t, x) > 0 || !Used(m, x)
  }

  /** The nodes of `t'` belong to `c` or have kept their owner. */
  ghost predicate Owned<T>(m: Memory<T>, m': Memory<T>, c: Context, t': Tree<T>) {
    forall x: nat :: Occ(t', x) > 0 ==>
      x in m' && (m'[x].cow == Some(c) || (Used(m, x) && m'[x].cow == m[x].cow))
  }

  /** A write by context `c` that turns the tree `t` into `t'`. */
  ghost predicate Step<T>(m: Memory<T>, m': Memory<T>, c: Context, t: Tree<T>, t': Tree<T>) {
    Held(m', t') && Distinct(t') && Framed(m, m', c, t) && Grown(m, t, t') && Owned(m, m', c, t')
  }

  // ----- which nodes a tree depends on -----

  lemma {:induction false} HeldUsed<T>(m: Memory<T>, t: Tree<T>, x: nat)
    requires Held(m, t) && Occ(t, x) > 0
    ensures Used(m, x)
    decreases t, 1
  {
    if t.id != x {
      HeldUsedKids(m, t.kids, x);
    }
  }

  lemma {:induction false} HeldUsedKids<T>(m: Memory<T>, ks: seq<Tree<T>>, x: nat)
    requires (forall i :: 0 <= i < |ks| ==> Held(m, ks[i])) && KidOcc(ks, x) > 0
    ensures Used(m, x)
    decreases ks, 0
  {
    if Occ(ks[0], x) > 0 {
      HeldUsed(m, ks[0], x);
    } else {
      HeldUsedKids(m, ks[1..], x);
    }
  }

  /** A tree stays held when none of its nodes changes. */
  lemma {:induction false} HeldFrame<T>(m: Memory<T>, m': Memory<T>, t: Tree<T>)
    requires Held(m, t)
    requires forall x: nat :: Occ(t, x) > 0 ==> Kept(m, m', x)
    ensures Held(m', t)
    decreases t
  {
    assert Occ(t, t.id) > 0;
    forall i | 0 <= i < |t.kids| ensures Held(m', t.kids[i]) {
      forall x: nat | Occ(t.kids[i], x) > 0 ensures Kept(m, m', x) {
        OccAt(t.kids, i, x);
        assert Occ(t, x) > 0;
      }
      HeldFrame(m, m', t.kids[i]);
    }
  }

  lemma StepTrans<T>(m0: Memory<T>, m1: Memory<T>, m2: Memory<T>, c: Context, t0: Tree<T>, t1: Tree<T>, t2: Tree<T>)
    requires Step(m0, m1, c, t0, t1) && Step(m1, m2, c, t1, t2)
    ensures Step(m0, m2, c, t0, t2)
  {
    forall x: nat | Used(m0, x) && (Occ(t0, x) == 0 || m0[x].cow != Some(c))
      ensures Kept(m0, m2, x)
    {
      assert Kept(m0, m1, x) && Used(m1, x);
    }
    forall x: nat | Occ(t2, x) > 0
      ensures Occ(t0, x) > 0 || !Used(m0, x)
      ensures x in m2 && (m2[x].cow == Some(c) || (Used(m0, x) && m2[x].cow == m0[x].cow))
    {
      if Occ(t1, x) > 0 {
      } else {
        assert !Used(m1, x);
      }
    }
  }

  /** A step inside child `i` is a step of the whole tree, once the parent points at the
      child's new address. */
  lemma KidStep<T>(m: Memory<T>, m1: Memory<T>, m': Memory<T>, c: Context, t: Tree<T>, i: nat, k': Tree<T>)
    requires Held(m, t) && Distinct(t) && i < |t.kids| && m[t.id].cow == Some(c)
    requires Step(m, m1, c, t.kids[i], k')
    requires m' == m1[t.id := m[t.id].(children := m[t.id].children[i := k'.id])]
    ensures Step(m, m', c, t, WithKid(t, i, k'))
  {
    var t' := WithKid(t, i, k');
    KidStepIds(m, m1, c, t, i, k');
    HeldFrame(m1, m', k');
    forall j | 0 <= j < |t'.kids| ensures Held(m', t'.kids[j]) {
      if j != i {
        forall x: nat | Occ(t.kids[j], x) > 0 ensures Kept(m, m', x) {
          HeldUsed(m, t.kids[j], x);
          Apart(t, i, j, x);
          assert Kept(m, m1, x);
        }
        HeldFrame(m, m', t.kids[j]);
      }
    }
    KidStepFrame(m, m1, m', c, t, i, k');
  }

  lemma KidStepIds<T>(m: Memory<T>, m1: Memory<T>, c: Context, t: Tree<T>, i: nat, k': Tree<T>)
    requires Held(m, t) && Distinct(t) && i < |t.kids|
    requires Step(m, m1, c, t.kids[i], k')
    ensures Distinct(WithKid(t, i, k')) && Grown(m, t, WithKid(t, i, k'))
    ensures Occ(k', t.id) == 0
  {
    var t' := WithKid(t, i, k');
    forall x: nat
      ensures Occ(t', x) <= 1
      ensures Occ(t', x) > 0 ==> Occ(t, x) > 0 || !Used(m, x)
      ensures Occ(k', x) > 0 ==> x != t.id
    {
      WithKidOcc(t, i, k', x);
      OccAt(t.kids, i, x);
      assert Occ(t, x) <= 1 && Occ(k', x) <= 1;
      assert Used(m, x) && Occ(k', x) > 0 ==> Occ(t.kids[i], x) > 0;
      if Occ(t, x) > 0 { HeldUsed(m, t, x); }
    }
  }

  lemma KidStepFrame<T>(m: Memory<T>, m1: Memory<T>, m': Memory<T>, c: Context, t: Tree<T>, i: nat, k': Tree<T>)
    requires Held(m, t) && Distinct(t) && i < |t.kids| && m[t.id].cow == Some(c)
    requires Step(m, m1, c, t.kids[i], k')
    requires m' == m1[t.id := m[t.id].(children := m[t.id].children[i := k'.id])]
    ensures Framed(m, m', c, t) && Owned(m, m', c, WithKid(t, i, k'))
  {
    forall x: nat | Used(m, x) && (Occ(t, x) == 0 || m[x].cow != Some(c))
      ensures Kept(m, m', x)
    {
      OccAt(t.kids, i, x);
      assert x != t.id;
    }
    forall x: nat | Occ(WithKid(t, i, k'), x) > 0
      ensures x in m' && (m'[x].cow == Some(c) || (Used(m, x) && m'[x].cow == m[x].cow))
    {
      WithKidOcc(t, i, k', x);
      if x != t.id && Occ(k', x) == 0 {
        HeldUsed(m, t, x);
        assert Kept(m, m1, x);
      }
    }
  }
}
