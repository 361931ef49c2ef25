/** The elementary node rewrites of the B-tree, each a write step in the shared memory. */
module BTreeSteps {
  import opened BTreeOrder
  import opened BTreeShape
  import opened BTreeMemory

  /** Memory changes only at the addresses in `d`. */
  ghost predicate OnlyAt<T>(m: Memory<T>, m': Memory<T>, d: set<nat>) {
    forall x: nat :: x !in d ==> (x in m <==> x in m') && (x in m ==> m'[x] == m[x])
  }

  ghost predicate Avoids<T>(t: Tree<T>, d: set<nat>) {
    forall x :: x in d ==> Occ(t, x) == 0
  }

  lemma Intact<T>(m: Memory<T>, m': Memory<T>, d: set<nat>, t: Tree<T>)
    requires Held(m, t) && OnlyAt(m, m', d) && Avoids(t, d)
    ensures Held(m', t)
  {
    forall x: nat | Occ(t, x) > 0 ensures Kept(m, m', x) { HeldUsed(m, t, x); }
    HeldFrame(m, m', t);
  }

  /** A rewrite of owned and unused addresses only is a step. */
  lemma Rewrite<T>(m: Memory<T>, m': Memory<T>, c: Context, t: Tree<T>, t': Tree<T>, d: set<nat>)
    requires Held(m, t) && Distinct(t) && OnlyAt(m, m', d)
    requires forall x :: x in d && Used(m, x) ==> Occ(t, x) > 0 && m[x].cow == Some(c)
    requires forall x :: x in d && Occ(t', x) > 0 ==> x in m' && m'[x].cow == Some(c)
    requires Held(m', t') && Grown(m, t, t') && Distinct(t')
    ensures Step(m, m', c, t, t')
  {
    forall x: nat | Occ(t', x) > 0
      ensures x in m' && (m'[x].cow == Some(c) || (Used(m, x) && m'[x].cow == m[x].cow))
    {
      HeldUsed(m', t', x);
    }
  }

  /** A child's subtrees avoid the child, its parent and its other siblings. */
  lemma GrandAvoids<T>(t: Tree<T>, i: nat, j: nat, d: set<nat>)
    requires Distinct(t) && i < |t.kids| && j < |t.kids[i].kids|
    requires forall x :: x in d ==> Occ(t.kids[i], x) == 0 || x == t.kids[i].id
    ensures Avoids(t.kids[i].kids[j], d)
  {
    forall x | x in d ensures Occ(t.kids[i].kids[j], x) == 0 {
      OccAt(t.kids[i].kids, j, x);
      OccAt(t.kids, i, x);
      assert Occ(t, x) <= 1;
    }
  }

  // ----- writing a node's items -----

  lemma ItemsStep<T>(m: Memory<T>, m': Memory<T>, c: Context, t: Tree<T>, items: seq<T>)
    requires Held(m, t) && Distinct(t) && m[t.id].cow == Some(c)
    requires m' == m[t.id := m[t.id].(items := items)]
    ensures Step(m, m', c, t, Node(t.id, items, t.kids))
  {
    var t' := Node(t.id, items, t.kids);
    forall x: nat ensures Occ(t', x) == Occ(t, x) {}
    forall i | 0 <= i < |t.kids| ensures Held(m', t.kids[i]) {
      OccAt(t.kids, i, t.id);
      assert Occ(t, t.id) <= 1;
      Intact(m, m', {t.id}, t.kids[i]);
    }
    assert Held(m', t');
    Rewrite(m, m', c, t, t', {t.id});
  }

  // ----- copying a node -----

  lemma CopyStep<T>(m: Memory<T>, m': Memory<T>, c: Context, t: Tree<T>, n: nat)
    requires Held(m, t) && Distinct(t) && !Used(m, n)
    requires m' == m[n := Cell(m[t.id].items, m[t.id].children, Some(c))]
    ensures Step(m, m', c, t, Node(n, t.items, t.kids))
  {
    var t' := Node(n, t.items, t.kids);
    forall x: nat ensures Occ(t', x) == KidOcc(t.kids, x) + (if x == n then 1 else 0)
      ensures KidOcc(t.kids, x) > 0 ==> Used(m, x)
    {
      if KidOcc(t.kids, x) > 0 { HeldUsedKids(m, t.kids, x); }
      assert Occ(t, x) <= 1;
    }
    forall i | 0 <= i < |t.kids| ensures Held(m', t.kids[i]) {
      OccAt(t.kids, i, n);
      Intact(m, m', {n}, t.kids[i]);
    }
    assert Held(m', t');
    Rewrite(m, m', c, t, t', {n});
  }

  // ----- splitting child `i` at item `j` -----

  ghost function LeftHalf<T>(k: Tree<T>, j: nat): Tree<T>
    requires j < |k.items| && (k.kids != [] ==> |k.kids| == |k.items| + 1)
  {
    Node(k.id, k.items[..j], if k.kids == [] then [] else k.kids[..j + 1])
  }

  ghost function RightHalf<T>(k: Tree<T>, j: nat, n: nat): Tree<T>
    requires j < |k.items| && (k.kids != [] ==> |k.kids| == |k.items| + 1)
  {
    Node(n, k.items[j + 1..], if k.kids == [] then [] else k.kids[j + 1..])
  }

  ghost function Widened<T>(t: Tree<T>, i: nat, l: Tree<T>, x: T, r: Tree<T>): (t': Tree<T>)
    requires i < |t.kids| == |t.items| + 1
    ensures i + 1 < |t'.kids| == |t'.items| + 1
  {
    Node(t.id, t.items[..i] + [x] + t.items[i..], t.kids[..i] + [l, r] + t.kids[i + 1..])
  }

  lemma WidenNarrow<T>(t: Tree<T>, i: nat, l: Tree<T>, x: T, r: Tree<T>)
    requires i < |t.kids| == |t.items| + 1
    ensures Narrowed(Widened(t, i, l, x, r), i, t.kids[i]) == t
  {
    var w := Widened(t, i, l, x, r);
    assert w.items[..i] == t.items[..i] && w.items[i + 1..] == t.items[i..];
    assert w.kids[..i] == t.kids[..i] && w.kids[i + 2..] == t.kids[i + 1..];
    assert t.items[..i] + t.items[i..] == t.items;
    assert t.kids[..i] + [t.kids[i]] + t.kids[i + 1..] == t.kids;
  }

  /** Splitting is undone by merging. */
  lemma SplitMerge<T>(t: Tree<T>, i: nat, j: nat, n: nat)
    requires i < |t.kids| == |t.items| + 1 && j < |t.kids[i].items|
    requires t.kids[i].kids != [] ==> |t.kids[i].kids| == |t.kids[i].items| + 1
    ensures var k := t.kids[i];
            var l, r := LeftHalf(k, j), RightHalf(k, j, n);
            && Fused(k.id, l, k.items[j], r) == k
            && Narrowed(Widened(t, i, l, k.items[j], r), i, k) == t
  {
    var k := t.kids[i];
    var l, r := LeftHalf(k, j), RightHalf(k, j, n);
    var w := Widened(t, i, l, k.items[j], r);
    assert l.items + [k.items[j]] + r.items == k.items && l.kids + r.kids == k.kids;
    WidenNarrow(t, i, l, k.items[j], r);
  }

  ghost predicate HalvesWritten<T>(m: Memory<T>, m': Memory<T>, c: Context, t: Tree<T>, i: nat, j: nat, n: nat)
    requires Held(m, t) && i < |t.kids| == |t.items| + 1 && j < |t.kids[i].items|
    requires t.kids[i].kids != [] ==> |t.kids[i].kids| == |t.kids[i].items| + 1
  {
    var k := t.kids[i];
    var l, r := LeftHalf(k, j), RightHalf(k, j, n);
    && OnlyAt(m, m', {t.id, k.id, n})
    && HeldTop(m', l) && HeldTop(m', r) && HeldTop(m', Widened(t, i, l, k.items[j], r))
    && m'[t.id].cow == Some(c) && m'[k.id].cow == Some(c) && m'[n].cow == Some(c)
  }

  lemma SplitHeld<T>(m: Memory<T>, m': Memory<T>, c: Context, t: Tree<T>, i: nat, j: nat, n: nat)
    requires Held(m, t) && Distinct(t) && i < |t.kids| == |t.items| + 1 && j < |t.kids[i].items|
    requires t.kids[i].kids != [] ==> |t.kids[i].kids| == |t.kids[i].items| + 1
    requires !Used(m, n) && HalvesWritten(m, m', c, t, i, j, n)
    ensures Held(m', Widened(t, i, LeftHalf(t.kids[i], j), t.kids[i].items[j], RightHalf(t.kids[i], j, n)))
  {
    var k, d := t.kids[i], {t.id, t.kids[i].id, n};
    var l, r := LeftHalf(k, j), RightHalf(k, j, n);
    var w := Widened(t, i, l, k.items[j], r);
    assert Held(m', l) && Held(m', r) by {
      forall g | 0 <= g < |k.kids| ensures Held(m', k.kids[g]) {
        GrandIntact(m, m', t, i, g, n);
      }
    }
    forall a | 0 <= a < |w.kids| ensures Held(m', w.kids[a]) {
      if a < i {
        SiblingIntact(m, m', t, i, a, n);
      } else if a > i + 1 {
        assert w.kids[a] == t.kids[a - 1];
        SiblingIntact(m, m', t, i, a - 1, n);
      }
    }
  }

  lemma GrandIntact<T>(m: Memory<T>, m': Memory<T>, t: Tree<T>, i: nat, g: nat, n: nat)
    requires Held(m, t) && Distinct(t) && i < |t.kids| && g < |t.kids[i].kids| && !Used(m, n)
    requires OnlyAt(m, m', {t.id, t.kids[i].id, n})
    ensures Held(m', t.kids[i].kids[g])
  {
    if Occ(t, n) > 0 { HeldUsed(m, t, n); }
    OccAt(t.kids, i, n);
    OccAt(t.kids, i, t.id);
    assert Occ(t, t.id) <= 1;
    assert Held(m, t.kids[i]);
    GrandAvoids(t, i, g, {t.id, t.kids[i].id, n});
    Intact(m, m', {t.id, t.kids[i].id, n}, t.kids[i].kids[g]);
  }

  lemma SiblingIntact<T>(m: Memory<T>, m': Memory<T>, t: Tree<T>, i: nat, a: nat, n: nat)
    requires Held(m, t) && Distinct(t) && i < |t.kids| && a < |t.kids| && a != i && !Used(m, n)
    requires OnlyAt(m, m', {t.id, t.kids[i].id, n})
    ensures Held(m', t.kids[a])
  {
    if Occ(t.kids[a], n) > 0 { HeldUsed(m, t.kids[a], n); }
    Apart(t, i, a, t.id);
    Apart(t, i, a, t.kids[i].id);
    Intact(m, m', {t.id, t.kids[i].id, n}, t.kids[a]);
  }

  lemma SplitOcc<T>(t: Tree<T>, i: nat, j: nat, n: nat, x: nat)
    requires i < |t.kids| == |t.items| + 1 && j < |t.kids[i].items|
    requires t.kids[i].kids != [] ==> |t.kids[i].kids| == |t.kids[i].items| + 1
    ensures var k := t.kids[i];
            Occ(Widened(t, i, LeftHalf(k, j), k.items[j], RightHalf(k, j, n)), x) ==
              Occ(t, x) + (if x == n then 1 else 0)
  {
    var k := t.kids[i];
    var l, r := LeftHalf(k, j), RightHalf(k, j, n);
    SplitMerge(t, i, j, n);
    NarrowedOcc(Widened(t, i, l, k.items[j], r), i, k, x);
    FusedOcc(k.id, l, k.items[j], r, x);
  }

  lemma SplitStep<T>(m: Memory<T>, m': Memory<T>, c: Context, t: Tree<T>, i: nat, j: nat, n: nat)
    requires Held(m, t) && Distinct(t) && i < |t.kids| == |t.items| + 1 && j < |t.kids[i].items|
    requires t.kids[i].kids != [] ==> |t.kids[i].kids| == |t.kids[i].items| + 1
    requires !Used(m, n) && HalvesWritten(m, m', c, t, i, j, n)
    requires m[t.id].cow == Some(c) && t.kids[i].id in m && m[t.kids[i].id].cow == Some(c)
    ensures Step(m, m', c, t, Widened(t, i, LeftHalf(t.kids[i], j), t.kids[i].items[j], RightHalf(t.kids[i], j, n)))
  {
    var k := t.kids[i];
    var l, r := LeftHalf(k, j), RightHalf(k, j, n);
    var w := Widened(t, i, l, k.items[j], r);
    SplitHeld(m, m', c, t, i, j, n);
    forall x: nat ensures Occ(w, x) == Occ(t, x) + (if x == n then 1 else 0) && Occ(w, x) <= 1 {
      SplitOcc(t, i, j, n, x);
      assert Occ(t, x) <= 1;
      if Occ(t, x) > 0 { HeldUsed(m, t, x); }
    }
    OccAt(t.kids, i, k.id);
    Rewrite(m, m', c, t, w, {t.id, k.id, n});
  }

  lemma SplitContents<T>(t: Tree<T>, i: nat, j: nat, n: nat)
    requires Regular(t) && i < |t.kids| && Regular(t.kids[i]) && j < |t.kids[i].items|
    ensures var k := t.kids[i];
            var w := Widened(t, i, LeftHalf(k, j), k.items[j], RightHalf(k, j, n));
            Regular(w) && Contents(w) == Contents(t)
  {
    var k := t.kids[i];
    var l, r := LeftHalf(k, j), RightHalf(k, j, n);
    var w := Widened(t, i, l, k.items[j], r);
    SplitMerge(t, i, j, n);
    assert Regular(k) && Regular(l) && Regular(r);
    FusedContents(k.id, l, k.items[j], r);
    assert Regular(w);
    NarrowedContents(w, i, k);
  }

  // ----- rearranging children `i` and `i + 1` -----

  ghost function Trio<T>(t: Tree<T>, i: nat): set<nat>
    requires i + 1 < |t.kids|
  {
    {t.id, t.kids[i].id, t.kids[i + 1].id}
  }

  lemma TrioOcc<T>(t: Tree<T>, i: nat)
    requires i + 1 < |t.kids|
    ensures forall x :: x in Trio(t, i) ==> Occ(t, x) > 0
  {
    OccAt(t.kids, i, t.kids[i].id);
    OccAt(t.kids, i + 1, t.kids[i + 1].id);
  }

  lemma TrioApart<T>(t: Tree<T>, i: nat, a: nat, x: nat)
    requires Distinct(t) && i + 1 < |t.kids| && a < |t.kids| && x in Trio(t, i)
    ensures Occ(t.kids[a], x) == 0 || x == t.kids[a].id
  {
    OccAt(t.kids, a, x);
    assert Occ(t, x) <= 1;
    if a != i { Apart(t, i, a, x); }
    if a != i + 1 { Apart(t, i + 1, a, x); }
  }

  lemma TrioGrandIntact<T>(m: Memory<T>, m': Memory<T>, t: Tree<T>, i: nat, a: nat, g: nat)
    requires Held(m, t) && Distinct(t) && i + 1 < |t.kids| && OnlyAt(m, m', Trio(t, i))
    requires a < |t.kids| && g < |t.kids[a].kids|
    ensures Held(m', t.kids[a].kids[g])
  {
    forall x | x in Trio(t, i) ensures Occ(t.kids[a], x) == 0 || x == t.kids[a].id { TrioApart(t, i, a, x); }
    GrandAvoids(t, a, g, Trio(t, i));
    assert Held(m, t.kids[a]);
    Intact(m, m', Trio(t, i), t.kids[a].kids[g]);
  }

  lemma TrioSiblingIntact<T>(m: Memory<T>, m': Memory<T>, t: Tree<T>, i: nat, a: nat)
    requires Held(m, t) && Distinct(t) && i + 1 < |t.kids| && OnlyAt(m, m', Trio(t, i))
    requires a < |t.kids| && a != i && a != i + 1
    ensures Held(m', t.kids[a])
  {
    forall x | x in Trio(t, i) ensures Occ(t.kids[a], x) == 0 {
      OccAt(t.kids, a, x);
      Apart(t, i, a, x);
      Apart(t, i + 1, a, x);
      assert Occ(t, x) <= 1;
    }
    Intact(m, m', Trio(t, i), t.kids[a]);
  }

  ghost function Swapped<T>(t: Tree<T>, i: nat, l: Tree<T>, x: T, r: Tree<T>): Tree<T>
    requires i + 1 < |t.kids| == |t.items| + 1
  {
    Node(t.id, t.items[i := x], t.kids[i := l][i + 1 := r])
  }

  lemma SwappedOcc<T>(t: Tree<T>, i: nat, l: Tree<T>, x: T, r: Tree<T>, a: nat)
    requires i + 1 < |t.kids| == |t.items| + 1
    requires l.id == t.kids[i].id && r.id == t.kids[i + 1].id
    requires l.kids + r.kids == t.kids[i].kids + t.kids[i + 1].kids
    ensures Occ(Swapped(t, i, l, x, r), a) == Occ(t, a)
  {
    WithKidOcc(t, i, l, a);
    WithKidOcc(WithKid(t, i, l), i + 1, r, a);
    OccJoin(l.kids, r.kids, a);
    OccJoin(t.kids[i].kids, t.kids[i + 1].kids, a);
  }

  lemma SwapHeld<T>(m: Memory<T>, m': Memory<T>, t: Tree<T>, i: nat, l: Tree<T>, x: T, r: Tree<T>)
    requires Held(m, t) && Distinct(t) && i + 1 < |t.kids| == |t.items| + 1
    requires l.kids + r.kids == t.kids[i].kids + t.kids[i + 1].kids
    requires OnlyAt(m, m', Trio(t, i))
    requires HeldTop(m', l) && HeldTop(m', r) && HeldTop(m', Swapped(t, i, l, x, r))
    ensures Held(m', Swapped(t, i, l, x, r))
  {
    var t' := Swapped(t, i, l, x, r);
    TrioJoinHeld(m, m', t, i, l.kids + r.kids);
    forall g | 0 <= g < |l.kids| ensures Held(m', l.kids[g]) { assert l.kids[g] == (l.kids + r.kids)[g]; }
    forall g | 0 <= g < |r.kids| ensures Held(m', r.kids[g]) { assert r.kids[g] == (l.kids + r.kids)[|l.kids| + g]; }
    assert Held(m', l) && Held(m', r);
    forall a | 0 <= a < |t'.kids| ensures Held(m', t'.kids[a]) {
      if a != i && a != i + 1 { TrioSiblingIntact(m, m', t, i, a); }
    }
  }

  lemma TrioJoinHeld<T>(m: Memory<T>, m': Memory<T>, t: Tree<T>, i: nat, gs: seq<Tree<T>>)
    requires Held(m, t) && Distinct(t) && i + 1 < |t.kids| && OnlyAt(m, m', Trio(t, i))
    requires gs == t.kids[i].kids + t.kids[i + 1].kids
    ensures forall g :: 0 <= g < |gs| ==> Held(m', gs[g])
  {
    var n := |t.kids[i].kids|;
    forall g | 0 <= g < |gs| ensures Held(m', gs[g]) {
      if g < n { TrioGrandIntact(m, m', t, i, i, g); } else { TrioGrandIntact(m, m', t, i, i + 1, g - n); }
    }
  }

  /** Moving an item, and the subtree beside it, from one sibling to the other. */
  lemma SwapStep<T>(m: Memory<T>, m': Memory<T>, c: Context, t: Tree<T>, i: nat, l: Tree<T>, x: T, r: Tree<T>)
    requires Held(m, t) && Distinct(t) && i + 1 < |t.kids| == |t.items| + 1
    requires l.id == t.kids[i].id && r.id == t.kids[i + 1].id
    requires l.kids + r.kids == t.kids[i].kids + t.kids[i + 1].kids
    requires OnlyAt(m, m', Trio(t, i))
    requires HeldTop(m', l) && HeldTop(m', r) && HeldTop(m', Swapped(t, i, l, x, r))
    requires forall a :: a in Trio(t, i) ==> a in m && m[a].cow == Some(c) && a in m' && m'[a].cow == Some(c)
    ensures Step(m, m', c, t, Swapped(t, i, l, x, r))
  {
    var t' := Swapped(t, i, l, x, r);
    assert Distinct(t') && Grown(m, t, t') by {
      forall a: nat ensures Occ(t', a) == Occ(t, a) { SwappedOcc(t, i, l, x, r, a); }
    }
    SwapHeld(m, m', t, i, l, x, r);
    TrioOcc(t, i);
    Rewrite(m, m', c, t, t', Trio(t, i));
  }

  lemma MergeHeld<T>(m: Memory<T>, m': Memory<T>, t: Tree<T>, i: nat, k: Tree<T>)
    requires Held(m, t) && Distinct(t) && i + 1 < |t.kids| == |t.items| + 1
    requires k.kids == t.kids[i].kids + t.kids[i + 1].kids
    requires OnlyAt(m, m', Trio(t, i))
    requires HeldTop(m', k) && HeldTop(m', Narrowed(t, i, k))
    ensures Held(m', Narrowed(t, i, k))
  {
    var t' := Narrowed(t, i, k);
    TrioJoinHeld(m, m', t, i, k.kids);
    assert Held(m', k);
    forall a | 0 <= a < |t'.kids| ensures Held(m', t'.kids[a]) {
      if a < i {
        TrioSiblingIntact(m, m', t, i, a);
      } else if a > i {
        assert t'.kids[a] == t.kids[a + 1];
        TrioSiblingIntact(m, m', t, i, a + 1);
      }
    }
  }

  lemma MergeOcc<T>(m: Memory<T>, t: Tree<T>, i: nat)
    requires Distinct(t) && i + 1 < |t.kids| == |t.items| + 1
    ensures var t' := Narrowed(t, i, Fused(t.kids[i].id, t.kids[i], t.items[i], t.kids[i + 1]));
            Distinct(t') && Grown(m, t, t') && Occ(t', t.kids[i + 1].id) == 0
  {
    var l, r := t.kids[i], t.kids[i + 1];
    var k := Fused(l.id, l, t.items[i], r);
    forall a: nat ensures Occ(Narrowed(t, i, k), a) == Occ(t, a) - (if a == r.id then 1 else 0) && Occ(t, a) <= 1 {
      NarrowedOcc(t, i, k, a);
      FusedOcc(l.id, l, t.items[i], r, a);
    }
  }

  /** Merging child `i + 1` into child `i`. The merged node may be freed if `c` owns it. */
  lemma MergeStep<T>(m: Memory<T>, m': Memory<T>, c: Context, t: Tree<T>, i: nat)
    requires Held(m, t) && Distinct(t) && i + 1 < |t.kids| == |t.items| + 1
    requires forall a :: a in {t.id, t.kids[i].id} ==> a in m && m[a].cow == Some(c) && a in m' && m'[a].cow == Some(c)
    requires OnlyAt(m, m', Trio(t, i))
    requires t.kids[i + 1].id in m
    requires m[t.kids[i + 1].id].cow == Some(c) || Kept(m, m', t.kids[i + 1].id)
    requires var k := Fused(t.kids[i].id, t.kids[i], t.items[i], t.kids[i + 1]);
             HeldTop(m', k) && HeldTop(m', Narrowed(t, i, k))
    ensures Step(m, m', c, t, Narrowed(t, i, Fused(t.kids[i].id, t.kids[i], t.items[i], t.kids[i + 1])))
  {
    var l, r := t.kids[i], t.kids[i + 1];
    var k := Fused(l.id, l, t.items[i], r);
    var t' := Narrowed(t, i, k);
    var d := if m[r.id].cow == Some(c) then Trio(t, i) else {t.id, l.id};
    MergeHeld(m, m', t, i, k);
    MergeOcc(m, t, i);
    TrioOcc(t, i);
    assert Occ(t', r.id) == 0;
    Rewrite(m, m', c, t, t', d);
  }
}
