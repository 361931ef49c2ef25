/** B-tree nodes as values: each carries the address it lives at, so that one value
    fixes both what a subtree stores and which addresses it occupies. */
module BTreeShape {
  import opened BTreeOrder

  datatype Tree<T> = Node(id: nat, items: seq<T>, kids: seq<Tree<T>>)

  // ----- contents -----

  /** The stored items, in order. */
  ghost function Contents<T>(t: Tree<T>): seq<T>
    requires Regular(t)
    decreases t, 1
  {
    if t.kids == [] then t.items else Contents(t.kids[0]) + Tail(t.items, t.kids[1..])
  }

  /** Every inner node has one child more than it has items. */
  ghost predicate Regular<T>(t: Tree<T>) {
    && (t.kids != [] ==> |t.kids| == |t.items| + 1)
    && forall k :: k in t.kids ==> Regular(k)
  }

  ghost predicate AllRegular<T>(ts: seq<Tree<T>>) {
    forall k :: k in ts ==> Regular(k)
  }

  /** Each child followed by its item. */
  ghost function Pairs<T>(items: seq<T>, kids: seq<Tree<T>>): seq<T>
    requires |items| == |kids| && AllRegular(kids)
    decreases kids, 0
  {
    if kids == [] then [] else Contents(kids[0]) + [items[0]] + Pairs(items[1..], kids[1..])
  }

  /** Each item followed by its child. */
  ghost function Tail<T>(items: seq<T>, kids: seq<Tree<T>>): seq<T>
    requires |items| == |kids| && AllRegular(kids)
    decreases kids, 0
  {
    if kids == [] then [] else [items[0]] + Contents(kids[0]) + Tail(items[1..], kids[1..])
  }

  lemma {:induction false} PairsJoin<T>(xs: seq<T>, ks: seq<Tree<T>>, ys: seq<T>, ls: seq<Tree<T>>)
    requires |xs| == |ks| && |ys| == |ls| && AllRegular(ks) && AllRegular(ls)
    ensures Pairs(xs + ys, ks + ls) == Pairs(xs, ks) + Pairs(ys, ls)
    decreases |ks|
  {
    if ks == [] {
      assert xs + ys == ys && ks + ls == ls;
    } else {
      PairsJoin(xs[1..], ks[1..], ys, ls);
      assert (xs + ys)[1..] == xs[1..] + ys && (ks + ls)[1..] == ks[1..] + ls;
    }
  }

  lemma {:induction false} TailJoin<T>(xs: seq<T>, ks: seq<Tree<T>>, ys: seq<T>, ls: seq<Tree<T>>)
    requires |xs| == |ks| && |ys| == |ls| && AllRegular(ks) && AllRegular(ls)
    ensures Tail(xs + ys, ks + ls) == Tail(xs, ks) + Tail(ys, ls)
    decreases |ks|
  {
    if ks == [] {
      assert xs + ys == ys && ks + ls == ls;
    } else {
      TailJoin(xs[1..], ks[1..], ys, ls);
      assert (xs + ys)[1..] == xs[1..] + ys && (ks + ls)[1..] == ks[1..] + ls;
    }
  }

  /** What stands left of child `i`. */
  ghost function Before<T>(t: Tree<T>, i: nat): seq<T>
    requires Regular(t) && i < |t.kids|
  {
    Pairs(t.items[..i], t.kids[..i])
  }

  /** What stands right of child `i`. */
  ghost function After<T>(t: Tree<T>, i: nat): seq<T>
    requires Regular(t) && i < |t.kids|
  {
    Tail(t.items[i..], t.kids[i + 1..])
  }

  lemma BeforeStep<T>(t: Tree<T>, i: nat)
    requires Regular(t) && i + 1 < |t.kids|
    ensures Before(t, i + 1) == Before(t, i) + Contents(t.kids[i]) + [t.items[i]]
  {
    assert t.items[..i + 1] == t.items[..i] + [t.items[i]];
    assert t.kids[..i + 1] == t.kids[..i] + [t.kids[i]];
    PairsJoin(t.items[..i], t.kids[..i], [t.items[i]], [t.kids[i]]);
    assert Pairs([t.items[i]], [t.kids[i]]) == Contents(t.kids[i]) + [t.items[i]];
  }

  lemma AfterStep<T>(t: Tree<T>, i: nat)
    requires Regular(t) && i + 1 < |t.kids|
    ensures After(t, i) == [t.items[i]] + Contents(t.kids[i + 1]) + After(t, i + 1)
  {
    assert t.items[i..][1..] == t.items[i + 1..] && t.kids[i + 1..][1..] == t.kids[i + 2..];
  }

  /** The contents around child `i`. */
  lemma {:induction false} Around<T>(t: Tree<T>, i: nat)
    requires Regular(t) && i < |t.kids|
    ensures Contents(t) == Before(t, i) + Contents(t.kids[i]) + After(t, i)
  {
    if i == 0 {
      assert t.items[0..] == t.items;
    } else {
      Around(t, i - 1);
      BeforeStep(t, i - 1);
      AfterStep(t, i - 1);
      Regroup(Before(t, i - 1), Contents(t.kids[i - 1]), [t.items[i - 1]], Contents(t.kids[i]), After(t, i));
    }
  }

  lemma Regroup<T>(a: seq<T>, b: seq<T>, c: seq<T>, d: seq<T>, e: seq<T>)
    ensures a + b + (c + d + e) == (a + b + c) + d + e
    ensures a + b + (c + d + e) == a + (b + c + d) + e
    ensures a + b + (c + d + e) == (a + b) + c + (d + e)
    ensures c + d + e == c + (d + e)
  {
  }

  // ----- rearrangements that keep the contents -----

  /** The node that holds everything two siblings and the item between them hold. */
  ghost function Fused<T>(id: nat, l: Tree<T>, x: T, r: Tree<T>): Tree<T> {
    Node(id, l.items + [x] + r.items, l.kids + r.kids)
  }

  /** Two siblings are joinable when both are leaves or both are inner nodes. */
  ghost predicate Joinable<T>(l: Tree<T>, r: Tree<T>) {
    Regular(l) && Regular(r) && (l.kids == [] <==> r.kids == [])
  }

  lemma FusedContents<T>(id: nat, l: Tree<T>, x: T, r: Tree<T>)
    requires Joinable(l, r)
    ensures Regular(Fused(id, l, x, r))
    ensures Contents(Fused(id, l, x, r)) == Contents(l) + [x] + Contents(r)
  {
    if l.kids != [] {
      FusedTail(l, x, r);
      var f := Fused(id, l, x, r);
      assert f.kids[1..] == l.kids[1..] + r.kids;
      FiveParts(Contents(l.kids[0]), Tail(l.items, l.kids[1..]), [x], Contents(r.kids[0]), Tail(r.items, r.kids[1..]));
    }
  }

  lemma FusedTail<T>(l: Tree<T>, x: T, r: Tree<T>)
    requires Joinable(l, r) && l.kids != []
    ensures Tail(l.items + [x] + r.items, l.kids[1..] + r.kids) ==
            Tail(l.items, l.kids[1..]) + ([x] + Contents(r.kids[0]) + Tail(r.items, r.kids[1..]))
  {
    var ys := [x] + r.items;
    assert ys[1..] == r.items && l.items + ys == l.items + [x] + r.items;
    TailJoin(l.items, l.kids[1..], ys, r.kids);
  }

  lemma FiveParts<T>(a: seq<T>, b: seq<T>, c: seq<T>, d: seq<T>, e: seq<T>)
    ensures a + (b + (c + d + e)) == (a + b) + c + (d + e)
  {
  }

  /** Two neighbouring children and the item between them are replaced by others with
      the same joint contents. */
  lemma SwapPair<T>(t: Tree<T>, i: nat, l: Tree<T>, x: T, r: Tree<T>)
    requires Regular(t) && i + 1 < |t.kids| && Regular(l) && Regular(r)
    requires Contents(t.kids[i]) + [t.items[i]] + Contents(t.kids[i + 1]) == Contents(l) + [x] + Contents(r)
    ensures var t' := Node(t.id, t.items[i := x], t.kids[i := l][i + 1 := r]);
            Regular(t') && Contents(t') == Contents(t)
  {
    var t' := Node(t.id, t.items[i := x], t.kids[i := l][i + 1 := r]);
    PairAround(t, i);
    PairAround(t', i);
    assert t'.items[..i] == t.items[..i] && t'.kids[..i] == t.kids[..i];
    assert t'.items[i + 1..] == t.items[i + 1..] && t'.kids[i + 2..] == t.kids[i + 2..];
  }

  lemma PairAround<T>(t: Tree<T>, i: nat)
    requires Regular(t) && i + 1 < |t.kids|
    ensures Contents(t) ==
            Before(t, i) + (Contents(t.kids[i]) + [t.items[i]] + Contents(t.kids[i + 1])) + After(t, i + 1)
  {
    Around(t, i);
    AfterStep(t, i);
    Regroup(Before(t, i), Contents(t.kids[i]), [t.items[i]], Contents(t.kids[i + 1]), After(t, i + 1));
  }

  /** What stands left of item `i`. */
  ghost function Below<T>(t: Tree<T>, i: nat): seq<T>
    requires Regular(t) && i + 1 < |t.kids|
  {
    Before(t, i) + Contents(t.kids[i])
  }

  /** What stands right of item `i`. */
  ghost function Above<T>(t: Tree<T>, i: nat): seq<T>
    requires Regular(t) && i + 1 < |t.kids|
  {
    Contents(t.kids[i + 1]) + After(t, i + 1)
  }

  lemma ItemAround<T>(t: Tree<T>, i: nat)
    requires Regular(t) && i + 1 < |t.kids|
    ensures Contents(t) == Below(t, i) + [t.items[i]] + Above(t, i)
    ensures Before(t, i + 1) == Below(t, i) + [t.items[i]]
    ensures After(t, i) == [t.items[i]] + Above(t, i)
  {
    Around(t, i);
    AfterStep(t, i);
    BeforeStep(t, i);
    Regroup(Before(t, i), Contents(t.kids[i]), [t.items[i]], Contents(t.kids[i + 1]), After(t, i + 1));
  }

  /** Two neighbouring children and the item between them are replaced by one child. */
  ghost function Narrowed<T>(t: Tree<T>, i: nat, k: Tree<T>): Tree<T>
    requires i + 1 < |t.kids| == |t.items| + 1
  {
    Node(t.id, t.items[..i] + t.items[i + 1..], t.kids[..i] + [k] + t.kids[i + 2..])
  }

  lemma NarrowedContents<T>(t: Tree<T>, i: nat, k: Tree<T>)
    requires Regular(t) && i + 1 < |t.kids| && Regular(k)
    requires Contents(k) == Contents(t.kids[i]) + [t.items[i]] + Contents(t.kids[i + 1])
    ensures Regular(Narrowed(t, i, k)) && Contents(Narrowed(t, i, k)) == Contents(t)
  {
    var t' := Narrowed(t, i, k);
    PairAround(t, i);
    Around(t', i);
    assert t'.items[..i] == t.items[..i] && t'.kids[..i] == t.kids[..i];
    assert t'.items[i..] == t.items[i + 1..] && t'.kids[i + 1..] == t.kids[i + 2..];
  }

  /** One child is replaced. */
  ghost function WithKid<T>(t: Tree<T>, i: nat, k: Tree<T>): Tree<T>
    requires i < |t.kids|
  {
    Node(t.id, t.items, t.kids[i := k])
  }

  lemma WithKidContents<T>(t: Tree<T>, i: nat, k: Tree<T>)
    requires Regular(t) && i < |t.kids| && Regular(k)
    ensures Regular(WithKid(t, i, k))
    ensures Contents(WithKid(t, i, k)) == Before(t, i) + Contents(k) + After(t, i)
  {
    var t' := WithKid(t, i, k);
    Around(t', i);
    assert t'.kids[..i] == t.kids[..i] && t'.kids[i + 1..] == t.kids[i + 1..];
  }

  // ----- balance -----

  /** Height `h`, no node above `2d - 1` items, no node but the root below `d - 1`. */
  ghost predicate Fit<T>(t: Tree<T>, h: nat, d: nat)
    decreases h, 0
  {
    && |t.items| <= 2 * d - 1
    && if h == 0 then t.kids == [] else
         && |t.kids| == |t.items| + 1
         && forall i :: 0 <= i < |t.kids| ==> FitKid(t.kids[i], h - 1, d)
  }

  ghost predicate FitKid<T>(t: Tree<T>, h: nat, d: nat)
    decreases h, 1
  {
    d - 1 <= |t.items| && Fit(t, h, d)
  }

  lemma {:induction false} FitRegular<T>(t: Tree<T>, h: nat, d: nat)
    requires Fit(t, h, d)
    ensures Regular(t)
    decreases h
  {
    forall k | k in t.kids ensures Regular(k) {
      var i :| 0 <= i < |t.kids| && t.kids[i] == k;
      FitRegular(k, h - 1, d);
    }
  }

  lemma FitWithKid<T>(t: Tree<T>, i: nat, k: Tree<T>, h: nat, d: nat)
    requires Fit(t, h, d) && i < |t.kids| && h > 0 && FitKid(k, h - 1, d)
    ensures Fit(WithKid(t, i, k), h, d)
  {
  }

  // ----- addresses -----

  /** How often address `x` occurs in the subtree. */
  ghost function Occ<T>(t: Tree<T>, x: nat): nat
    decreases t, 1
  {
    (if t.id == x then 1 else 0) + KidOcc(t.kids, x)
  }

  ghost function KidOcc<T>(ks: seq<Tree<T>>, x: nat): nat
    decreases ks, 0
  {
    if ks == [] then 0 else Occ(ks[0], x) + KidOcc(ks[1..], x)
  }

  /** No address occurs twice: the nodes form a tree and not merely a graph. */
  ghost predicate Distinct<T>(t: Tree<T>) {
    forall x: nat :: Occ(t, x) <= 1
  }

  lemma {:induction false} OccJoin<T>(ks: seq<Tree<T>>, ls: seq<Tree<T>>, x: nat)
    ensures KidOcc(ks + ls, x) == KidOcc(ks, x) + KidOcc(ls, x)
    decreases |ks|
  {
    if ks == [] {
      assert ks + ls == ls;
    } else {
      OccJoin(ks[1..], ls, x);
      assert (ks + ls)[1..] == ks[1..] + ls;
    }
  }

  lemma OccAt<T>(ks: seq<Tree<T>>, i: nat, x: nat)
    requires i < |ks|
    ensures KidOcc(ks, x) == KidOcc(ks[..i], x) + Occ(ks[i], x) + KidOcc(ks[i + 1..], x)
  {
    assert ks == ks[..i] + ks[i..];
    assert ks[i..][1..] == ks[i + 1..];
    OccJoin(ks[..i], ks[i..], x);
  }

  /** Two different children share no address, and none with their parent. */
  lemma Apart<T>(t: Tree<T>, i: nat, j: nat, x: nat)
    requires Distinct(t) && i < |t.kids| && j < |t.kids| && i != j
    ensures Occ(t.kids[i], x) + Occ(t.kids[j], x) + (if t.id == x then 1 else 0) <= 1
  {
    var a, b := if i < j then i else j, if i < j then j else i;
    OccAt(t.kids, b, x);
    OccAt(t.kids[..b], a, x);
    assert Occ(t, x) <= 1;
  }

  lemma WithKidOcc<T>(t: Tree<T>, i: nat, k: Tree<T>, x: nat)
    requires i < |t.kids|
    ensures Occ(WithKid(t, i, k), x) == Occ(t, x) - Occ(t.kids[i], x) + Occ(k, x)
  {
    OccAt(t.kids, i, x);
    OccAt(t.kids[i := k], i, x);
    assert t.kids[i := k][..i] == t.kids[..i] && t.kids[i := k][i + 1..] == t.kids[i + 1..];
  }

  lemma NarrowedOcc<T>(t: Tree<T>, i: nat, k: Tree<T>, x: nat)
    requires i + 1 < |t.kids| == |t.items| + 1
    ensures Occ(Narrowed(t, i, k), x) == Occ(t, x) - Occ(t.kids[i], x) - Occ(t.kids[i + 1], x) + Occ(k, x)
  {
    var t' := Narrowed(t, i, k);
    OccAt(t.kids, i, x);
    OccAt(t.kids[i + 1..], 0, x);
    assert t.kids[i + 1..][..0] == [] && t.kids[i + 1..][1..] == t.kids[i + 2..];
    OccAt(t'.kids, i, x);
    assert t'.kids[..i] == t.kids[..i] && t'.kids[i + 1..] == t.kids[i + 2..];
  }

  lemma FusedOcc<T>(id: nat, l: Tree<T>, x: T, r: Tree<T>, a: nat)
    ensures Occ(Fused(id, l, x, r), a) ==
            (if id == a then 1 else 0) + KidOcc(l.kids, a) + KidOcc(r.kids, a)
  {
    OccJoin(l.kids, r.kids, a);
  }
}
