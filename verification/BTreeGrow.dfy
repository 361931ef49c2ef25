/** Making room before a removal descends: taking an item from a sibling, or merging with it. */
module BTreeGrow {
  import opened BTreeOrder
  import opened BTreeShape
  import opened BTreeSearch
  import opened BTreeSteps
  import opened BTreeUpdate

  function ButLast<A>(s: seq<A>): seq<A> { if s == [] then [] else s[..|s| - 1] }

  function LastOf<A>(s: seq<A>): seq<A> { if s == [] then [] else [s[|s| - 1]] }

  function FirstOf<A>(s: seq<A>): seq<A> { if s == [] then [] else [s[0]] }

  function ButFirst<A>(s: seq<A>): seq<A> { if s == [] then [] else s[1..] }

  // ----- the left sibling gives its last item -----

  ghost function Giver<T>(l: Tree<T>): Tree<T>
    requires l.items != []
  {
    Node(l.id, ButLast(l.items), ButLast(l.kids))
  }

  ghost function Taker<T>(l: Tree<T>, x: T, r: Tree<T>): Tree<T> {
    Node(r.id, [x] + r.items, LastOf(l.kids) + r.kids)
  }

  ghost function MovedRight<T>(t: Tree<T>, i: nat): Tree<T>
    requires i + 1 < |t.kids| == |t.items| + 1 && t.kids[i].items != []
  {
    var l, r := t.kids[i], t.kids[i + 1];
    Swapped(t, i, Giver(l), l.items[|l.items| - 1], Taker(l, t.items[i], r))
  }

  // ----- the right sibling gives its first item -----

  ghost function Heir<T>(l: Tree<T>, x: T, r: Tree<T>): Tree<T> {
    Node(l.id, l.items + [x], l.kids + FirstOf(r.kids))
  }

  ghost function Donor<T>(r: Tree<T>): Tree<T>
    requires r.items != []
  {
    Node(r.id, ButFirst(r.items), ButFirst(r.kids))
  }

  ghost function MovedLeft<T>(t: Tree<T>, i: nat): Tree<T>
    requires i + 1 < |t.kids| == |t.items| + 1 && t.kids[i + 1].items != []
  {
    var l, r := t.kids[i], t.kids[i + 1];
    Swapped(t, i, Heir(l, t.items[i], r), r.items[0], Donor(r))
  }

  ghost function Merged<T>(t: Tree<T>, i: nat): Tree<T>
    requires i + 1 < |t.kids| == |t.items| + 1
  {
    Narrowed(t, i, Fused(t.kids[i].id, t.kids[i], t.items[i], t.kids[i + 1]))
  }

  // ----- contents and balance -----

  lemma PairMoved<T>(t: Tree<T>, i: nat, l: Tree<T>, x: T, r: Tree<T>)
    requires Regular(t) && i + 1 < |t.kids| && Joinable(t.kids[i], t.kids[i + 1]) && Joinable(l, r)
    requires l.items + [x] + r.items == t.kids[i].items + [t.items[i]] + t.kids[i + 1].items
    requires l.kids + r.kids == t.kids[i].kids + t.kids[i + 1].kids
    ensures Regular(Swapped(t, i, l, x, r)) && Contents(Swapped(t, i, l, x, r)) == Contents(t)
  {
    FusedContents(0, t.kids[i], t.items[i], t.kids[i + 1]);
    FusedContents(0, l, x, r);
    assert Fused(0, l, x, r) == Fused(0, t.kids[i], t.items[i], t.kids[i + 1]);
    SwapPair(t, i, l, x, r);
  }

  lemma FitSwapped<T>(t: Tree<T>, i: nat, l: Tree<T>, x: T, r: Tree<T>, h: nat, d: nat)
    requires Fit(t, h, d) && i + 1 < |t.kids| && h > 0 && FitKid(l, h - 1, d) && FitKid(r, h - 1, d)
    ensures Fit(Swapped(t, i, l, x, r), h, d)
  {
  }

  /** The children of two neighbours all fit below. */
  lemma GrandFit<T>(t: Tree<T>, i: nat, h: nat, d: nat)
    requires d >= 2 && Fit(t, h, d) && i < |t.kids|
    ensures h > 0 && FitKid(t.kids[i], h - 1, d)
    ensures h > 1 ==> |t.kids[i].kids| == |t.kids[i].items| + 1
    ensures h == 1 ==> t.kids[i].kids == []
    ensures forall g :: 0 <= g < |t.kids[i].kids| ==> h > 1 && FitKid(t.kids[i].kids[g], h - 2, d)
  {
    assert FitKid(t.kids[i], h - 1, d) && Fit(t.kids[i], h - 1, d);
  }

  lemma HandOver<A>(a: seq<A>, x: A, b: seq<A>)
    requires a != []
    ensures ButLast(a) + [a[|a| - 1]] + ([x] + b) == a + [x] + b
  {
  }

  lemma HandOverKids<A>(a: seq<A>, b: seq<A>)
    ensures ButLast(a) + (LastOf(a) + b) == a + b
  {
  }

  lemma HandBack<A>(a: seq<A>, x: A, b: seq<A>)
    requires b != []
    ensures (a + [x]) + [b[0]] + ButFirst(b) == a + [x] + b
  {
  }

  lemma HandBackKids<A>(a: seq<A>, b: seq<A>)
    ensures (a + FirstOf(b)) + ButFirst(b) == a + b
  {
  }

  /** Two neighbours and the item between them, shared out anew. */
  lemma PairSound<T(!new)>(lt: (T, T) -> bool, t: Tree<T>, i: nat, l: Tree<T>, x: T, r: Tree<T>, h: nat, d: nat)
    requires Sound(lt, t, h, d) && i + 1 < |t.kids| && h > 0 && FitKid(l, h - 1, d) && FitKid(r, h - 1, d)
    requires l.items + [x] + r.items == t.kids[i].items + [t.items[i]] + t.kids[i + 1].items
    requires l.kids + r.kids == t.kids[i].kids + t.kids[i + 1].kids
    ensures Sound(lt, Swapped(t, i, l, x, r), h, d) && Contents(Swapped(t, i, l, x, r)) == Contents(t)
  {
    GrandFit(t, i, h, d);
    GrandFit(t, i + 1, h, d);
    FitRegular(l, h - 1, d);
    FitRegular(r, h - 1, d);
    PairMoved(t, i, l, x, r);
    FitSwapped(t, i, l, x, r, h, d);
  }

  lemma MovedRightFit<T>(t: Tree<T>, i: nat, h: nat, d: nat)
    requires d >= 2 && Fit(t, h, d) && i + 1 < |t.kids|
    requires |t.kids[i].items| > d - 1 && |t.kids[i + 1].items| == d - 1
    ensures h > 0 && FitKid(Giver(t.kids[i]), h - 1, d)
    ensures FitKid(Taker(t.kids[i], t.items[i], t.kids[i + 1]), h - 1, d)
  {
    GrandFit(t, i, h, d);
    GrandFit(t, i + 1, h, d);
  }

  lemma MovedRightSound<T(!new)>(lt: (T, T) -> bool, t: Tree<T>, i: nat, h: nat, d: nat)
    requires Sound(lt, t, h, d) && i + 1 < |t.kids|
    requires |t.kids[i].items| > d - 1 && |t.kids[i + 1].items| == d - 1
    ensures Sound(lt, MovedRight(t, i), h, d) && Contents(MovedRight(t, i)) == Contents(t)
    ensures |MovedRight(t, i).kids[i + 1].items| == d
  {
    var l, r := t.kids[i], t.kids[i + 1];
    MovedRightFit(t, i, h, d);
    HandOver(l.items, t.items[i], r.items);
    HandOverKids(l.kids, r.kids);
    PairSound(lt, t, i, Giver(l), l.items[|l.items| - 1], Taker(l, t.items[i], r), h, d);
  }

  lemma MovedLeftFit<T>(t: Tree<T>, i: nat, h: nat, d: nat)
    requires d >= 2 && Fit(t, h, d) && i + 1 < |t.kids|
    requires |t.kids[i].items| == d - 1 && |t.kids[i + 1].items| > d - 1
    ensures h > 0 && FitKid(Heir(t.kids[i], t.items[i], t.kids[i + 1]), h - 1, d)
    ensures FitKid(Donor(t.kids[i + 1]), h - 1, d)
  {
    GrandFit(t, i, h, d);
    GrandFit(t, i + 1, h, d);
  }

  lemma MovedLeftSound<T(!new)>(lt: (T, T) -> bool, t: Tree<T>, i: nat, h: nat, d: nat)
    requires Sound(lt, t, h, d) && i + 1 < |t.kids|
    requires |t.kids[i].items| == d - 1 && |t.kids[i + 1].items| > d - 1
    ensures Sound(lt, MovedLeft(t, i), h, d) && Contents(MovedLeft(t, i)) == Contents(t)
    ensures |MovedLeft(t, i).kids[i].items| == d
  {
    var l, r := t.kids[i], t.kids[i + 1];
    MovedLeftFit(t, i, h, d);
    HandBack(l.items, t.items[i], r.items);
    HandBackKids(l.kids, r.kids);
    PairSound(lt, t, i, Heir(l, t.items[i], r), r.items[0], Donor(r), h, d);
  }

  lemma MergedFit<T>(t: Tree<T>, i: nat, h: nat, d: nat)
    requires d >= 2 && Fit(t, h, d) && i + 1 < |t.kids|
    requires |t.kids[i].items| == d - 1 && |t.kids[i + 1].items| == d - 1
    ensures h > 0 && FitKid(Fused(t.kids[i].id, t.kids[i], t.items[i], t.kids[i + 1]), h - 1, d)
    ensures Regular(t.kids[i]) && Regular(t.kids[i + 1]) && Joinable(t.kids[i], t.kids[i + 1])
  {
    GrandFit(t, i, h, d);
    GrandFit(t, i + 1, h, d);
    FitRegular(t.kids[i], h - 1, d);
    FitRegular(t.kids[i + 1], h - 1, d);
  }

  lemma NarrowedFit<T>(t: Tree<T>, i: nat, k: Tree<T>, h: nat, d: nat)
    requires Fit(t, h, d) && i + 1 < |t.kids| && h > 0 && FitKid(k, h - 1, d)
    ensures Fit(Narrowed(t, i, k), h, d)
  {
    var t' := Narrowed(t, i, k);
    forall a | 0 <= a < |t'.kids| ensures FitKid(t'.kids[a], h - 1, d) {
      if a < i {
        assert t'.kids[a] == t.kids[a];
      } else if a > i {
        assert t'.kids[a] == t.kids[a + 1];
      }
    }
  }

  lemma MergedSound<T(!new)>(lt: (T, T) -> bool, t: Tree<T>, i: nat, h: nat, d: nat)
    requires Sound(lt, t, h, d) && i + 1 < |t.kids|
    requires |t.kids[i].items| == d - 1 && |t.kids[i + 1].items| == d - 1
    ensures Sound(lt, Merged(t, i), h, d) && Contents(Merged(t, i)) == Contents(t)
    ensures |Merged(t, i).kids[i].items| == 2 * d - 1
  {
    var l, r := t.kids[i], t.kids[i + 1];
    var k := Fused(l.id, l, t.items[i], r);
    MergedFit(t, i, h, d);
    FusedContents(l.id, l, t.items[i], r);
    NarrowedContents(t, i, k);
    NarrowedFit(t, i, k, h, d);
  }

  // ----- the removal then descends into the child that grew -----

  lemma KidItemBelow<T(!new)>(lt: (T, T) -> bool, t: Tree<T>, i: nat, a: nat)
    requires Ordered(lt, t) && i < |t.items| && t.kids != []
    ensures a < |t.kids[i].items| ==> lt(t.kids[i].items[a], t.items[i])
    ensures a < |t.kids[i + 1].items| ==> lt(t.items[i], t.kids[i + 1].items[a])
  {
    ItemSplits(lt, t, i);
    KidOrdered(lt, t, i);
    KidOrdered(lt, t, i + 1);
    if a < |t.kids[i].items| {
      var p, q := ItemSpot(lt, t.kids[i], a, t.kids[i].items[a]);
      assert Below(t, i)[|Before(t, i)| + |p|] == t.kids[i].items[a];
    }
    if a < |t.kids[i + 1].items| {
      var p, q := ItemSpot(lt, t.kids[i + 1], a, t.kids[i + 1].items[a]);
      assert Above(t, i)[|p|] == t.kids[i + 1].items[a];
    }
  }

  /** Where `x` sits in a node's items, given where a search sends it. */
  ghost predicate Sits<T>(lt: (T, T) -> bool, items: seq<T>, i: nat, x: T) {
    Between(lt, items, i, x) || (i < |items| && Equivalent(lt, items[i], x))
  }

  lemma SlotSits<T(!new)>(lt: (T, T) -> bool, items: seq<T>, x: T)
    ensures Sits(lt, items, Slot(lt, items, x), x)
  {
    if !Found(lt, items, x) { SlotBetween(lt, items, x); }
  }

  lemma SitsAfterMoveRight<T(!new)>(lt: (T, T) -> bool, items: seq<T>, i: nat, x: T, s: T)
    requires StrictWeak(lt) && Sorted(lt, items) && 0 < i <= |items| && Sits(lt, items, i, x) && lt(s, items[i - 1])
    ensures Sits(lt, items[i - 1 := s], i, x)
  {
    Laws(lt, s, items[i - 1], x);
  }

  lemma SitsAfterMoveLeft<T(!new)>(lt: (T, T) -> bool, items: seq<T>, i: nat, x: T, s: T)
    requires StrictWeak(lt) && Sorted(lt, items) && i < |items| && Sits(lt, items, i, x) && lt(items[i], s)
    ensures Between(lt, items[i := s], i, x)
  {
    Laws(lt, x, items[i], s);
    Laws(lt, items[i], x, s);
    if i > 0 { BeforeEquivalent(lt, items, i, x); }
  }

  lemma BeforeEquivalent<T(!new)>(lt: (T, T) -> bool, items: seq<T>, i: nat, x: T)
    requires StrictWeak(lt) && Sorted(lt, items) && 0 < i < |items| && Sits(lt, items, i, x)
    ensures lt(items[i - 1], x)
  {
    assert lt(items[i - 1], items[i]);
    Laws(lt, items[i - 1], x, items[i]);
  }

  lemma SitsAfterMerge<T(!new)>(lt: (T, T) -> bool, items: seq<T>, i: nat, x: T)
    requires StrictWeak(lt) && Sorted(lt, items) && i <= |items| && 0 < |items| && Sits(lt, items, i, x)
    ensures var j := if i == |items| then i - 1 else i;
            Between(lt, items[..j] + items[j + 1..], j, x)
  {
    var j := if i == |items| then i - 1 else i;
    var items' := items[..j] + items[j + 1..];
    if j > 0 {
      if i == |items| {
        assert lt(items[j - 1], items[j]);
        Laws(lt, items[j - 1], items[j], x);
      } else {
        BeforeEquivalent(lt, items, i, x);
      }
    }
    if j < |items'| {
      assert lt(items[j], items[j + 1]);
      Laws(lt, x, items[j], items[j + 1]);
      Laws(lt, items[j], x, items[j + 1]);
    }
  }

  lemma GrownRight<T(!new)>(lt: (T, T) -> bool, t: Tree<T>, i: nat, target: Target<T>, h: nat, d: nat)
    requires StrictWeak(lt) && Sound(lt, t, h, d) && i + 1 < |t.kids|
    requires |t.kids[i].items| > d - 1 && |t.kids[i + 1].items| == d - 1 && Route(lt, t.items, target) == i + 1
    ensures Regrown(lt, t, target, MovedRight(t, i), h, d)
  {
    var t', l := MovedRight(t, i), t.kids[i];
    MovedRightSound(lt, t, i, h, d);
    if target.RemoveItem? {
      ItemsSorted(lt, t);
      ItemsSorted(lt, t');
      KidItemBelow(lt, t, i, |l.items| - 1);
      SlotSits(lt, t.items, target.x);
      SitsAfterMoveRight(lt, t.items, i + 1, target.x, l.items[|l.items| - 1]);
      SlotIs(lt, t'.items, i + 1, target.x);
    }
  }

  lemma GrownLeft<T(!new)>(lt: (T, T) -> bool, t: Tree<T>, i: nat, target: Target<T>, h: nat, d: nat)
    requires StrictWeak(lt) && Sound(lt, t, h, d) && i + 1 < |t.kids|
    requires |t.kids[i].items| == d - 1 && |t.kids[i + 1].items| > d - 1 && Route(lt, t.items, target) == i
    ensures Regrown(lt, t, target, MovedLeft(t, i), h, d)
  {
    var t' := MovedLeft(t, i);
    MovedLeftSound(lt, t, i, h, d);
    if target.RemoveItem? {
      ItemsSorted(lt, t);
      ItemsSorted(lt, t');
      KidItemBelow(lt, t, i, 0);
      SlotSits(lt, t.items, target.x);
      SitsAfterMoveLeft(lt, t.items, i, target.x, t.kids[i + 1].items[0]);
      SlotIs(lt, t'.items, i, target.x);
    }
  }

  lemma GrownMerged<T(!new)>(lt: (T, T) -> bool, t: Tree<T>, i: nat, target: Target<T>, h: nat, d: nat)
    requires StrictWeak(lt) && Sound(lt, t, h, d) && i + 1 < |t.kids|
    requires |t.kids[i].items| == d - 1 && |t.kids[i + 1].items| == d - 1
    requires var r := Route(lt, t.items, target); i == if r == |t.items| then r - 1 else r
    ensures Regrown(lt, t, target, Merged(t, i), h, d)
  {
    var t' := Merged(t, i);
    MergedSound(lt, t, i, h, d);
    if target.RemoveItem? {
      ItemsSorted(lt, t);
      ItemsSorted(lt, t');
      SlotSits(lt, t.items, target.x);
      SitsAfterMerge(lt, t.items, Slot(lt, t.items, target.x), target.x);
      SlotIs(lt, t'.items, i, target.x);
    }
  }
}
