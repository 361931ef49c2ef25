/** What the rewrites of a node do to the ordered contents of its tree and to its balance. */
module BTreeUpdate {
  import opened BTreeOrder
  import opened BTreeShape
  import opened BTreeSearch

  /** A balanced tree with ordered contents. */
  ghost predicate Sound<T(!new)>(lt: (T, T) -> bool, t: Tree<T>, h: nat, d: nat) {
    d >= 2 && Fit(t, h, d) && Ordered(lt, t)
  }

  lemma KidSound<T(!new)>(lt: (T, T) -> bool, t: Tree<T>, i: nat, h: nat, d: nat)
    requires Sound(lt, t, h, d) && i < |t.kids|
    ensures h > 0 && Sound(lt, t.kids[i], h - 1, d) && d - 1 <= |t.kids[i].items| <= 2 * d - 1
  {
    KidOrdered(lt, t, i);
    assert FitKid(t.kids[i], h - 1, d) && Fit(t.kids[i], h - 1, d);
  }

  // ----- insertion -----

  /** The result `t'` of putting `x` into `t`, which returns `out`. */
  ghost predicate PutInto<T(!new)>(lt: (T, T) -> bool, t: Tree<T>, x: T, t': Tree<T>, out: Option<T>, h: nat, d: nat) {
    && Sound(lt, t, h, d) && Fit(t', h, d) && Regular(t') && t'.id == t.id
    && |t.items| <= |t'.items|
    && Contents(t') == Put(lt, Contents(t), x)
    && out == Lookup(lt, Contents(t), x)
  }

  /** The contents around item `i`, in a leaf too. */
  lemma ItemSpot<T(!new)>(lt: (T, T) -> bool, t: Tree<T>, i: nat, y: T) returns (a: seq<T>, c: seq<T>)
    requires Ordered(lt, t) && i < |t.items|
    ensures Contents(t) == a + [t.items[i]] + c
    ensures Regular(Node(t.id, t.items[i := y], t.kids)) && Contents(Node(t.id, t.items[i := y], t.kids)) == a + [y] + c
    ensures AllBelow(lt, a, t.items[i]) && AllAbove(lt, t.items[i], c)
  {
    if t.kids == [] {
      a, c := t.items[..i], t.items[i + 1..];
      assert t.items == a + [t.items[i]] + c;
      Pivot(lt, a, t.items[i], c);
    } else {
      a, c := Below(t, i), Above(t, i);
      ItemAround(t, i);
      ItemSplits(lt, t, i);
      ItemWritten(t, i, y);
    }
  }

  lemma ItemPut<T(!new)>(lt: (T, T) -> bool, t: Tree<T>, i: nat, x: T, h: nat, d: nat)
    requires StrictWeak(lt) && Sound(lt, t, h, d) && i < |t.items| && Equivalent(lt, t.items[i], x)
    ensures PutInto(lt, t, x, Node(t.id, t.items[i := x], t.kids), Some(t.items[i]), h, d)
  {
    var a, c := ItemSpot(lt, t, i, x);
    LocalItem(lt, a, t.items[i], c, x);
  }

  lemma LeafPut<T(!new)>(lt: (T, T) -> bool, t: Tree<T>, x: T, h: nat, d: nat)
    requires Sound(lt, t, h, d) && t.kids == [] && !Found(lt, t.items, x) && |t.items| < 2 * d - 1
    ensures var i := Slot(lt, t.items, x);
            PutInto(lt, t, x, Node(t.id, t.items[..i] + [x] + t.items[i..], []), None, h, d)
  {
  }

  lemma KidPut<T(!new)>(lt: (T, T) -> bool, t: Tree<T>, i: nat, x: T, k: Tree<T>, out: Option<T>, h: nat, d: nat)
    requires StrictWeak(lt) && Sound(lt, t, h, d) && i < |t.kids| && Between(lt, t.items, i, x) && h > 0
    requires PutInto(lt, t.kids[i], x, k, out, h - 1, d)
    ensures PutInto(lt, t, x, WithKid(t, i, k), out, h, d)
  {
    KidDecides(lt, t, i, x);
    WithKidContents(t, i, k);
    assert FitKid(t.kids[i], h - 1, d);
    FitWithKid(t, i, k, h, d);
  }

  /** Putting into a tree with the same contents and no fewer items. */
  lemma PutFrom<T(!new)>(lt: (T, T) -> bool, t: Tree<T>, t1: Tree<T>, x: T, t': Tree<T>, out: Option<T>, h: nat, d: nat)
    requires Sound(lt, t, h, d) && Regular(t1) && Contents(t1) == Contents(t) && t1.id == t.id &&
             |t.items| <= |t1.items|
    requires PutInto(lt, t1, x, t', out, h, d)
    ensures PutInto(lt, t, x, t', out, h, d)
  {
  }

  /** One step of a search. */
  lemma LookupStep<T(!new)>(lt: (T, T) -> bool, t: Tree<T>, x: T, h: nat, d: nat)
    requires StrictWeak(lt) && Sound(lt, t, h, d)
    ensures var i := Slot(lt, t.items, x);
            if Found(lt, t.items, x) then Lookup(lt, Contents(t), x) == Some(t.items[i])
            else if t.kids == [] then Lookup(lt, Contents(t), x) == None
            else h > 0 && Sound(lt, t.kids[i], h - 1, d) &&
                 Lookup(lt, Contents(t), x) == Lookup(lt, Contents(t.kids[i]), x)
  {
    var i := Slot(lt, t.items, x);
    if Found(lt, t.items, x) {
      ItemPut(lt, t, i, x, h, d);
    } else if t.kids != [] {
      KidSound(lt, t, i, h, d);
      SlotBetween(lt, t.items, x);
      KidDecides(lt, t, i, x);
    }
  }

  // ----- removal -----

  /** Which item a removal is after. */
  datatype Target<T> = RemoveItem(x: T) | RemoveMin | RemoveMax

  ghost function Taken<T>(lt: (T, T) -> bool, s: seq<T>, target: Target<T>): Option<T> {
    match target
    case RemoveItem(x) => Lookup(lt, s, x)
    case RemoveMin => if s == [] then None else Some(s[0])
    case RemoveMax => if s == [] then None else Some(s[|s| - 1])
  }

  ghost function Remaining<T>(lt: (T, T) -> bool, s: seq<T>, target: Target<T>): seq<T> {
    match target
    case RemoveItem(x) => Drop(lt, s, x)
    case RemoveMin => if s == [] then [] else s[1..]
    case RemoveMax => if s == [] then [] else s[..|s| - 1]
  }

  /** The child a removal descends into. */
  ghost function Route<T>(lt: (T, T) -> bool, items: seq<T>, target: Target<T>): (i: nat)
    ensures i <= |items|
  {
    match target
    case RemoveItem(x) => Slot(lt, items, x)
    case RemoveMin => 0
    case RemoveMax => |items|
  }

  /** The removal descends into a child that has no item to spare. */
  ghost predicate Tight<T>(lt: (T, T) -> bool, t: Tree<T>, target: Target<T>, d: nat) {
    |t.kids| == |t.items| + 1 && |t.kids[Route(lt, t.items, target)].items| <= d - 1
  }

  /** The result `t'` of removing from `t`, which returns `out`. */
  ghost predicate TakenFrom<T(!new)>(lt: (T, T) -> bool, t: Tree<T>, target: Target<T>, t': Tree<T>, out: Option<T>,
                                     h: nat, d: nat) {
    && Sound(lt, t, h, d) && Fit(t', h, d) && Regular(t') && t'.id == t.id
    && |t.items| - (if t.kids == [] || Tight(lt, t, target, d) then 1 else 0) <= |t'.items|
    && Contents(t') == Remaining(lt, Contents(t), target)
    && out == Taken(lt, Contents(t), target)
  }

  lemma LeafTaken<T(!new)>(lt: (T, T) -> bool, t: Tree<T>, target: Target<T>, h: nat, d: nat)
    requires Sound(lt, t, h, d) && t.kids == []
    ensures TakenFrom(lt, t, target, Node(t.id, Remaining(lt, t.items, target), []), Taken(lt, t.items, target), h, d)
  {
  }

  /** The item itself goes; the predecessor from the child left of it takes its place. */
  lemma PredecessorTaken<T(!new)>(lt: (T, T) -> bool, t: Tree<T>, i: nat, x: T, k: Tree<T>, y: T, h: nat, d: nat)
    requires StrictWeak(lt) && Sound(lt, t, h, d) && i < |t.items| && h > 0 && Equivalent(lt, t.items[i], x)
    requires !Tight(lt, t, RemoveItem(x), d) && Slot(lt, t.items, x) == i
    requires TakenFrom(lt, t.kids[i], RemoveMax, k, Some(y), h - 1, d)
    ensures TakenFrom(lt, t, RemoveItem(x), Node(t.id, t.items[i := y], t.kids[i := k]), Some(t.items[i]), h, d)
  {
    assert FitKid(t.kids[i], h - 1, d);
    FitWithKid(t, i, k, h, d);
    ItemDecides(lt, t, i, x);
    NonEmpty(lt, t.kids[i], h - 1, d);
    PredecessorContents(t, i, k, y);
  }

  lemma PredecessorContents<T>(t: Tree<T>, i: nat, k: Tree<T>, y: T)
    requires Regular(t) && i + 1 < |t.kids| && Regular(k) && Contents(t.kids[i]) == Contents(k) + [y]
    ensures var t' := Node(t.id, t.items[i := y], t.kids[i := k]);
            Regular(t') && Contents(t') == Below(t, i) + Above(t, i)
  {
    var t1 := WithKid(t, i, k);
    WithKidContents(t, i, k);
    ItemWritten(t1, i, y);
    assert t1.kids[..i] == t.kids[..i] && t1.kids[i + 2..] == t.kids[i + 2..];
    assert Below(t1, i) == Before(t, i) + Contents(k) && Above(t1, i) == Above(t, i);
    assert Before(t, i) + Contents(k) + [y] == Below(t, i);
  }

  lemma KidTaken<T(!new)>(lt: (T, T) -> bool, t: Tree<T>, i: nat, target: Target<T>, k: Tree<T>, out: Option<T>, h: nat,
                          d: nat)
    requires StrictWeak(lt) && Sound(lt, t, h, d) && i < |t.kids| && h > 0 && i == Route(lt, t.items, target)
    requires target.RemoveItem? ==> !Found(lt, t.items, target.x)
    requires !Tight(lt, t, target, d)
    requires TakenFrom(lt, t.kids[i], target, k, out, h - 1, d)
    ensures TakenFrom(lt, t, target, WithKid(t, i, k), out, h, d)
  {
    assert FitKid(t.kids[i], h - 1, d);
    FitWithKid(t, i, k, h, d);
    WithKidContents(t, i, k);
    KidRemains(lt, t, i, target, h, d);
  }

  /** Removing from the child on the route removes from the whole. */
  lemma KidRemains<T(!new)>(lt: (T, T) -> bool, t: Tree<T>, i: nat, target: Target<T>, h: nat, d: nat)
    requires StrictWeak(lt) && Sound(lt, t, h, d) && i < |t.kids| && h > 0 && i == Route(lt, t.items, target)
    requires target.RemoveItem? ==> !Found(lt, t.items, target.x)
    requires Sound(lt, t.kids[i], h - 1, d) && |t.kids[i].items| > 0
    ensures Remaining(lt, Contents(t), target) ==
            Before(t, i) + Remaining(lt, Contents(t.kids[i]), target) + After(t, i)
    ensures Taken(lt, Contents(t), target) == Taken(lt, Contents(t.kids[i]), target)
  {
    Around(t, i);
    match target {
      case RemoveItem(x) =>
        SlotBetween(lt, t.items, x);
        KidDecides(lt, t, i, x);
      case RemoveMin =>
        NonEmpty(lt, t.kids[i], h - 1, d);
        assert Before(t, 0) == [];
      case RemoveMax =>
        NonEmpty(lt, t.kids[i], h - 1, d);
        assert After(t, i) == [];
    }
  }

  lemma NonEmpty<T(!new)>(lt: (T, T) -> bool, t: Tree<T>, h: nat, d: nat)
    requires Sound(lt, t, h, d) && |t.items| > 0
    ensures Contents(t) != []
  {
    var a, c := ItemSpot(lt, t, 0, t.items[0]);
  }

  // ----- making room before descending -----

  /** A rearrangement of `t` in which the removal descends into a child with an item to spare. */
  ghost predicate Regrown<T(!new)>(lt: (T, T) -> bool, t: Tree<T>, target: Target<T>, t': Tree<T>, h: nat, d: nat) {
    && Sound(lt, t, h, d) && Sound(lt, t', h, d) && t'.id == t.id && Contents(t') == Contents(t)
    && |t.items| - 1 <= |t'.items| && t'.kids != [] && !Tight(lt, t', target, d)
  }

  lemma TakenAfterRegrowth<T(!new)>(lt: (T, T) -> bool, t: Tree<T>, target: Target<T>, t1: Tree<T>, t': Tree<T>,
                                    out: Option<T>, h: nat, d: nat)
    requires Regrown(lt, t, target, t1, h, d) && Tight(lt, t, target, d)
    requires TakenFrom(lt, t1, target, t', out, h, d)
    ensures TakenFrom(lt, t, target, t', out, h, d)
  {
  }

  /** Between its neighbours there is only one slot for `x`. */
  lemma SlotIs<T(!new)>(lt: (T, T) -> bool, items: seq<T>, i: nat, x: T)
    requires StrictWeak(lt) && Sorted(lt, items)
    requires Between(lt, items, i, x) || (i < |items| && Equivalent(lt, items[i], x))
    ensures Slot(lt, items, x) == i
    ensures Found(lt, items, x) <==> i < |items| && Equivalent(lt, items[i], x)
  {
    var k := if i < |items| && Equivalent(lt, items[i], x) then i + 1 else i;
    forall a | 0 <= a < k ensures !lt(x, items[a]) {
      if a < k - 1 { assert lt(items[a], items[k - 1]); Laws(lt, x, items[a], items[k - 1]); }
      if k == i { Laws(lt, items[k - 1], x, items[k - 1]); }
    }
    if k < |items| && k == i + 1 { assert lt(items[i], items[k]); Laws(lt, items[i], x, items[k]); }
    CutUnique(lt, items, x, k);
  }
}
