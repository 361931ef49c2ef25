/** How the order of the contents steers a search through a node. */
module BTreeSearch {
  import opened BTreeOrder
  import opened BTreeShape

  ghost predicate Ordered<T(!new)>(lt: (T, T) -> bool, t: Tree<T>) {
    Regular(t) && Sorted(lt, Contents(t))
  }

  /** A child of an ordered tree is ordered. */
  lemma KidOrdered<T(!new)>(lt: (T, T) -> bool, t: Tree<T>, i: nat)
    requires Ordered(lt, t) && i < |t.kids|
    ensures Ordered(lt, t.kids[i])
  {
    Around(t, i);
    SortedPart(lt, Before(t, i), Contents(t.kids[i]), After(t, i));
  }

  /** Item `i` splits the contents into what lies below and above it. */
  lemma ItemSplits<T(!new)>(lt: (T, T) -> bool, t: Tree<T>, i: nat)
    requires Ordered(lt, t) && i + 1 < |t.kids|
    ensures AllBelow(lt, Below(t, i), t.items[i])
    ensures AllAbove(lt, t.items[i], Above(t, i))
  {
    ItemAround(t, i);
    Pivot(lt, Below(t, i), t.items[i], Above(t, i));
  }

  /** `x` lies strictly between the items on either side of child `i`. */
  ghost predicate Between<T>(lt: (T, T) -> bool, items: seq<T>, i: nat, x: T) {
    i <= |items| && (i > 0 ==> lt(items[i - 1], x)) && (i < |items| ==> lt(x, items[i]))
  }

  lemma SlotBetween<T>(lt: (T, T) -> bool, items: seq<T>, x: T)
    requires !Found(lt, items, x)
    ensures Between(lt, items, Slot(lt, items, x), x)
  {
  }

  /** Then everything left of child `i` lies below `x` and everything right of it above. */
  lemma KidBracket<T(!new)>(lt: (T, T) -> bool, t: Tree<T>, i: nat, x: T)
    requires StrictWeak(lt) && Ordered(lt, t) && i < |t.kids|
    requires Between(lt, t.items, i, x)
    ensures AllBelow(lt, Before(t, i), x) && AllAbove(lt, x, After(t, i))
  {
    if i > 0 {
      ItemSplits(lt, t, i - 1);
      ItemAround(t, i - 1);
      BelowThrough(lt, Below(t, i - 1), t.items[i - 1], x);
    }
    if i + 1 < |t.kids| {
      ItemSplits(lt, t, i);
      ItemAround(t, i);
      AboveThrough(lt, x, t.items[i], Above(t, i));
    }
  }

  /** An operation on `x` at the whole tree is that operation at the bracketing child. */
  lemma KidDecides<T(!new)>(lt: (T, T) -> bool, t: Tree<T>, i: nat, x: T)
    requires StrictWeak(lt) && Ordered(lt, t) && i < |t.kids|
    requires Between(lt, t.items, i, x)
    ensures Put(lt, Contents(t), x) == Before(t, i) + Put(lt, Contents(t.kids[i]), x) + After(t, i)
    ensures Drop(lt, Contents(t), x) == Before(t, i) + Drop(lt, Contents(t.kids[i]), x) + After(t, i)
    ensures Lookup(lt, Contents(t), x) == Lookup(lt, Contents(t.kids[i]), x)
  {
    KidBracket(lt, t, i, x);
    Around(t, i);
    Localized(lt, Before(t, i), Contents(t.kids[i]), After(t, i), x);
  }

  /** When item `i` is equivalent to `x`, it is the one an operation on `x` concerns. */
  lemma ItemDecides<T(!new)>(lt: (T, T) -> bool, t: Tree<T>, i: nat, x: T)
    requires StrictWeak(lt) && Ordered(lt, t) && i + 1 < |t.kids|
    requires Equivalent(lt, t.items[i], x)
    ensures Lookup(lt, Contents(t), x) == Some(t.items[i])
    ensures Put(lt, Contents(t), x) == Below(t, i) + [x] + Above(t, i)
    ensures Drop(lt, Contents(t), x) == Below(t, i) + Above(t, i)
  {
    ItemSplits(lt, t, i);
    ItemAround(t, i);
    LocalItem(lt, Below(t, i), t.items[i], Above(t, i), x);
  }

  /** Overwriting item `i`. */
  lemma ItemWritten<T>(t: Tree<T>, i: nat, y: T)
    requires Regular(t) && i + 1 < |t.kids|
    ensures var t' := Node(t.id, t.items[i := y], t.kids);
            Regular(t') && Contents(t') == Below(t, i) + [y] + Above(t, i)
  {
    var t' := Node(t.id, t.items[i := y], t.kids);
    ItemAround(t', i);
    assert t'.items[..i] == t.items[..i] && t'.items[i + 1..] == t.items[i + 1..];
  }

  /** The items of a node, being part of its ordered contents, are sorted. */
  lemma ItemsSorted<T(!new)>(lt: (T, T) -> bool, t: Tree<T>)
    requires Ordered(lt, t)
    ensures Sorted(lt, t.items)
  {
    if t.kids != [] {
      forall i, j | 0 <= i < j < |t.items| ensures lt(t.items[i], t.items[j]) {
        ItemSplits(lt, t, i);
        AfterHas(t, i + 1, j);
        var n :| 0 <= n < |After(t, i + 1)| && After(t, i + 1)[n] == t.items[j];
        assert Above(t, i)[|Contents(t.kids[i + 1])| + n] == t.items[j];
      }
    }
  }

  lemma {:induction false} AfterHas<T>(t: Tree<T>, i: nat, j: nat)
    requires Regular(t) && i <= j < |t.items| && t.kids != []
    ensures t.items[j] in After(t, i)
    decreases j - i
  {
    AfterStep(t, i);
    if i < j { AfterHas(t, i + 1, j); }
  }
}
