/** The node operations of the B-tree, on a memory that several trees share. */
module BTreeStore {
  import opened BTreeOrder
  import opened BTreeShape
  import opened BTreeSearch
  import opened BTreeMemory
  import opened BTreeSteps
  import opened BTreeUpdate
  import opened BTreeGrow

  /** A bounded list of freed nodes, ready for reuse. */
  datatype FreeList = FreeList(capacity: nat, nodes: seq<nat>)

  /** What became of a node handed to `FreeNode`. */
  datatype FreeOutcome = FreelistFull | Stored | NotOwned

  /** Addresses stay below `next`; listed nodes are empty, unowned, and listed once. */
  ghost predicate Pool<T>(m: Memory<T>, free: map<nat, FreeList>, next: nat) {
    && (forall x :: x in m ==> x < next)
    && (forall f, i :: f in free && 0 <= i < |free[f].nodes| ==>
          free[f].nodes[i] in m && m[free[f].nodes[i]] == Cell([], [], None))
    && (forall f, i, g, j :: f in free && g in free && 0 <= i < |free[f].nodes| && 0 <= j < |free[g].nodes| ==>
          free[f].nodes[i] == free[g].nodes[j] ==> f == g && i == j)
    && (forall f :: f in free ==> |free[f].nodes| <= free[f].capacity)
  }

  /** No list but `f` changes, and that one keeps its capacity. */
  ghost predicate OnlyList(free: map<nat, FreeList>, free': map<nat, FreeList>, f: nat) {
    && f in free && free'.Keys == free.Keys && free'[f].capacity == free[f].capacity
    && forall g :: g in free && g != f ==> free'[g] == free[g]
  }

  lemma PoolWrite<T>(m: Memory<T>, free: map<nat, FreeList>, next: nat, n: nat, cell: Cell<T>)
    requires Pool(m, free, next) && Used(m, n)
    ensures Pool(m[n := cell], free, next)
  {
  }

  lemma Relabel<T>(t: Tree<T>, n: nat)
    requires Regular(t)
    ensures Regular(Node(n, t.items, t.kids)) && Contents(Node(n, t.items, t.kids)) == Contents(t)
  {
  }

  lemma RelabelKid<T>(t: Tree<T>, i: nat, n: nat, h: nat, d: nat)
    requires Fit(t, h, d) && i < |t.kids|
    ensures var t' := WithKid(t, i, Node(n, t.kids[i].items, t.kids[i].kids));
            Fit(t', h, d) && Regular(t) && Regular(t') && Contents(t') == Contents(t)
  {
    FitRegular(t, h, d);
    Relabel(t.kids[i], n);
    WithKidContents(t, i, Node(n, t.kids[i].items, t.kids[i].kids));
    Around(t, i);
    assert FitKid(t.kids[i], h - 1, d);
    RelabelFit(t.kids[i], n, h - 1, d);
    FitWithKid(t, i, Node(n, t.kids[i].items, t.kids[i].kids), h, d);
  }

  lemma RelabelFit<T>(t: Tree<T>, n: nat, h: nat, d: nat)
    requires Fit(t, h, d)
    ensures Fit(Node(n, t.items, t.kids), h, d)
  {
  }

  class Store<T(!new)> {
    const lt: (T, T) -> bool
    var nodes: Memory<T>
    var free: map<nat, FreeList>
    var next: nat

    ghost predicate Valid()
      reads this
    {
      StrictWeak(lt) && Pool(nodes, free, next)
    }

    /** Tree `t` stands at `n`, and context `c` owns its top node. */
    ghost predicate Writable(n: nat, c: Context, t: Tree<T>)
      reads this
    {
      && t.id == n && Held(nodes, t) && Distinct(t) && nodes[n].cow == Some(c)
      && c.freelist in free
    }

    constructor (lt: (T, T) -> bool)
      requires StrictWeak(lt)
      ensures Valid() && this.lt == lt && nodes == map[] && free == map[]
    {
      this.lt := lt;
      nodes, free, next := map[], map[], 0;
    }

    /** Binary search for the slot of `x`. */
    method Find(items: seq<T>, x: T) returns (index: nat, found: bool)
      requires StrictWeak(lt) && Sorted(lt, items)
      ensures index == Slot(lt, items, x) && found == Found(lt, items, x)
    {
      var i, j := 0, |items|;
      while i < j
        invariant 0 <= i <= j <= |items|
        invariant forall a :: 0 <= a < i ==> !lt(x, items[a])
        invariant j < |items| ==> lt(x, items[j])
      {
        var mid := (i + j) / 2;
        if !lt(x, items[mid]) {
          forall a | 0 <= a < mid ensures !lt(x, items[a]) { Laws(lt, x, items[a], items[mid]); }
          i := mid + 1;
        } else {
          j := mid;
        }
      }
      CutUnique(lt, items, x, i);
      if i > 0 && !lt(items[i - 1], x) {
        return i - 1, true;
      }
      return i, false;
    }

    /** Takes a node from the free list, or a fresh one, for context `c`. */
    method NewNode(c: Context) returns (n: nat)
      requires Valid() && c.freelist in free
      modifies this
      ensures Valid() && free.Keys == old(free.Keys)
      ensures !Used(old(nodes), n) && nodes == old(nodes)[n := Cell([], [], Some(c))]
      ensures var list := old(free)[c.freelist];
              if list.nodes == [] then n !in old(nodes) && free == old(free)
              else list.nodes == free[c.freelist].nodes + [n] && OnlyList(old(free), free, c.freelist)
    {
      var list := free[c.freelist];
      if |list.nodes| == 0 {
        n := next;
        next := next + 1;
        nodes := nodes[n := Cell([], [], Some(c))];
      } else {
        n := list.nodes[|list.nodes| - 1];
        assert list.nodes == list.nodes[..|list.nodes| - 1] + [n];
        free := free[c.freelist := list.(nodes := list.nodes[..|list.nodes| - 1])];
        nodes := nodes[n := nodes[n].(cow := Some(c))];
      }
    }

    /** Frees a node that context `c` owns; leaves any other node alone. */
    method FreeNode(c: Context, n: nat) returns (outcome: FreeOutcome)
      requires Valid() && c.freelist in free && Used(nodes, n)
      modifies this
      ensures Valid() && free.Keys == old(free.Keys)
      ensures outcome.NotOwned? <==> old(nodes)[n].cow != Some(c)
      ensures nodes == if outcome.NotOwned? then old(nodes) else old(nodes)[n := Cell([], [], None)]
      ensures OnlyList(old(free), free, c.freelist)
      ensures var list, list' := old(free)[c.freelist], free[c.freelist];
              if outcome.Stored? then list'.nodes == list.nodes + [n]
              else list' == list && (outcome.FreelistFull? ==> |list.nodes| == list.capacity)
    {
      if nodes[n].cow != Some(c) {
        return NotOwned;
      }
      nodes := nodes[n := Cell([], [], None)];
      var list := free[c.freelist];
      if |list.nodes| < list.capacity {
        free := free[c.freelist := list.(nodes := list.nodes + [n])];
        return Stored;
      }
      return FreelistFull;
    }

    /** The node itself if `c` owns it, else a copy that `c` owns. */
    method MutableFor(n: nat, c: Context, ghost t: Tree<T>) returns (k: nat)
      requires Valid() && c.freelist in free && t.id == n && Held(nodes, t) && Distinct(t)
      modifies this
      ensures Valid() && free.Keys == old(free.Keys)
      ensures Step(old(nodes), nodes, c, t, Node(k, t.items, t.kids))
      ensures Writable(k, c, Node(k, t.items, t.kids))
    {
      if nodes[n].cow == Some(c) {
        StepSelf(nodes, c, t);
        return n;
      }
      k := NewNode(c);
      assert Used(old(nodes), n);
      nodes := nodes[k := Cell(nodes[n].items, nodes[n].children, Some(c))];
      PoolWrite(old(nodes)[k := Cell([], [], Some(c))], free, next, k, nodes[k]);
      CopyStep(old(nodes), nodes, c, t, k);
    }

    /** Makes child `i` writable, and points the node at it. */
    method MutableChild(n: nat, i: nat, ghost c: Context, ghost t: Tree<T>) returns (k: nat, ghost t': Tree<T>)
      requires Valid() && Writable(n, c, t) && i < |t.kids|
      modifies this
      ensures Valid() && free.Keys == old(free.Keys)
      ensures t' == WithKid(t, i, Node(k, t.kids[i].items, t.kids[i].kids))
      ensures Step(old(nodes), nodes, c, t, t') && Writable(n, c, t')
      ensures k in nodes && nodes[k].cow == Some(c)
    {
      var cow := nodes[n].cow.value;
      KidDistinct(t, i);
      k := MutableFor(nodes[n].children[i], cow, t.kids[i]);
      assert Kept(old(nodes), nodes, n) by { ParentApart(old(nodes), t, i); }
      ghost var m1: Memory<T> := nodes;
      nodes := nodes[n := nodes[n].(children := nodes[n].children[i := k])];
      PoolWrite(m1, free, next, n, nodes[n]);
      t' := WithKid(t, i, Node(k, t.kids[i].items, t.kids[i].kids));
      KidStep(old(nodes), m1, nodes, c, t, i, t'.kids[i]);
      HeldUsed(nodes, t'.kids[i], k);
    }

    /** Cuts a node at item `j`; a new node takes what follows. */
    method Split(n: nat, j: nat) returns (item: T, second: nat)
      requires Valid() && Used(nodes, n) && nodes[n].cow.value.freelist in free
      requires j < |nodes[n].items| && (nodes[n].children != [] ==> j < |nodes[n].children|)
      modifies this
      ensures Valid() && free.Keys == old(free.Keys)
      ensures !Used(old(nodes), second) && item == old(nodes)[n].items[j]
      ensures nodes == old(nodes)[second := CutRight(old(nodes)[n], j)][n := CutLeft(old(nodes)[n], j)]
    {
      var cell := nodes[n];
      item := cell.items[j];
      second := NewNode(cell.cow.value);
      assert Used(old(nodes), n);
      ghost var m: Memory<T> := nodes;
      var blank := nodes[second];
      var inner := |cell.children| > 0;
      nodes := nodes[second := blank.(items := blank.items + cell.items[j + 1..],
                                      children := if inner then blank.children + cell.children[j + 1..]
                                                  else blank.children)];
      nodes := nodes[n := cell.(items := cell.items[..j],
                                children := if inner then cell.children[..j + 1] else cell.children)];
      assert blank.items == [] && blank.children == [];
      assert nodes[second] == CutRight(cell, j) && nodes[n] == CutLeft(cell, j);
      PoolWrite(m, free, next, second, CutRight(cell, j));
      PoolWrite(m[second := CutRight(cell, j)], free, next, n, CutLeft(cell, j));
    }

    /** Splits child `i` at item `j`. */
    method SplitChild(n: nat, i: nat, j: nat, ghost c: Context, ghost t: Tree<T>)
      returns (second: nat, ghost t': Tree<T>)
      requires Valid() && Writable(n, c, t) && Regular(t) && i < |t.kids| && Regular(t.kids[i]) && j < |t.kids[i].items|
      requires t.kids[i].id in nodes && nodes[t.kids[i].id].cow == Some(c)
      modifies this
      ensures Valid() && free.Keys == old(free.Keys)
      ensures t' == SplitValue(t, i, j, second)
      ensures Step(old(nodes), nodes, c, t, t') && Writable(n, c, t')
    {
      var first := nodes[n].children[i];
      assert Held(nodes, t.kids[i]);
      var item;
      item, second := Split(first, j);
      assert Used(old(nodes), n) && Kept(old(nodes), nodes, n) by { ParentApart(old(nodes), t, i); }
      ghost var m1: Memory<T> := nodes;
      var cell := nodes[n];
      nodes := nodes[n := Cell(cell.items[..i] + [item] + cell.items[i..],
                               cell.children[..i + 1] + [second] + cell.children[i + 1..], cell.cow)];
      PoolWrite(m1, free, next, n, nodes[n]);
      t' := SplitValue(t, i, j, second);
      SplitWritten(old(nodes), nodes, c, t, i, j, second);
      SplitStep(old(nodes), nodes, c, t, i, j, second);
    }

    /** Splits child `i` if it is full. */
    method MaybeSplitChild(n: nat, i: nat, maxItems: nat, ghost c: Context, ghost t: Tree<T>, ghost h: nat,
                           ghost d: nat)
      returns (split: bool, ghost t': Tree<T>)
      requires Valid() && Writable(n, c, t) && i < |t.kids|
      requires d >= 2 && maxItems == 2 * d - 1 && Fit(t, h, d) && |t.items| < maxItems
      modifies this
      ensures Valid() && free.Keys == old(free.Keys)
      ensures Step(old(nodes), nodes, c, t, t') && Writable(n, c, t')
      ensures Fit(t', h, d) && Regular(t) && Regular(t') && Contents(t') == Contents(t)
      ensures if split then SplitOf(t, i, t', d) else t' == t && |t.kids[i].items| < maxItems
    {
      FitRegular(t, h, d);
      assert Held(nodes, t.kids[i]);
      if |nodes[nodes[n].children[i]].items| < maxItems {
        StepSelf(nodes, c, t);
        return false, t;
      }
      assert FitKid(t.kids[i], h - 1, d) && Fit(t.kids[i], h - 1, d);
      assert |t.kids[i].items| == 2 * d - 1;
      ghost var t1;
      var first;
      first, t1 := MutableChild(n, i, c, t);
      RelabelKid(t, i, first, h, d);
      ghost var m1: Memory<T> := nodes;
      var second;
      var mid := maxItems / 2;
      second, t' := SplitChild(n, i, mid, c, t1);
      split := true;
      StepTrans(old(nodes), m1, nodes, c, t, t1, t');
      SplitFacts(t1, i, mid, second, h, d);
    }

    /** Replaces the items of a writable node. */
    method WriteItems(n: nat, items: seq<T>, ghost c: Context, ghost t: Tree<T>)
      requires Valid() && Writable(n, c, t)
      modifies this
      ensures Valid() && free == old(free)
      ensures nodes == old(nodes)[n := old(nodes)[n].(items := items)]
      ensures Step(old(nodes), nodes, c, t, Node(n, items, t.kids)) && Writable(n, c, Node(n, items, t.kids))
    {
      PoolWrite(nodes, free, next, n, nodes[n].(items := items));
      nodes := nodes[n := nodes[n].(items := items)];
      ItemsStep(old(nodes), nodes, c, t, items);
    }

    /** Inserts `x` below a writable node, or replaces its equivalent. */
    method Insert(n: nat, x: T, maxItems: nat, ghost c: Context, ghost t: Tree<T>, ghost h: nat, ghost d: nat)
      returns (out: Option<T>, ghost t': Tree<T>)
      requires Valid() && Writable(n, c, t) && Sound(lt, t, h, d) && maxItems == 2 * d - 1 && |t.items| < maxItems
      modifies this
      ensures Valid() && free.Keys == old(free.Keys)
      ensures Step(old(nodes), nodes, c, t, t') && Writable(n, c, t')
      ensures PutInto(lt, t, x, t', out, h, d)
      decreases h, 1
    {
      ItemsSorted(lt, t);
      var items := nodes[n].items;
      var i, found := Find(items, x);
      if found {
        WriteItems(n, items[i := x], c, t);
        ItemPut(lt, t, i, x, h, d);
        return Some(items[i]), Node(n, items[i := x], t.kids);
      }
      if |nodes[n].children| == 0 {
        WriteItems(n, items[..i] + [x] + items[i..], c, t);
        LeafPut(lt, t, x, h, d);
        return None, Node(n, items[..i] + [x] + items[i..], t.kids);
      }
      SlotBetween(lt, items, x);
      var split;
      ghost var t1;
      split, t1 := MaybeSplitChild(n, i, maxItems, c, t, h, d);
      ghost var m1: Memory<T> := nodes;
      if split {
        SplitBetween(lt, t, i, t1, x, d);
        var inTree := nodes[n].items[i];
        if lt(x, inTree) {
          out, t' := InsertBelow(n, i, x, maxItems, c, t1, h, d);
        } else if lt(inTree, x) {
          out, t' := InsertBelow(n, i + 1, x, maxItems, c, t1, h, d);
        } else {
          out := Some(inTree);
          WriteItems(n, nodes[n].items[i := x], c, t1);
          t' := Node(n, t1.items[i := x], t1.kids);
          ItemPut(lt, t1, i, x, h, d);
        }
      } else {
        out, t' := InsertBelow(n, i, x, maxItems, c, t1, h, d);
      }
      StepTrans(old(nodes), m1, nodes, c, t, t1, t');
      PutFrom(lt, t, t1, x, t', out, h, d);
    }

    method InsertBelow(n: nat, i: nat, x: T, maxItems: nat, ghost c: Context, ghost t: Tree<T>, ghost h: nat,
                       ghost d: nat)
      returns (out: Option<T>, ghost t': Tree<T>)
      requires Valid() && Writable(n, c, t) && Sound(lt, t, h, d) && maxItems == 2 * d - 1
      requires i < |t.kids| && Between(lt, t.items, i, x) && |t.kids[i].items| < maxItems
      modifies this
      ensures Valid() && free.Keys == old(free.Keys)
      ensures Step(old(nodes), nodes, c, t, t') && Writable(n, c, t')
      ensures PutInto(lt, t, x, t', out, h, d)
      decreases h, 0
    {
      KidSound(lt, t, i, h, d);
      var k;
      ghost var t1, k';
      k, t1 := MutableChild(n, i, c, t);
      RelabelKid(t, i, k, h, d);
      ghost var m1: Memory<T> := nodes;
      KidSound(lt, t1, i, h, d);
      KidDistinct(t1, i);
      ParentApart(m1, t1, i);
      out, k' := Insert(k, x, maxItems, c, t1.kids[i], h - 1, d);
      t' := WithKid(t1, i, k');
      SameParent(m1, nodes, c, t1, i, k');
      StepTrans(old(nodes), m1, nodes, c, t, t1, t');
      KidPut(lt, t1, i, x, k', out, h, d);
      PutFrom(lt, t, t1, x, t', out, h, d);
    }

    /** Makes child `i` writable; only addresses change. */
    method Prepare(n: nat, i: nat, ghost c: Context, ghost t: Tree<T>, ghost h: nat, ghost d: nat)
      returns (k: nat, ghost t': Tree<T>)
      requires Valid() && Writable(n, c, t) && i < |t.kids| && Sound(lt, t, h, d)
      modifies this
      ensures Valid() && free.Keys == old(free.Keys)
      ensures Step(old(nodes), nodes, c, t, t') && Writable(n, c, t') && Owns(nodes, c, t', i)
      ensures k == t'.kids[i].id && SameButIds(lt, t, t', h, d)
      ensures t' == WithKid(t, i, t'.kids[i])
    {
      k, t' := MutableChild(n, i, c, t);
      RelabelKid(t, i, k, h, d);
    }

    /** Makes two children writable. */
    method PreparePair(n: nat, i: nat, j: nat, ghost c: Context, ghost t: Tree<T>, ghost h: nat, ghost d: nat)
      returns (a: nat, b: nat, ghost t': Tree<T>)
      requires Valid() && Writable(n, c, t) && i < |t.kids| && j < |t.kids| && i != j && Sound(lt, t, h, d)
      modifies this
      ensures Valid() && free.Keys == old(free.Keys)
      ensures Step(old(nodes), nodes, c, t, t') && Writable(n, c, t') && Owns(nodes, c, t', i) && Owns(nodes, c, t', j)
      ensures a == t'.kids[i].id && b == t'.kids[j].id && SameButIds(lt, t, t', h, d)
    {
      ghost var t1;
      a, t1 := Prepare(n, i, c, t, h, d);
      ghost var m1: Memory<T> := nodes;
      b, t' := Prepare(n, j, c, t1, h, d);
      StillOwned(m1, nodes, c, t1, t', i);
      StepTrans(old(nodes), m1, nodes, c, t, t1, t');
    }

    /** Child `i` takes the last item of the sibling on its left. */
    method StealLeft(n: nat, i: nat, ghost target: Target<T>, ghost c: Context, ghost t: Tree<T>, ghost h: nat,
                     ghost d: nat)
      returns (ghost t': Tree<T>)
      requires Valid() && Writable(n, c, t) && Sound(lt, t, h, d)
      requires 0 < i < |t.kids| && |t.kids[i - 1].items| > d - 1 && |t.kids[i].items| == d - 1
      requires i == Route(lt, t.items, target)
      modifies this
      ensures Valid() && free.Keys == old(free.Keys)
      ensures Step(old(nodes), nodes, c, t, t') && Writable(n, c, t') && Regrown(lt, t, target, t', h, d)
    {
      var child, stealFrom;
      ghost var t2;
      var j := i - 1;
      child, stealFrom, t2 := PreparePair(n, j + 1, j, c, t, h, d);
      ghost var m2: Memory<T> := nodes;
      PairOwned(m2, c, t2, j);
      var l, r, top := nodes[stealFrom], nodes[child], nodes[n];
      nodes := nodes[stealFrom := l.(items := ButLast(l.items), children := ButLast(l.children))]
                    [child := r.(items := [top.items[j]] + r.items, children := LastOf(l.children) + r.children)]
                    [n := top.(items := top.items[j := l.items[|l.items| - 1]])];
      PoolTrio(m2, nodes, free, next, stealFrom, child, n);
      t' := MovedRight(t2, j);
      MovedRightStep(m2, nodes, c, t2, j);
      StepTrans(old(nodes), m2, nodes, c, t, t2, t');
      GrownRight(lt, t2, j, target, h, d);
    }

    /** Child `i` takes the first item of the sibling on its right. */
    method StealRight(n: nat, i: nat, ghost target: Target<T>, ghost c: Context, ghost t: Tree<T>, ghost h: nat,
                      ghost d: nat)
      returns (ghost t': Tree<T>)
      requires Valid() && Writable(n, c, t) && Sound(lt, t, h, d)
      requires i + 1 < |t.kids| && |t.kids[i + 1].items| > d - 1 && |t.kids[i].items| == d - 1
      requires i == Route(lt, t.items, target)
      modifies this
      ensures Valid() && free.Keys == old(free.Keys)
      ensures Step(old(nodes), nodes, c, t, t') && Writable(n, c, t') && Regrown(lt, t, target, t', h, d)
    {
      var child, stealFrom;
      ghost var t2;
      child, stealFrom, t2 := PreparePair(n, i, i + 1, c, t, h, d);
      ghost var m2: Memory<T> := nodes;
      PairOwned(m2, c, t2, i);
      var l, r, top := nodes[child], nodes[stealFrom], nodes[n];
      nodes := nodes[child := l.(items := l.items + [top.items[i]], children := l.children + FirstOf(r.children))]
                    [stealFrom := r.(items := ButFirst(r.items), children := ButFirst(r.children))]
                    [n := top.(items := top.items[i := r.items[0]])];
      PoolTrio(m2, nodes, free, next, child, stealFrom, n);
      t' := MovedLeft(t2, i);
      MovedLeftStep(m2, nodes, c, t2, i);
      StepTrans(old(nodes), m2, nodes, c, t, t2, t');
      GrownLeft(lt, t2, i, target, h, d);
    }

    /** Child `i` absorbs the item and the sibling on its right. */
    method Merge(n: nat, i: nat, ghost target: Target<T>, ghost c: Context, ghost t: Tree<T>, ghost h: nat,
                 ghost d: nat)
      returns (ghost t': Tree<T>)
      requires Valid() && Writable(n, c, t) && Sound(lt, t, h, d)
      requires i + 1 < |t.kids| && |t.kids[i].items| == d - 1 && |t.kids[i + 1].items| == d - 1
      requires var r := Route(lt, t.items, target); i == if r == |t.items| then r - 1 else r
      modifies this
      ensures Valid() && free.Keys == old(free.Keys)
      ensures Step(old(nodes), nodes, c, t, t') && Writable(n, c, t') && Regrown(lt, t, target, t', h, d)
    {
      var child;
      ghost var t1;
      child, t1 := Prepare(n, i, c, t, h, d);
      ghost var m1: Memory<T> := nodes;
      PairHeld(m1, t1, i);
      var top := nodes[n];
      var mergeChild := top.children[i + 1];
      var l, r := nodes[child], nodes[mergeChild];
      nodes := nodes[n := top.(items := top.items[..i] + top.items[i + 1..],
                               children := top.children[..i + 1] + top.children[i + 2..])]
                    [child := l.(items := l.items + [top.items[i]] + r.items, children := l.children + r.children)];
      PoolTrio(m1, nodes, free, next, n, child, child);
      var outcome := FreeNode(top.cow.value, mergeChild);
      t' := Merged(t1, i);
      MergedStep(m1, nodes, c, t1, i, outcome.NotOwned?);
      StepTrans(old(nodes), m1, nodes, c, t, t1, t');
      GrownMerged(lt, t1, i, target, h, d);
    }

    /** Removes the target below a writable node. */
    method Remove(n: nat, target: Target<T>, minItems: nat, ghost c: Context, ghost t: Tree<T>, ghost h: nat,
                  ghost d: nat)
      returns (out: Option<T>, ghost t': Tree<T>)
      requires Valid() && Writable(n, c, t) && Sound(lt, t, h, d) && minItems == d - 1
      requires |t.items| > 0 || (t.kids != [] && !Tight(lt, t, target, d))
      modifies this
      ensures Valid() && free.Keys == old(free.Keys)
      ensures Step(old(nodes), nodes, c, t, t') && Writable(n, c, t')
      ensures TakenFrom(lt, t, target, t', out, h, d)
      decreases h, if Tight(lt, t, target, d) then 3 else 1
    {
      ItemsSorted(lt, t);
      var i, found := Aim(nodes[n].items, target);
      if |nodes[n].children| == 0 {
        out, t' := RemoveFromLeaf(n, target, i, found, c, t, h, d);
        return;
      }
      KidSound(lt, t, i, h, d);
      assert Held(nodes, t.kids[i]);
      if |nodes[nodes[n].children[i]].items| <= minItems {
        out, t' := GrowChildAndRemove(n, i, target, minItems, c, t, h, d);
      } else {
        out, t' := RemoveBelow(n, i, found, target, minItems, c, t, h, d);
      }
    }

    /** Where the target is, or which child leads there. */
    method Aim(items: seq<T>, target: Target<T>) returns (i: nat, found: bool)
      requires StrictWeak(lt) && Sorted(lt, items)
      ensures i == Route(lt, items, target) && found == (target.RemoveItem? && Found(lt, items, target.x))
    {
      i, found := 0, false;
      match target {
        case RemoveMax => i := |items|;
        case RemoveMin => i := 0;
        case RemoveItem(x) => i, found := Find(items, x);
      }
    }

    method RemoveFromLeaf(n: nat, target: Target<T>, i: nat, found: bool, ghost c: Context, ghost t: Tree<T>,
                          ghost h: nat, ghost d: nat)
      returns (out: Option<T>, ghost t': Tree<T>)
      requires Valid() && Writable(n, c, t) && Sound(lt, t, h, d) && t.kids == [] && t.items != []
      requires i == Route(lt, t.items, target) && found == (target.RemoveItem? && Found(lt, t.items, target.x))
      modifies this
      ensures Valid() && free.Keys == old(free.Keys)
      ensures Step(old(nodes), nodes, c, t, t') && Writable(n, c, t')
      ensures TakenFrom(lt, t, target, t', out, h, d)
    {
      var items := nodes[n].items;
      out := LeafTake(items, target, i, found);
      if out.Some? {
        var k := if target.RemoveMax? then |items| - 1 else i;
        WriteItems(n, items[..k] + items[k + 1..], c, t);
        t' := Node(n, items[..k] + items[k + 1..], t.kids);
      } else {
        StepSelf(nodes, c, t);
        t' := t;
      }
      LeafTaken(lt, t, target, h, d);
    }

    /** What a leaf gives up, if anything. */
    method LeafTake(items: seq<T>, target: Target<T>, i: nat, found: bool) returns (out: Option<T>)
      requires items != [] && i == Route(lt, items, target)
      requires found == (target.RemoveItem? && Found(lt, items, target.x))
      ensures out == Taken(lt, items, target)
      ensures out.Some? ==> var k := if target.RemoveMax? then |items| - 1 else i;
                            k < |items| && items[..k] + items[k + 1..] == Remaining(lt, items, target)
      ensures out.None? ==> Remaining(lt, items, target) == items
    {
      match target {
        case RemoveMax => out := Some(items[|items| - 1]);
        case RemoveMin => out := Some(items[0]);
        case RemoveItem(_) => out := if found then Some(items[i]) else None;
      }
    }

    /** Descends into a child that has an item to spare. */
    method RemoveBelow(n: nat, i: nat, found: bool, target: Target<T>, minItems: nat,
                       ghost c: Context, ghost t: Tree<T>, ghost h: nat, ghost d: nat)
      returns (out: Option<T>, ghost t': Tree<T>)
      requires Valid() && Writable(n, c, t) && Sound(lt, t, h, d) && minItems == d - 1
      requires t.kids != [] && !Tight(lt, t, target, d) && i == Route(lt, t.items, target)
      requires found == (target.RemoveItem? && Found(lt, t.items, target.x))
      modifies this
      ensures Valid() && free.Keys == old(free.Keys)
      ensures Step(old(nodes), nodes, c, t, t') && Writable(n, c, t')
      ensures TakenFrom(lt, t, target, t', out, h, d)
      decreases h, 0
    {
      var k;
      ghost var t1, k';
      k, t1 := Prepare(n, i, c, t, h, d);
      ghost var m1: Memory<T> := nodes;
      KidSound(lt, t1, i, h, d);
      KidDistinct(t1, i);
      ghost var kid := t1.kids[i];
      assert Writable(k, c, kid) by { assert Held(nodes, kid); }
      if found {
        out, t' := ReplaceByPredecessor(n, i, k, target, minItems, c, t1, h, d);
        StepTrans(old(nodes), m1, nodes, c, t, t1, t');
      } else {
        out, k' := Remove(k, target, minItems, c, kid, h - 1, d);
        t' := WithKid(t1, i, k');
        SameParent(m1, nodes, c, t1, i, k');
        StepTrans(old(nodes), m1, nodes, c, t, t1, t');
        KidTaken(lt, t1, i, target, k', out, h, d);
      }
    }

    /** The largest item below child `i` takes the place of item `i`. */
    method ReplaceByPredecessor(n: nat, i: nat, k: nat, ghost target: Target<T>, minItems: nat,
                                ghost c: Context, ghost t: Tree<T>, ghost h: nat, ghost d: nat)
      returns (out: Option<T>, ghost t': Tree<T>)
      requires Valid() && Writable(n, c, t) && Sound(lt, t, h, d) && minItems == d - 1
      requires target.RemoveItem? && Found(lt, t.items, target.x) && i == Slot(lt, t.items, target.x)
      requires !Tight(lt, t, target, d) && i < |t.kids| && k == t.kids[i].id && Owns(nodes, c, t, i)
      requires h > 0 && Sound(lt, t.kids[i], h - 1, d) && Distinct(t.kids[i])
      modifies this
      ensures Valid() && free.Keys == old(free.Keys)
      ensures Step(old(nodes), nodes, c, t, t') && Writable(n, c, t')
      ensures TakenFrom(lt, t, target, t', out, h, d)
      decreases h - 1, 4
    {
      out := Some(nodes[n].items[i]);
      assert Held(nodes, t.kids[i]);
      var y;
      ghost var k';
      y, k' := Remove(k, RemoveMax, minItems, c, t.kids[i], h - 1, d);
      SameParent(old(nodes), nodes, c, t, i, k');
      NonEmpty(lt, t.kids[i], h - 1, d);
      ghost var t1 := WithKid(t, i, k');
      ghost var m1: Memory<T> := nodes;
      WriteItems(n, nodes[n].items[i := y.value], c, t1);
      t' := Node(n, t.items[i := y.value], t1.kids);
      StepTrans(old(nodes), m1, nodes, c, t, t1, t');
      PredecessorTaken(lt, t, i, target.x, k', y.value, h, d);
    }

    /** Gives the child an item to spare, and starts over at the same node. */
    method GrowChildAndRemove(n: nat, i: nat, target: Target<T>, minItems: nat,
                              ghost c: Context, ghost t: Tree<T>, ghost h: nat, ghost d: nat)
      returns (out: Option<T>, ghost t': Tree<T>)
      requires Valid() && Writable(n, c, t) && Sound(lt, t, h, d) && minItems == d - 1
      requires Tight(lt, t, target, d) && |t.items| > 0 && i == Route(lt, t.items, target)
      modifies this
      ensures Valid() && free.Keys == old(free.Keys)
      ensures Step(old(nodes), nodes, c, t, t') && Writable(n, c, t')
      ensures TakenFrom(lt, t, target, t', out, h, d)
      decreases h, 2
    {
      ghost var t1;
      t1 := GrowChild(n, i, target, minItems, c, t, h, d);
      ghost var m1: Memory<T> := nodes;
      out, t' := Remove(n, target, minItems, c, t1, h, d);
      StepTrans(old(nodes), m1, nodes, c, t, t1, t');
      TakenAfterRegrowth(lt, t, target, t1, t', out, h, d);
    }

    method GrowChild(n: nat, i: nat, ghost target: Target<T>, minItems: nat,
                     ghost c: Context, ghost t: Tree<T>, ghost h: nat, ghost d: nat) returns (ghost t': Tree<T>)
      requires Valid() && Writable(n, c, t) && Sound(lt, t, h, d) && minItems == d - 1
      requires Tight(lt, t, target, d) && |t.items| > 0 && i == Route(lt, t.items, target)
      modifies this
      ensures Valid() && free.Keys == old(free.Keys)
      ensures Step(old(nodes), nodes, c, t, t') && Writable(n, c, t') && Regrown(lt, t, target, t', h, d)
    {
      KidSound(lt, t, i, h, d);
      if i > 0 { KidSound(lt, t, i - 1, h, d); assert Held(nodes, t.kids[i - 1]); }
      if i < |t.items| { KidSound(lt, t, i + 1, h, d); assert Held(nodes, t.kids[i + 1]); }
      if i > 0 && |nodes[nodes[n].children[i - 1]].items| > minItems {
        t' := StealLeft(n, i, target, c, t, h, d);
      } else if i < |nodes[n].items| && |nodes[nodes[n].children[i + 1]].items| > minItems {
        t' := StealRight(n, i, target, c, t, h, d);
      } else {
        var j := if i >= |nodes[n].items| then i - 1 else i;
        t' := Merge(n, j, target, c, t, h, d);
      }
    }

    /** Frees the nodes of a subtree that context `c` owns, children first, until the free
        list is full. Tells whether to go on: then all of them are on the list. */
    method Reset(n: nat, c: Context, ghost t: Tree<T>) returns (goOn: bool)
      requires Valid() && c.freelist in free && t.id == n && Held(nodes, t) && Distinct(t)
      modifies this
      ensures Valid() && Fuller(old(free), free, c.freelist)
      ensures Framed(old(nodes), nodes, c, t)
      ensures var list := free[c.freelist];
              if goOn then Listed(old(nodes), list.nodes, c, t) else |list.nodes| == list.capacity
      decreases t
    {
      var children := nodes[n].children;
      for i := 0 to |children|
        invariant Valid() && Fuller(old(free), free, c.freelist)
        invariant FramedKids(old(nodes), nodes, c, t.kids[..i])
        invariant ListedKids(old(nodes), free[c.freelist].nodes, c, t.kids[..i])
      {
        KidLeft(old(nodes), nodes, c, t, i);
        KidDistinct(t, i);
        ghost var m: Memory<T>, list := nodes, free[c.freelist].nodes;
        var more := Reset(children[i], c, t.kids[i]);
        FramedOneMore(old(nodes), m, nodes, c, t, i);
        if more {
          ListedOneMore(old(nodes), m, list, free[c.freelist].nodes, c, t, i);
        } else {
          FramedUp(old(nodes), nodes, c, t, i + 1);
          return false;
        }
      }
      assert t.kids[..|children|] == t.kids;
      ParentKept(old(nodes), nodes, c, t);
      ghost var m: Memory<T> := nodes;
      ghost var list := free[c.freelist].nodes;
      var outcome := FreeNode(c, n);
      FramedAll(old(nodes), m, nodes, c, t);
      if !outcome.FreelistFull? {
        ListedAll(old(nodes), list, free[c.freelist].nodes, c, t);
      }
      return !outcome.FreelistFull?;
    }

    /** The stored item equivalent to `key`, if any. */
    method Get(n: nat, key: T, ghost t: Tree<T>, ghost h: nat, ghost d: nat) returns (out: Option<T>)
      requires Valid() && t.id == n && Held(nodes, t) && Sound(lt, t, h, d)
      ensures out == Lookup(lt, Contents(t), key)
      decreases h
    {
      ItemsSorted(lt, t);
      LookupStep(lt, t, key, h, d);
      var i, found := Find(nodes[n].items, key);
      if found {
        out := Some(nodes[n].items[i]);
      } else if |nodes[n].children| > 0 {
        assert Held(nodes, t.kids[i]);
        out := Get(nodes[n].children[i], key, t.kids[i], h - 1, d);
      } else {
        out := None;
      }
    }

    /** The smallest item below a node: the first of its leftmost leaf. */
    method Min(n: nat, ghost t: Tree<T>, ghost h: nat, ghost d: nat) returns (out: Option<T>)
      requires Valid() && t.id == n && Held(nodes, t) && Sound(lt, t, h, d) && (t.items == [] ==> h == 0)
      ensures out == Taken(lt, Contents(t), RemoveMin)
    {
      var k := n;
      ghost var s, g := t, h;
      while |nodes[k].children| > 0
        invariant s.id == k && Held(nodes, s) && Sound(lt, s, g, d) && (s.items == [] ==> g == 0)
        invariant Taken(lt, Contents(s), RemoveMin) == Taken(lt, Contents(t), RemoveMin)
        decreases g
      {
        KidSound(lt, s, 0, g, d);
        NonEmpty(lt, s.kids[0], g - 1, d);
        assert Contents(s)[0] == Contents(s.kids[0])[0];
        k, s, g := nodes[k].children[0], s.kids[0], g - 1;
      }
      return if |nodes[k].items| == 0 then None else Some(nodes[k].items[0]);
    }

    /** The largest item below a node: the last of its rightmost leaf. */
    method Max(n: nat, ghost t: Tree<T>, ghost h: nat, ghost d: nat) returns (out: Option<T>)
      requires Valid() && t.id == n && Held(nodes, t) && Sound(lt, t, h, d) && (t.items == [] ==> h == 0)
      ensures out == Taken(lt, Contents(t), RemoveMax)
    {
      var k := n;
      ghost var s, g := t, h;
      while |nodes[k].children| > 0
        invariant s.id == k && Held(nodes, s) && Sound(lt, s, g, d) && (s.items == [] ==> g == 0)
        invariant Taken(lt, Contents(s), RemoveMax) == Taken(lt, Contents(t), RemoveMax)
        decreases g
      {
        ghost var last := |s.kids| - 1;
        KidSound(lt, s, last, g, d);
        NonEmpty(lt, s.kids[last], g - 1, d);
        Around(s, last);
        assert After(s, last) == [];
        assert Contents(s) == Before(s, last) + Contents(s.kids[last]);
        k, s, g := nodes[k].children[|nodes[k].children| - 1], s.kids[last], g - 1;
      }
      return if |nodes[k].items| == 0 then None else Some(nodes[k].items[|nodes[k].items| - 1]);
    }
  }

  lemma StepSelf<T>(m: Memory<T>, c: Context, t: Tree<T>)
    requires Held(m, t) && Distinct(t)
    ensures Step(m, m, c, t, t)
  {
    forall x: nat | Occ(t, x) > 0 ensures Used(m, x) { HeldUsed(m, t, x); }
  }

  lemma KidDistinct<T>(t: Tree<T>, i: nat)
    requires Distinct(t) && i < |t.kids|
    ensures Distinct(t.kids[i])
  {
    forall x: nat ensures Occ(t.kids[i], x) <= 1 {
      OccAt(t.kids, i, x);
      assert Occ(t, x) <= 1;
    }
  }

  lemma ParentApart<T>(m: Memory<T>, t: Tree<T>, i: nat)
    requires Distinct(t) && i < |t.kids|
    ensures Occ(t.kids[i], t.id) == 0
  {
    OccAt(t.kids, i, t.id);
    assert Occ(t, t.id) <= 1;
  }

  ghost function SplitValue<T>(t: Tree<T>, i: nat, j: nat, n: nat): (t': Tree<T>)
    requires i < |t.kids| == |t.items| + 1 && j < |t.kids[i].items|
    requires t.kids[i].kids != [] ==> |t.kids[i].kids| == |t.kids[i].items| + 1
    ensures t'.id == t.id
  {
    Widened(t, i, LeftHalf(t.kids[i], j), t.kids[i].items[j], RightHalf(t.kids[i], j, n))
  }

  /** `t'` has two minimal children in place of the full child `i` of `t`. */
  ghost predicate SplitOf<T>(t: Tree<T>, i: nat, t': Tree<T>, d: nat) {
    && i < |t.kids| == |t.items| + 1 && |t'.kids| == |t'.items| + 1 == |t.kids| + 1
    && |t'.kids[i].items| == |t'.kids[i + 1].items| == d - 1
    && t'.items[..i] == t.items[..i] && t'.items[i + 1..] == t.items[i..]
  }

  lemma SplitWritten<T>(m: Memory<T>, m': Memory<T>, c: Context, t: Tree<T>, i: nat, j: nat, n: nat)
    requires Held(m, t) && Distinct(t) && i < |t.kids| == |t.items| + 1 && j < |t.kids[i].items|
    requires t.kids[i].kids != [] ==> |t.kids[i].kids| == |t.kids[i].items| + 1
    requires !Used(m, n) && m[t.id].cow == Some(c) && t.kids[i].id in m && m[t.kids[i].id].cow == Some(c)
    requires var k, top := m[t.kids[i].id], m[t.id];
             && j < |k.items| && (k.children != [] ==> j < |k.children|) && i < |top.children| == |top.items| + 1
             && m' == m[n := CutRight(k, j)][t.kids[i].id := CutLeft(k, j)]
                       [t.id := Cell(top.items[..i] + [k.items[j]] + top.items[i..],
                                     top.children[..i + 1] + [n] + top.children[i + 1..], top.cow)]
    ensures HalvesWritten(m, m', c, t, i, j, n)
  {
    assert Held(m, t.kids[i]);
    ParentApart(m, t, i);
    assert Used(m, t.id);
    var k, cell := t.kids[i], m[t.kids[i].id];
    var l, r := LeftHalf(k, j), RightHalf(k, j, n);
    assert HeldTop(m', l) by { LeftWritten(m, m', k, j); }
    assert HeldTop(m', r) by { RightWritten(m, m', k, j, n); }
    assert HeldTop(m', Widened(t, i, l, k.items[j], r)) by { ParentWritten(m, m', t, i, l, k.items[j], r); }
  }

  lemma LeftWritten<T>(m: Memory<T>, m': Memory<T>, k: Tree<T>, j: nat)
    requires HeldTop(m, k) && j < |k.items| && (k.kids != [] ==> |k.kids| == |k.items| + 1)
    requires k.id in m' && m'[k.id] == CutLeft(m[k.id], j)
    ensures HeldTop(m', LeftHalf(k, j))
  {
  }

  lemma RightWritten<T>(m: Memory<T>, m': Memory<T>, k: Tree<T>, j: nat, n: nat)
    requires HeldTop(m, k) && j < |k.items| && (k.kids != [] ==> |k.kids| == |k.items| + 1)
    requires n in m' && m'[n] == CutRight(m[k.id], j)
    ensures HeldTop(m', RightHalf(k, j, n))
  {
  }

  lemma ParentWritten<T>(m: Memory<T>, m': Memory<T>, t: Tree<T>, i: nat, l: Tree<T>, x: T, r: Tree<T>)
    requires HeldTop(m, t) && i < |t.kids| == |t.items| + 1 && l.id == t.kids[i].id && t.id in m'
    requires var top := m[t.id];
             m'[t.id] ==
               Cell(top.items[..i] + [x] + top.items[i..], top.children[..i + 1] + [r.id] + top.children[i + 1..],
                    top.cow)
    ensures HeldTop(m', Widened(t, i, l, x, r))
  {
    var w, ch := Widened(t, i, l, x, r), m'[t.id].children;
    forall a | 0 <= a < |w.kids| ensures ch[a] == w.kids[a].id {
      if a <= i {
        assert ch[a] == m[t.id].children[a];
      } else if a > i + 1 {
        assert ch[a] == m[t.id].children[a - 1] && w.kids[a] == t.kids[a - 1];
      }
    }
  }

  lemma HalvesFit<T>(k: Tree<T>, j: nat, n: nat, h: nat, d: nat)
    requires Fit(k, h, d) && Regular(k) && j < |k.items|
    ensures Fit(LeftHalf(k, j), h, d) && Fit(RightHalf(k, j, n), h, d)
  {
    var r := RightHalf(k, j, n);
    assert forall g :: 0 <= g < |r.kids| ==> r.kids[g] == k.kids[j + 1 + g];
  }

  lemma SplitFacts<T>(t: Tree<T>, i: nat, j: nat, n: nat, h: nat, d: nat)
    requires d >= 2 && j == d - 1 && Fit(t, h, d) && i < |t.kids| && |t.items| < 2 * d - 1 &&
             |t.kids[i].items| == 2 * d - 1
    requires Regular(t) && Regular(t.kids[i])
    ensures var t' := SplitValue(t, i, j, n);
            Fit(t', h, d) && SplitOf(t, i, t', d) && Regular(t') && Contents(t') == Contents(t)
  {
    var t' := SplitValue(t, i, j, n);
    assert FitKid(t.kids[i], h - 1, d);
    HalvesFit(t.kids[i], j, n, h - 1, d);
    forall a | 0 <= a < |t'.kids| ensures FitKid(t'.kids[a], h - 1, d) {
      if a < i {
        assert t'.kids[a] == t.kids[a];
      } else if a > i + 1 {
        assert t'.kids[a] == t.kids[a - 1];
      }
    }
    SplitContents(t, i, j, n);
  }

  /** The child kept its address, so the parent needs no write. */
  lemma SameParent<T>(m: Memory<T>, m': Memory<T>, c: Context, t: Tree<T>, i: nat, k: Tree<T>)
    requires Held(m, t) && Distinct(t) && i < |t.kids| && m[t.id].cow == Some(c)
    requires Step(m, m', c, t.kids[i], k) && k.id == t.kids[i].id
    ensures Step(m, m', c, t, WithKid(t, i, k)) && Kept(m, m', t.id)
  {
    ParentApart(m, t, i);
    assert Used(m, t.id) && Kept(m, m', t.id);
    var cell := m[t.id];
    assert cell.children[i := k.id] == cell.children;
    assert m' == m'[t.id := cell.(children := cell.children[i := k.id])];
    KidStep(m, m', m', c, t, i, k);
  }

  lemma SplitBetween<T(!new)>(lt: (T, T) -> bool, t: Tree<T>, i: nat, t': Tree<T>, x: T, d: nat)
    requires SplitOf(t, i, t', d) && Between(lt, t.items, i, x)
    ensures lt(x, t'.items[i]) ==> Between(lt, t'.items, i, x)
    ensures lt(t'.items[i], x) ==> Between(lt, t'.items, i + 1, x)
  {
    assert i > 0 ==> t'.items[i - 1] == t'.items[..i][i - 1] == t.items[i - 1];
    assert i < |t.items| ==> t'.items[i + 1] == t'.items[i + 1..][0] == t.items[i];
  }

  // ----- children that are already writable -----

  ghost predicate Owns<T>(m: Memory<T>, c: Context, t: Tree<T>, i: nat) {
    i < |t.kids| && t.kids[i].id in m && m[t.kids[i].id].cow == Some(c)
  }

  /** `t'` differs from `t` at most in the addresses of its children. */
  ghost predicate SameButIds<T(!new)>(lt: (T, T) -> bool, t: Tree<T>, t': Tree<T>, h: nat, d: nat) {
    && Sound(lt, t, h, d) && Sound(lt, t', h, d) && t'.id == t.id && t'.items == t.items && Contents(t') == Contents(t)
    && |t'.kids| == |t.kids|
    && forall i :: 0 <= i < |t.kids| ==> t'.kids[i].items == t.kids[i].items
  }

  lemma StillOwned<T>(m: Memory<T>, m': Memory<T>, c: Context, t: Tree<T>, t': Tree<T>, j: nat)
    requires Step(m, m', c, t, t') && Owns(m, c, t, j) && j < |t'.kids| && t'.kids[j] == t.kids[j]
    ensures Owns(m', c, t', j)
  {
    OccAt(t'.kids, j, t'.kids[j].id);
    assert Occ(t', t'.kids[j].id) > 0;
  }

  lemma PairHeld<T>(m: Memory<T>, t: Tree<T>, i: nat)
    requires Held(m, t) && Distinct(t) && i + 1 < |t.kids|
    ensures HeldTop(m, t) && HeldTop(m, t.kids[i]) && HeldTop(m, t.kids[i + 1])
    ensures t.id != t.kids[i].id && t.id != t.kids[i + 1].id && t.kids[i].id != t.kids[i + 1].id
  {
    assert Held(m, t.kids[i]) && Held(m, t.kids[i + 1]);
    Apart(t, i, i + 1, t.kids[i].id);
    Apart(t, i, i + 1, t.kids[i + 1].id);
  }

  lemma PairOwned<T>(m: Memory<T>, c: Context, t: Tree<T>, i: nat)
    requires Held(m, t) && Distinct(t) && m[t.id].cow == Some(c)
    requires i + 1 < |t.kids| && Owns(m, c, t, i) && Owns(m, c, t, i + 1)
    ensures forall x :: x in Trio(t, i) ==> x in m && m[x].cow == Some(c)
    ensures HeldTop(m, t) && HeldTop(m, t.kids[i]) && HeldTop(m, t.kids[i + 1])
    ensures t.id != t.kids[i].id && t.id != t.kids[i + 1].id && t.kids[i].id != t.kids[i + 1].id
  {
    PairHeld(m, t, i);
  }

  lemma PoolTrio<T>(m: Memory<T>, m': Memory<T>, free: map<nat, FreeList>, next: nat, a: nat, b: nat, c: nat)
    requires Pool(m, free, next) && Used(m, a) && Used(m, b) && Used(m, c) && OnlyAt(m, m', {a, b, c})
    ensures Pool(m', free, next)
  {
  }

  lemma MovedRightStep<T>(m: Memory<T>, m': Memory<T>, c: Context, t: Tree<T>, i: nat)
    requires Held(m, t) && Distinct(t) && i + 1 < |t.kids| == |t.items| + 1 && t.kids[i].items != []
    requires m[t.id].cow == Some(c) && Owns(m, c, t, i) && Owns(m, c, t, i + 1)
    requires HeldTop(m, t.kids[i])
    requires var l, r, top := m[t.kids[i].id], m[t.kids[i + 1].id], m[t.id];
             m' == m[t.kids[i].id := l.(items := ButLast(l.items), children := ButLast(l.children))]
                    [t.kids[i + 1].id :=
                     r.(items := [top.items[i]] + r.items, children := LastOf(l.children) + r.children)]
                    [t.id := top.(items := top.items[i := l.items[|l.items| - 1]])]
    ensures Step(m, m', c, t, MovedRight(t, i)) && m'[t.id].cow == Some(c)
  {
    var l, r := t.kids[i], t.kids[i + 1];
    PairOwned(m, c, t, i);
    HandOverKids(l.kids, r.kids);
    SwapStep(m, m', c, t, i, Giver(l), l.items[|l.items| - 1], Taker(l, t.items[i], r));
  }

  lemma MovedLeftStep<T>(m: Memory<T>, m': Memory<T>, c: Context, t: Tree<T>, i: nat)
    requires Held(m, t) && Distinct(t) && i + 1 < |t.kids| == |t.items| + 1 && t.kids[i + 1].items != []
    requires m[t.id].cow == Some(c) && Owns(m, c, t, i) && Owns(m, c, t, i + 1)
    requires HeldTop(m, t.kids[i + 1])
    requires var l, r, top := m[t.kids[i].id], m[t.kids[i + 1].id], m[t.id];
             m' == m[t.kids[i].id :=
                     l.(items := l.items + [top.items[i]], children := l.children + FirstOf(r.children))]
                    [t.kids[i + 1].id := r.(items := ButFirst(r.items), children := ButFirst(r.children))]
                    [t.id := top.(items := top.items[i := r.items[0]])]
    ensures Step(m, m', c, t, MovedLeft(t, i)) && m'[t.id].cow == Some(c)
  {
    var l, r := t.kids[i], t.kids[i + 1];
    PairOwned(m, c, t, i);
    SwapStep(m, m', c, t, i, Node(l.id, l.items + [t.items[i]], l.kids + FirstOf(r.kids)), r.items[0],
             Node(r.id, ButFirst(r.items), ButFirst(r.kids)));
  }

  lemma MergedStep<T>(m: Memory<T>, m': Memory<T>, c: Context, t: Tree<T>, i: nat, notOwned: bool)
    requires Held(m, t) && Distinct(t) && i + 1 < |t.kids| == |t.items| + 1
    requires m[t.id].cow == Some(c) && Owns(m, c, t, i)
    requires HeldTop(m, t.kids[i + 1]) && (!notOwned ==> m[t.kids[i + 1].id].cow == Some(c))
    requires var l, r, top := m[t.kids[i].id], m[t.kids[i + 1].id], m[t.id];
             var m1 := m[t.id := top.(items := top.items[..i] + top.items[i + 1..],
                                      children := top.children[..i + 1] + top.children[i + 2..])]
                        [t.kids[i].id :=
                         l.(items := l.items + [top.items[i]] + r.items, children := l.children + r.children)];
             m' == if notOwned then m1 else m1[t.kids[i + 1].id := Cell([], [], None)]
    ensures Step(m, m', c, t, Merged(t, i)) && t.id in m' && m'[t.id].cow == Some(c)
  {
    PairHeld(m, t, i);
    MergeStep(m, m', c, t, i);
  }

  // ----- freeing a subtree -----

  /** Nothing in use changes, except nodes below `ks` that context `c` owns. */
  ghost predicate FramedKids<T>(m: Memory<T>, m': Memory<T>, c: Context, ks: seq<Tree<T>>) {
    forall x: nat :: Used(m, x) && (KidOcc(ks, x) == 0 || m[x].cow != Some(c)) ==> Kept(m, m', x)
  }

  lemma KidLeft<T>(m: Memory<T>, m': Memory<T>, c: Context, t: Tree<T>, i: nat)
    requires Held(m, t) && Distinct(t) && i < |t.kids| && FramedKids(m, m', c, t.kids[..i])
    ensures Held(m', t.kids[i]) && forall x: nat :: Occ(t.kids[i], x) > 0 ==> Kept(m, m', x)
  {
    forall x: nat | Occ(t.kids[i], x) > 0 ensures Kept(m, m', x) {
      HeldUsed(m, t.kids[i], x);
      OccAt(t.kids, i, x);
      assert Occ(t, x) <= 1;
    }
    HeldFrame(m, m', t.kids[i]);
  }

  lemma FramedOneMore<T>(m: Memory<T>, m1: Memory<T>, m2: Memory<T>, c: Context, t: Tree<T>, i: nat)
    requires i < |t.kids| && FramedKids(m, m1, c, t.kids[..i]) && Framed(m1, m2, c, t.kids[i])
    ensures FramedKids(m, m2, c, t.kids[..i + 1])
  {
    forall x: nat | Used(m, x) && (KidOcc(t.kids[..i + 1], x) == 0 || m[x].cow != Some(c)) ensures Kept(m, m2, x) {
      OccAt(t.kids[..i + 1], i, x);
      assert t.kids[..i + 1][..i] == t.kids[..i];
      assert Kept(m, m1, x) && Used(m1, x);
    }
  }

  lemma FramedUp<T>(m: Memory<T>, m': Memory<T>, c: Context, t: Tree<T>, i: nat)
    requires i <= |t.kids| && FramedKids(m, m', c, t.kids[..i])
    ensures Framed(m, m', c, t)
  {
    forall x: nat | Used(m, x) && (Occ(t, x) == 0 || m[x].cow != Some(c)) ensures Kept(m, m', x) {
      OccJoin(t.kids[..i], t.kids[i..], x);
      assert t.kids[..i] + t.kids[i..] == t.kids;
    }
  }

  lemma ParentKept<T>(m: Memory<T>, m': Memory<T>, c: Context, t: Tree<T>)
    requires Held(m, t) && Distinct(t) && FramedKids(m, m', c, t.kids)
    ensures Kept(m, m', t.id)
  {
    assert Occ(t, t.id) <= 1;
  }

  lemma FramedAll<T>(m: Memory<T>, m1: Memory<T>, m2: Memory<T>, c: Context, t: Tree<T>)
    requires FramedKids(m, m1, c, t.kids) && t.id in m1 && Kept(m, m1, t.id)
    requires m2 == if m1[t.id].cow != Some(c) then m1 else m1[t.id := Cell([], [], None)]
    ensures Framed(m, m2, c, t)
  {
    forall x: nat | Used(m, x) && (Occ(t, x) == 0 || m[x].cow != Some(c)) ensures Kept(m, m2, x) {
      assert Kept(m, m1, x);
    }
  }

  /** List `f` has the same nodes as before, and perhaps more. */
  ghost predicate Fuller(free: map<nat, FreeList>, free': map<nat, FreeList>, f: nat) {
    OnlyList(free, free', f) && free[f].nodes <= free'[f].nodes
  }

  /** The nodes of `t` that context `c` owned are on the list. */
  ghost predicate Listed<T>(m: Memory<T>, list: seq<nat>, c: Context, t: Tree<T>) {
    forall x: nat :: Occ(t, x) > 0 && x in m && m[x].cow == Some(c) ==> x in list
  }

  ghost predicate ListedKids<T>(m: Memory<T>, list: seq<nat>, c: Context, ks: seq<Tree<T>>) {
    forall x: nat :: KidOcc(ks, x) > 0 && x in m && m[x].cow == Some(c) ==> x in list
  }

  lemma ListedOneMore<T>(m: Memory<T>, m1: Memory<T>, list: seq<nat>, list': seq<nat>, c: Context, t: Tree<T>, i: nat)
    requires i < |t.kids| && ListedKids(m, list, c, t.kids[..i]) && Listed(m1, list', c, t.kids[i]) && list <= list'
    requires forall x: nat :: Occ(t.kids[i], x) > 0 ==> Kept(m, m1, x)
    ensures ListedKids(m, list', c, t.kids[..i + 1])
  {
    forall x: nat | KidOcc(t.kids[..i + 1], x) > 0 && x in m && m[x].cow == Some(c) ensures x in list' {
      assert t.kids[..i + 1] == t.kids[..i] + [t.kids[i]];
      OccJoin(t.kids[..i], [t.kids[i]], x);
      if KidOcc(t.kids[..i], x) > 0 {
        assert x in list;
      } else {
        assert Occ(t.kids[i], x) > 0;
      }
    }
  }

  lemma ListedAll<T>(m: Memory<T>, list: seq<nat>, list': seq<nat>, c: Context, t: Tree<T>)
    requires ListedKids(m, list, c, t.kids) && list <= list'
    requires t.id in m && m[t.id].cow == Some(c) ==> t.id in list'
    ensures Listed(m, list', c, t)
  {
    forall x: nat | Occ(t, x) > 0 && x in m && m[x].cow == Some(c) ensures x in list' {
      if x != t.id {
        assert x in list;
      }
    }
  }
}
