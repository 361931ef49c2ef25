/** B-trees that share one node memory: creation, updates, lazy clones, and the proof that
    each behaves as an ordered set of its own. */
module BTreeForest {
  import opened BTreeOrder
  import opened BTreeShape
  import opened BTreeSearch
  import opened BTreeMemory
  import opened BTreeSteps
  import opened BTreeUpdate
  import opened BTreeStore

  datatype Handle = Handle(degree: nat, length: nat, root: Option<nat>, cow: Context)

  /** What stands at a tree's root. */
  datatype Shape<T> = Bare | Rooted(t: Tree<T>, h: nat)

  ghost predicate TreeOk<T(!new)>(lt: (T, T) -> bool, m: Memory<T>, tree: Handle, s: Shape<T>) {
    && tree.degree >= 2
    && match s
       case Bare => tree.root == None && tree.length == 0
       case Rooted(t, h) =>
         && tree.root == Some(t.id) && Held(m, t) && Distinct(t)
         && Sound(lt, t, h, tree.degree) && (t.items == [] ==> h == 0)
         && tree.length == |Contents(t)|
  }

  ghost function ContentsOf<T(!new)>(s: Shape<T>): seq<T> {
    if s.Bare? || !Regular(s.t) then [] else Contents(s.t)
  }

  ghost function Views<T(!new)>(ss: seq<Shape<T>>): (v: seq<seq<T>>)
    ensures |v| == |ss| && forall i :: 0 <= i < |ss| ==> v[i] == ContentsOf(ss[i])
  {
    seq(|ss|, i requires 0 <= i < |ss| => ContentsOf(ss[i]))
  }

  ghost predicate In<T>(s: Shape<T>, x: nat) {
    s.Rooted? && Occ(s.t, x) > 0
  }

  /** No node of the tree belongs to context `c`. */
  ghost predicate Foreign<T>(m: Memory<T>, s: Shape<T>, c: Context) {
    forall x: nat :: In(s, x) ==> x in m && m[x].cow != Some(c)
  }

  /** Contexts the tree's nodes belong to are older than `tag`. */
  ghost predicate Older<T>(m: Memory<T>, s: Shape<T>, tag: nat) {
    forall x: nat :: In(s, x) ==> Used(m, x) && m[x].cow.value.tag < tag
  }

  /** The tree at hand turns from `s` into `s'` by writes of its context `c`. */
  ghost predicate Moves<T>(m: Memory<T>, m': Memory<T>, c: Context, s: Shape<T>, s': Shape<T>) {
    && (forall x: nat :: Used(m, x) && (!In(s, x) || m[x].cow != Some(c)) ==> Kept(m, m', x))
    && (forall x: nat :: In(s', x) ==>
          x in m' && (m'[x].cow == Some(c) || (In(s, x) && Used(m, x) && m'[x].cow == m[x].cow)))
  }

  lemma StepMoves<T>(m: Memory<T>, m': Memory<T>, c: Context, t: Tree<T>, h: nat, t': Tree<T>, h': nat)
    requires Step(m, m', c, t, t')
    ensures Moves(m, m', c, Rooted(t, h), Rooted(t', h'))
  {
  }

  /** A tree keeps what it stores, its owners and its age, through another tree's writes. */
  lemma OtherUndisturbed<T(!new)>(lt: (T, T) -> bool, m: Memory<T>, m': Memory<T>, c: Context, s: Shape<T>,
                                  s': Shape<T>, tree: Handle, o: Shape<T>, tag: nat)
    requires Moves(m, m', c, s, s') && TreeOk(lt, m, tree, o) && Foreign(m, o, c) && Older(m, o, tag)
    ensures TreeOk(lt, m', tree, o) && Foreign(m', o, c) && Older(m', o, tag)
    ensures forall x: nat :: In(o, x) ==> Kept(m, m', x)
  {
    forall x: nat | In(o, x) ensures Kept(m, m', x) {
      assert Used(m, x);
    }
    if o.Rooted? {
      forall x: nat | Occ(o.t, x) > 0 ensures Kept(m, m', x) { assert In(o, x); }
      HeldFrame(m, m', o.t);
    }
  }

  /** The moving tree stays foreign to other contexts, and no newer than before. */
  lemma MoverForeign<T>(m: Memory<T>, m': Memory<T>, c: Context, s: Shape<T>, s': Shape<T>, other: Context)
    requires Moves(m, m', c, s, s') && Foreign(m, s, other) && other != c
    ensures Foreign(m', s', other)
  {
    forall x: nat | In(s', x) ensures x in m' && m'[x].cow != Some(other) {}
  }

  lemma MoverOlder<T>(m: Memory<T>, m': Memory<T>, c: Context, s: Shape<T>, s': Shape<T>, tag: nat)
    requires Moves(m, m', c, s, s') && Older(m, s, tag) && c.tag < tag
    ensures Older(m', s', tag)
  {
    forall x: nat | In(s', x) ensures Used(m', x) && m'[x].cow.value.tag < tag {}
  }

  ghost predicate Isolated<T(!new)>(lt: (T, T) -> bool, m: Memory<T>, trees: seq<Handle>, shapes: seq<Shape<T>>,
                                    tag: nat) {
    && |shapes| == |trees|
    && (forall i :: 0 <= i < |trees| ==> TreeOk(lt, m, trees[i], shapes[i]))
    && (forall i :: 0 <= i < |trees| ==> Older(m, shapes[i], tag))
    && (forall i :: 0 <= i < |trees| ==> trees[i].cow.tag < tag)
    && (forall i, j :: 0 <= i < |trees| && 0 <= j < |trees| && i != j ==> trees[i].cow != trees[j].cow)
    && (forall i, j :: 0 <= i < |trees| && 0 <= j < |trees| && i != j ==> Foreign(m, shapes[i], trees[j].cow))
  }

  /** One tree moves; all others keep their contents and the isolation holds again. */
  lemma IsolatedMove<T(!new)>(lt: (T, T) -> bool, m: Memory<T>, m': Memory<T>, trees: seq<Handle>,
                              shapes: seq<Shape<T>>, tag: nat, i: nat, tree: Handle, s: Shape<T>)
    requires Isolated(lt, m, trees, shapes, tag) && i < |trees|
    requires tree.cow == trees[i].cow && TreeOk(lt, m', tree, s) && Moves(m, m', tree.cow, shapes[i], s)
    ensures Isolated(lt, m', trees[i := tree], shapes[i := s], tag)
  {
    var c := tree.cow;
    MoverOlder(m, m', c, shapes[i], s, tag);
    forall j | 0 <= j < |trees| && j != i
      ensures TreeOk(lt, m', trees[j], shapes[j]) && Older(m', shapes[j], tag) && Foreign(m', shapes[j], c)
      ensures Foreign(m', s, trees[j].cow)
      ensures forall x: nat :: In(shapes[j], x) ==> Kept(m, m', x)
    {
      OtherUndisturbed(lt, m, m', c, shapes[i], s, trees[j], shapes[j], tag);
      MoverForeign(m, m', c, shapes[i], s, trees[j].cow);
    }
    var trees', shapes' := trees[i := tree], shapes[i := s];
    forall a, b | 0 <= a < |trees'| && 0 <= b < |trees'| && a != b
      ensures Foreign(m', shapes'[a], trees'[b].cow)
    {
      if a != i && b != i {
        assert Foreign(m, shapes[a], trees[b].cow);
      }
    }
  }

  /** A clone shares the nodes; both trees get contexts that own none of them. */
  lemma IsolatedClone<T(!new)>(lt: (T, T) -> bool, m: Memory<T>, trees: seq<Handle>, shapes: seq<Shape<T>>, tag: nat,
                               i: nat)
    requires Isolated(lt, m, trees, shapes, tag) && i < |trees|
    ensures var c1, c2 := trees[i].cow.(tag := tag), trees[i].cow.(tag := tag + 1);
            Isolated(lt, m, trees[i := trees[i].(cow := c1)] + [trees[i].(cow := c2)], shapes + [shapes[i]], tag + 2)
  {
    var c1, c2 := trees[i].cow.(tag := tag), trees[i].cow.(tag := tag + 1);
    var trees', shapes' := trees[i := trees[i].(cow := c1)] + [trees[i].(cow := c2)], shapes + [shapes[i]];
    forall a, b | 0 <= a < |trees'| && 0 <= b < |trees'| && a != b
      ensures trees'[a].cow != trees'[b].cow && Foreign(m, shapes'[a], trees'[b].cow)
    {
      var a0 := if a == |trees| then i else a;
      assert shapes'[a] == shapes[a0] && Older(m, shapes[a0], tag);
      if b != i && b != |trees| && a0 != b { assert Foreign(m, shapes[a0], trees[b].cow); }
    }
    forall a | 0 <= a < |trees'| ensures TreeOk(lt, m, trees'[a], shapes'[a]) && Older(m, shapes'[a], tag + 2) {
      var a0 := if a == |trees| then i else a;
      assert TreeOk(lt, m, trees[a0], shapes[a0]) && Older(m, shapes[a0], tag);
    }
  }

  lemma IsolatedNew<T(!new)>(lt: (T, T) -> bool, m: Memory<T>, trees: seq<Handle>, shapes: seq<Shape<T>>, tag: nat,
                             degree: nat, f: nat)
    requires Isolated(lt, m, trees, shapes, tag) && degree >= 2
    ensures Isolated(lt, m, trees + [Handle(degree, 0, None, Context(tag, f))], shapes + [Bare], tag + 1)
  {
    var trees', shapes' := trees + [Handle(degree, 0, None, Context(tag, f))], shapes + [Bare];
    forall a, b | 0 <= a < |trees'| && 0 <= b < |trees'| && a != b
      ensures trees'[a].cow != trees'[b].cow && Foreign(m, shapes'[a], trees'[b].cow)
    {
      if a < |trees| { assert Older(m, shapes[a], tag); }
      if a < |trees| && b < |trees| { assert Foreign(m, shapes[a], trees[b].cow); }
    }
    forall a | 0 <= a < |trees'| ensures TreeOk(lt, m, trees'[a], shapes'[a]) && Older(m, shapes'[a], tag + 1) {
      if a < |trees| { assert TreeOk(lt, m, trees[a], shapes[a]) && Older(m, shapes[a], tag); }
    }
  }

  // ----- new roots -----

  /** A full root becomes the only child of a new root, and is split there. */
  lemma WrapStep<T>(m: Memory<T>, m': Memory<T>, c: Context, t: Tree<T>, n: nat)
    requires Held(m, t) && Distinct(t) && !Used(m, n)
    requires m' == m[n := Cell([], [t.id], Some(c))]
    ensures Step(m, m', c, t, Node(n, [], [t])) && Occ(t, n) == 0
  {
    var w := Node(n, [], [t]);
    if Occ(t, n) > 0 { HeldUsed(m, t, n); }
    forall x: nat ensures Occ(w, x) == Occ(t, x) + (if x == n then 1 else 0) && Occ(w, x) <= 1 {
      assert [t][1..] == [];
      assert KidOcc([t], x) == Occ(t, x);
      assert Occ(t, x) <= 1;
    }
    Intact(m, m', {n}, t);
    assert Held(m', w);
    Rewrite(m, m', c, t, w, {n});
  }

  lemma WrapSound<T(!new)>(lt: (T, T) -> bool, t: Tree<T>, n: nat, h: nat, d: nat)
    requires Sound(lt, t, h, d) && |t.items| >= d - 1
    ensures Fit(Node(n, [], [t]), h + 1, d) && Regular(Node(n, [], [t])) && Contents(Node(n, [], [t])) == Contents(t)
  {
    assert FitKid(t, h, d);
    assert Contents(Node(n, [], [t])) == Contents(t) + Tail([], []);
  }

  /** A root left without items gives way to its only child. */
  lemma CollapseStep<T>(m: Memory<T>, m': Memory<T>, c: Context, t: Tree<T>)
    requires Held(m, t) && Distinct(t) && |t.kids| == 1 && m[t.id].cow == Some(c)
    requires m' == m[t.id := Cell([], [], None)]
    ensures Step(m, m', c, t, t.kids[0])
  {
    var k := t.kids[0];
    forall x: nat ensures Occ(t, x) == Occ(k, x) + (if x == t.id then 1 else 0) && Occ(t, x) <= 1 {
      assert t.kids[1..] == [];
      assert KidOcc(t.kids[1..], x) == 0;
    }
    Intact(m, m', {t.id}, k);
    Rewrite(m, m', c, t, k, {t.id});
  }

  lemma CollapseSound<T(!new)>(lt: (T, T) -> bool, t: Tree<T>, h: nat, d: nat)
    requires Sound(lt, t, h, d) && t.items == [] && h > 0
    ensures |t.kids| == 1 && Sound(lt, t.kids[0], h - 1, d) && t.kids[0].items != []
    ensures Contents(t.kids[0]) == Contents(t)
  {
    KidSound(lt, t, 0, h, d);
    assert t.kids[1..] == [];
    assert Contents(t) == Contents(t.kids[0]) + [];
  }

  class Forest<T(!new)> {
    const store: Store<T>
    var trees: seq<Handle>
    var nextTag: nat
    var nextList: nat
    ghost var shapes: seq<Shape<T>>

    ghost predicate Valid()
      reads this, store
    {
      && store.Valid()
      && Isolated(store.lt, store.nodes, trees, shapes, nextTag)
      && (forall i :: 0 <= i < |trees| ==> trees[i].cow.freelist in store.free)
      && (forall f :: f in store.free ==> f < nextList)
    }

    /** The contents of every tree. */
    ghost function View(): seq<seq<T>>
      reads this
    {
      Views(shapes)
    }

    constructor (lt: (T, T) -> bool)
      requires StrictWeak(lt)
      ensures Valid() && fresh(store) && store.lt == lt && View() == []
    {
      store := new Store(lt);
      trees, nextTag, nextList, shapes := [], 0, 0, [];
    }

    /** A free list that keeps at most `size` nodes. */
    method NewFreeList(size: nat) returns (f: nat)
      requires Valid()
      modifies this, store
      ensures Valid() && View() == old(View()) && |trees| == old(|trees|) && f in store.free
    {
      f := nextList;
      nextList := nextList + 1;
      store.free := store.free[f := FreeList(size, [])];
    }

    /** A new empty tree on the given free list; refused below degree 2. */
    method NewWithFreeList(degree: nat, f: nat) returns (i: Option<nat>)
      requires Valid() && f in store.free
      modifies this
      ensures Valid()
      ensures degree <= 1 ==> i == None && View() == old(View())
      ensures degree >= 2 ==> i == Some(old(|trees|)) && View() == old(View()) + [[]]
    {
      if degree <= 1 {
        return None;
      }
      i := Some(|trees|);
      IsolatedNew(store.lt, store.nodes, trees, shapes, nextTag, degree, f);
      trees := trees + [Handle(degree, 0, None, Context(nextTag, f))];
      shapes := shapes + [Bare];
      nextTag := nextTag + 1;
    }

    /** A lazy copy: only contexts change hands. */
    method Clone(i: nat) returns (j: nat)
      requires Valid() && i < |trees|
      modifies this
      ensures Valid() && j == old(|trees|)
      ensures View() == old(View()) + [old(View())[i]]
    {
      j := |trees|;
      var tree := trees[i];
      IsolatedClone(store.lt, store.nodes, trees, shapes, nextTag, i);
      trees := trees[i := tree.(cow := tree.cow.(tag := nextTag))] + [tree.(cow := tree.cow.(tag := nextTag + 1))];
      shapes := shapes + [shapes[i]];
      nextTag := nextTag + 2;
    }

    /** Installs the outcome of a write to tree `i`. */
    method Install(i: nat, tree: Handle, ghost s: Shape<T>, ghost m: Memory<T>)
      requires store.Valid() && i < |trees| && Isolated(store.lt, m, trees, shapes, nextTag)
      requires (forall j :: 0 <= j < |trees| ==> trees[j].cow.freelist in store.free)
      requires (forall f :: f in store.free ==> f < nextList)
      requires tree.cow == trees[i].cow && TreeOk(store.lt, store.nodes, tree, s)
      requires Moves(m, store.nodes, tree.cow, shapes[i], s)
      modifies this
      ensures Valid() && View() == old(View())[i := ContentsOf(s)]
    {
      IsolatedMove(store.lt, m, store.nodes, trees, shapes, nextTag, i, tree, s);
      trees, shapes := trees[i := tree], shapes[i := s];
    }
  
    /** A full root `n` is split below a new root. */
    method SplitRoot(n: nat, j: nat, c: Context, ghost t: Tree<T>, ghost h: nat, ghost d: nat)
      returns (root: nat, ghost t': Tree<T>)
      requires store.Valid() && store.Writable(n, c, t) && Sound(store.lt, t, h, d)
      requires |t.items| == 2 * d - 1 && j == d - 1
      modifies store
      ensures store.Valid() && store.free.Keys == old(store.free.Keys)
      ensures Step(old(store.nodes), store.nodes, c, t, t') && store.Writable(root, c, t')
      ensures Fit(t', h + 1, d) && Regular(t') && Contents(t') == Contents(t) && |t'.items| == 1
    {
      ghost var m: Memory<T> := store.nodes;
      var item, second := store.Split(n, j);
      root := store.NewNode(c);
      assert !Used(m, root) && root != n && root != second;
      ghost var m1: Memory<T> := store.nodes;
      store.nodes := store.nodes[root := store.nodes[root].(items := [item], children := [n, second])];
      PoolWrite(m1, store.free, store.next, root, store.nodes[root]);
      t' := SplitValue(Node(root, [], [t]), 0, j, second);
      RootSplit(m, store.nodes, c, t, root, j, second);
      RootSplitSound(store.lt, t, root, j, second, h, d);
    }

    /** Makes the root of a tree writable, and splits it if it is full. */
    method PrepareRoot(tree: Handle, ghost t: Tree<T>, ghost h: nat) returns (n: nat, ghost t': Tree<T>, ghost h': nat)
      requires store.Valid() && TreeOk(store.lt, store.nodes, tree, Rooted(t, h)) && tree.cow.freelist in store.free
      modifies store
      ensures store.Valid() && store.free.Keys == old(store.free.Keys)
      ensures Step(old(store.nodes), store.nodes, tree.cow, t, t') && store.Writable(n, tree.cow, t')
      ensures Sound(store.lt, t', h', tree.degree) && Contents(t') == Contents(t)
      ensures |t'.items| < 2 * tree.degree - 1 && (t'.items == [] ==> h' == 0)
    {
      var c := tree.cow;
      n := store.MutableFor(tree.root.value, c, t);
      ghost var t1 := Node(n, t.items, t.kids);
      t', h' := t1, h;
      Relabel(t, n);
      RelabelFit(t, n, h, tree.degree);
      var maxItems := tree.degree * 2 - 1;
      if |store.nodes[n].items| >= maxItems {
        ghost var m: Memory<T> := store.nodes;
        n, t' := SplitRoot(n, maxItems / 2, c, t1, h, tree.degree);
        h' := h + 1;
        StepTrans(old(store.nodes), m, store.nodes, c, t, t1, t');
      }
    }

    /** Adds `x` to tree `i`, or replaces its equivalent and returns it. */
    method ReplaceOrInsert(i: nat, x: T) returns (out: Option<T>)
      requires Valid() && i < |trees|
      modifies this, store
      ensures Valid() && View() == old(View())[i := Put(store.lt, old(View())[i], x)]
      ensures out == Lookup(store.lt, old(View())[i], x)
    {
      var tree := trees[i];
      if tree.root.None? {
        out := InsertFirst(i, x);
        assert Put(store.lt, [], x) == [] + [x] + [] == [x];
      } else {
        ghost var t, h := shapes[i].t, shapes[i].h;
        ghost var m: Memory<T> := store.nodes;
        var n;
        ghost var t1, h1, t';
        n, t1, h1 := PrepareRoot(tree, t, h);
        ghost var m1: Memory<T> := store.nodes;
        out, t' := store.Insert(n, x, tree.degree * 2 - 1, tree.cow, t1, h1, tree.degree);
        StepTrans(m, m1, store.nodes, tree.cow, t, t1, t');
        StepMoves(m, store.nodes, tree.cow, t, h, t', h1);
        PutMeans(store.lt, Contents(t1), x);
        var length := if out.None? then tree.length + 1 else tree.length;
        Install(i, tree.(root := Some(n), length := length), Rooted(t', h1), m);
      }
    }

    /** The first item of an empty tree. */
    method InsertFirst(i: nat, x: T) returns (out: Option<T>)
      requires Valid() && i < |trees| && trees[i].root.None?
      modifies this, store
      ensures Valid() && View() == old(View())[i := [x]] && old(View())[i] == [] && out == None
    {
      var tree := trees[i];
      ghost var m: Memory<T> := store.nodes;
      var n := store.NewNode(tree.cow);
      ghost var m1: Memory<T> := store.nodes;
      store.nodes := store.nodes[n := store.nodes[n].(items := [x])];
      PoolWrite(m1, store.free, store.next, n, store.nodes[n]);
      ghost var t := Node(n, [x], []);
      forall y: nat ensures Occ(t, y) == if y == n then 1 else 0 {}
      assert Moves(m, store.nodes, tree.cow, Bare, Rooted(t, 0));
      assert TreeOk(store.lt, store.nodes, tree.(root := Some(n), length := tree.length + 1), Rooted(t, 0));
      Install(i, tree.(root := Some(n), length := tree.length + 1), Rooted(t, 0), m);
      out := None;
    }

    /** Removes the target from tree `i`, and returns it. */
    method DeleteItem(i: nat, target: Target<T>) returns (out: Option<T>)
      requires Valid() && i < |trees|
      modifies this, store
      ensures Valid() && View() == old(View())[i := Remaining(store.lt, old(View())[i], target)]
      ensures out == Taken(store.lt, old(View())[i], target)
    {
      var tree := trees[i];
      if tree.root.None? || |store.nodes[tree.root.value].items| == 0 {
        EmptyTaken(store.lt, store.nodes, tree, shapes[i], target);
        assert View() == View()[i := View()[i]];
        return None;
      }
      ghost var t, h := shapes[i].t, shapes[i].h;
      ghost var m: Memory<T> := store.nodes;
      var n := store.MutableFor(tree.root.value, tree.cow, t);
      ghost var t1, m1: Memory<T>, t' := Node(n, t.items, t.kids), store.nodes, t;
      Relabel(t, n);
      RelabelFit(t, n, h, tree.degree);
      out, t' := store.Remove(n, target, tree.degree - 1, tree.cow, t1, h, tree.degree);
      StepTrans(m, m1, store.nodes, tree.cow, t, t1, t');
      RemainingMeans(store.lt, Contents(t1), target);
      var length := if out.Some? then tree.length - 1 else tree.length;
      FinishDelete(i, n, length, t, t', h, m);
    }

    /** Drops a root that has no item left, and installs the tree. */
    method FinishDelete(i: nat, n: nat, length: nat, ghost t: Tree<T>, ghost t': Tree<T>, ghost h: nat,
                        ghost m: Memory<T>)
      requires store.Valid() && i < |trees| && Isolated(store.lt, m, trees, shapes, nextTag)
      requires (forall j :: 0 <= j < |trees| ==> trees[j].cow.freelist in store.free)
      requires (forall f :: f in store.free ==> f < nextList)
      requires shapes[i] == Rooted(t, h) && Step(m, store.nodes, trees[i].cow, t, t')
      requires store.Writable(n, trees[i].cow, t') && Sound(store.lt, t', h, trees[i].degree) &&
               length == |Contents(t')|
      modifies this, store
      ensures Valid() && View() == old(View())[i := Contents(t')]
    {
      var tree := trees[i];
      if |store.nodes[n].items| == 0 && |store.nodes[n].children| > 0 {
        ghost var k := t'.kids[0];
        var root := DropRoot(n, tree.cow, tree.degree, t, t', h, m);
        InstallRoot(i, root, length, t, h, k, h - 1, m);
      } else {
        InstallRoot(i, n, length, t, h, t', h, m);
      }
    }

    /** Makes `root` the root of tree `i`, which was rooted at `t`. */
    method InstallRoot(i: nat, root: nat, length: nat, ghost t: Tree<T>, ghost h: nat, ghost k: Tree<T>, ghost hk: nat,
                       ghost m: Memory<T>)
      requires store.Valid() && i < |trees| && Isolated(store.lt, m, trees, shapes, nextTag)
      requires (forall j :: 0 <= j < |trees| ==> trees[j].cow.freelist in store.free)
      requires (forall f :: f in store.free ==> f < nextList)
      requires shapes[i] == Rooted(t, h) && Step(m, store.nodes, trees[i].cow, t, k) && root == k.id
      requires Held(store.nodes, k) && Distinct(k) && Sound(store.lt, k, hk, trees[i].degree) &&
               (k.items == [] ==> hk == 0)
      requires length == |Contents(k)|
      modifies this
      ensures Valid() && View() == old(View())[i := Contents(k)]
    {
      var tree := trees[i].(root := Some(root), length := length);
      assert TreeOk(store.lt, m, trees[i], shapes[i]);
      StepMoves(m, store.nodes, tree.cow, t, h, k, hk);
      Install(i, tree, Rooted(k, hk), m);
    }

    /** Frees a root without items; its only child takes its place. */
    method DropRoot(n: nat, cow: Context, degree: nat, ghost t: Tree<T>, ghost t': Tree<T>, ghost h: nat,
                    ghost m: Memory<T>)
      returns (root: nat)
      requires store.Valid() && Step(m, store.nodes, cow, t, t') && cow.freelist in store.free
      requires store.Writable(n, cow, t') && Sound(store.lt, t', h, degree) && t'.items == [] && t'.kids != []
      modifies store
      ensures store.Valid() && store.free.Keys == old(store.free).Keys
      ensures h > 0 && root == t'.kids[0].id && Held(store.nodes, t'.kids[0]) &&
              Sound(store.lt, t'.kids[0], h - 1, degree)
      ensures t'.kids[0].items != [] && Contents(t'.kids[0]) == Contents(t') && Step(m, store.nodes, cow, t, t'.kids[0])
    {
      ghost var m1: Memory<T> := store.nodes;
      root := store.nodes[n].children[0];
      CollapseSound(store.lt, t', h, degree);
      var outcome := store.FreeNode(cow, n);
      CollapseStep(m1, store.nodes, cow, t');
      StepTrans(m, m1, store.nodes, cow, t, t', t'.kids[0]);
    }

    /** Empties tree `i`, handing its own nodes to the free list if asked, as long as that has
        room. */
    method Clear(i: nat, addNodesToFreelist: bool)
      requires Valid() && i < |trees|
      modifies this, store
      ensures Valid() && View() == old(View())[i := []]
      ensures var (c, s) := (old(trees)[i].cow, old(shapes)[i]); addNodesToFreelist && s.Rooted? ==>
                c.freelist in store.free && (var list := store.free[c.freelist];
                |list.nodes| == list.capacity || Listed(old(store.nodes), list.nodes, c, s.t))
    {
      var tree := trees[i];
      ghost var m: Memory<T> := store.nodes;
      if tree.root.Some? && addNodesToFreelist {
        var goOn := store.Reset(tree.root.value, tree.cow, shapes[i].t);
      }
      Install(i, tree.(root := None, length := 0), Bare, m);
    }

    method Get(i: nat, key: T) returns (out: Option<T>)
      requires Valid() && i < |trees|
      ensures out == Lookup(store.lt, View()[i], key)
    {
      if trees[i].root.None? {
        return None;
      }
      out := store.Get(trees[i].root.value, key, shapes[i].t, shapes[i].h, trees[i].degree);
    }

    /** The smallest item of tree `i`. */
    method Min(i: nat) returns (out: Option<T>)
      requires Valid() && i < |trees|
      ensures out == Taken(store.lt, View()[i], RemoveMin)
    {
      if trees[i].root.None? {
        return None;
      }
      out := store.Min(trees[i].root.value, shapes[i].t, shapes[i].h, trees[i].degree);
    }

    /** The largest item of tree `i`. */
    method Max(i: nat) returns (out: Option<T>)
      requires Valid() && i < |trees|
      ensures out == Taken(store.lt, View()[i], RemoveMax)
    {
      if trees[i].root.None? {
        return None;
      }
      out := store.Max(trees[i].root.value, shapes[i].t, shapes[i].h, trees[i].degree);
    }

    /** The number of items in tree `i`. */
    method Len(i: nat) returns (n: nat)
      requires Valid() && i < |trees|
      ensures n == |View()[i]|
    {
      n := trees[i].length;
    }
  }

  lemma RootSplitStep<T>(m: Memory<T>, m': Memory<T>, c: Context, w: Tree<T>, j: nat, n: nat)
    requires Held(m, w) && Distinct(w) && |w.kids| == 1 && w.items == [] && j < |w.kids[0].items|
    requires w.kids[0].kids != [] ==> |w.kids[0].kids| == |w.kids[0].items| + 1
    requires !Used(m, n) && m[w.id].cow == Some(c) && w.kids[0].id in m && m[w.kids[0].id].cow == Some(c)
    requires var k := m[w.kids[0].id];
             && j < |k.items| && (k.children != [] ==> j < |k.children|)
             && m' == m[n := CutRight(k, j)][w.kids[0].id := CutLeft(k, j)]
                       [w.id := Cell([k.items[j]], [w.kids[0].id, n], Some(c))]
    ensures Step(m, m', c, w, SplitValue(w, 0, j, n))
  {
    var k, top := m[w.kids[0].id], m[w.id];
    assert top.items == [] && top.children == [w.kids[0].id];
    assert top.items[..0] + [k.items[j]] + top.items[0..] == [k.items[j]];
    assert top.children[..1] + [n] + top.children[1..] == [w.kids[0].id, n];
    SplitWritten(m, m', c, w, 0, j, n);
    SplitStep(m, m', c, w, 0, j, n);
  }

  lemma RootSplit<T>(m: Memory<T>, m': Memory<T>, c: Context, t: Tree<T>, root: nat, j: nat, n: nat)
    requires Held(m, t) && Distinct(t) && Regular(t) && m[t.id].cow == Some(c)
    requires j < |t.items| && !Used(m, root) && !Used(m, n) && root != n
    requires var k := m[t.id];
             && (k.children != [] ==> j < |k.children|)
             && m' == m[n := CutRight(k, j)][t.id := CutLeft(k, j)][root := Cell([k.items[j]], [t.id, n], Some(c))]
    ensures var t' := SplitValue(Node(root, [], [t]), 0, j, n);
            && Step(m, m', c, t, t') && m'[root].cow == Some(c)
  {
    var w := Node(root, [], [t]);
    var mw: Memory<T> := m[root := Cell([], [t.id], Some(c))];
    WrapStep(m, mw, c, t, root);
    assert m' == mw[n := CutRight(m[t.id], j)][t.id := CutLeft(m[t.id], j)][root := m'[root]];
    RootSplitStep(mw, m', c, w, j, n);
    StepTrans(m, mw, m', c, t, w, SplitValue(w, 0, j, n));
  }

  lemma RootSplitSound<T(!new)>(lt: (T, T) -> bool, t: Tree<T>, root: nat, j: nat, n: nat, h: nat, d: nat)
    requires Sound(lt, t, h, d) && |t.items| == 2 * d - 1 && j == d - 1
    ensures var t' := SplitValue(Node(root, [], [t]), 0, j, n);
            Fit(t', h + 1, d) && Regular(t') && Contents(t') == Contents(t) && |t'.items| == 1
  {
    WrapSound(lt, t, root, h, d);
    SplitFacts(Node(root, [], [t]), 0, j, n, h + 1, d);
  }

  lemma EmptyTaken<T(!new)>(lt: (T, T) -> bool, m: Memory<T>, tree: Handle, s: Shape<T>, target: Target<T>)
    requires TreeOk(lt, m, tree, s) && (tree.root.None? || (tree.root.value in m && m[tree.root.value].items == []))
    ensures ContentsOf(s) == [] && Remaining(lt, [], target) == [] && Taken(lt, [], target) == None
  {
  }

  lemma RemainingMeans<T(!new)>(lt: (T, T) -> bool, s: seq<T>, target: Target<T>)
    requires StrictWeak(lt) && Sorted(lt, s)
    ensures Sorted(lt, Remaining(lt, s, target))
    ensures |Remaining(lt, s, target)| == |s| - if Taken(lt, s, target).Some? then 1 else 0
  {
    if target.RemoveItem? { DropMeans(lt, s, target.x); }
  }
}
