/** Whole runs over a forest of B-trees, against trees that share nothing. */
module BTreeRun {
  import opened BTreeOrder
  import opened BTreeUpdate
  import opened BTreeForest

  datatype Op<T> =
    | NewTree(degree: nat, freeListSize: nat)
    | NewSharing(degree: nat, like: nat)
    | Insert(tree: nat, x: T)
    | Remove(tree: nat, target: Target<T>)
    | Clear(tree: nat, reuse: bool)
    | Clone(tree: nat)
    | Get(tree: nat, key: T)

  /** One operation on independent ordered sets. A clone is a copy. */
  ghost function StepModel<T>(lt: (T, T) -> bool, v: seq<seq<T>>, op: Op<T>): seq<seq<T>> {
    match op
    case NewTree(degree, _) => if degree <= 1 then v else v + [[]]
    case NewSharing(degree, i) => if degree <= 1 || i >= |v| then v else v + [[]]
    case Insert(i, x) => if i >= |v| then v else v[i := Put(lt, v[i], x)]
    case Remove(i, target) => if i >= |v| then v else v[i := Remaining(lt, v[i], target)]
    case Clear(i, _) => if i >= |v| then v else v[i := []]
    case Clone(i) => if i >= |v| then v else v + [v[i]]
    case Get(_, _) => v
  }

  /** What it answers: the item replaced, taken out or found, if any. */
  ghost function StepAnswer<T>(lt: (T, T) -> bool, v: seq<seq<T>>, op: Op<T>): Option<T> {
    match op
    case Insert(i, x) => if i >= |v| then None else Lookup(lt, v[i], x)
    case Remove(i, target) => if i >= |v| then None else Taken(lt, v[i], target)
    case Get(i, key) => if i >= |v| then None else Lookup(lt, v[i], key)
    case _ => None
  }

  ghost function RunModel<T>(lt: (T, T) -> bool, v: seq<seq<T>>, ops: seq<Op<T>>): seq<seq<T>> {
    if ops == [] then v else StepModel(lt, RunModel(lt, v, ops[..|ops| - 1]), ops[|ops| - 1])
  }

  ghost function RunAnswers<T>(lt: (T, T) -> bool, v: seq<seq<T>>, ops: seq<Op<T>>): seq<Option<T>> {
    if ops == [] then [] else
      var before := ops[..|ops| - 1];
      RunAnswers(lt, v, before) + [StepAnswer(lt, RunModel(lt, v, before), ops[|ops| - 1])]
  }

  method Perform<T(!new)>(forest: Forest<T>, op: Op<T>) returns (out: Option<T>)
    requires forest.Valid()
    modifies forest, forest.store
    ensures forest.Valid() && forest.View() == StepModel(forest.store.lt, old(forest.View()), op)
    ensures out == StepAnswer(forest.store.lt, old(forest.View()), op)
  {
    out := None;
    match op {
      case NewTree(degree, size) =>
        var f := forest.NewFreeList(size);
        var i := forest.NewWithFreeList(degree, f);
      case NewSharing(degree, like) =>
        if like < |forest.trees| {
          var i := forest.NewWithFreeList(degree, forest.trees[like].cow.freelist);
        }
      case Insert(i, x) =>
        if i < |forest.trees| { out := forest.ReplaceOrInsert(i, x); }
      case Remove(i, target) =>
        if i < |forest.trees| { out := forest.DeleteItem(i, target); }
      case Clear(i, reuse) =>
        if i < |forest.trees| { forest.Clear(i, reuse); }
      case Clone(i) =>
        if i < |forest.trees| { var j := forest.Clone(i); }
      case Get(i, key) =>
        if i < |forest.trees| { out := forest.Get(i, key); }
    }
  }

  /** Any run over shared nodes answers as independent trees would, and ends with the contents they would have. */
  method Run<T(!new)>(forest: Forest<T>, ops: seq<Op<T>>) returns (answers: seq<Option<T>>)
    requires forest.Valid()
    modifies forest, forest.store
    ensures forest.Valid() && forest.View() == RunModel(forest.store.lt, old(forest.View()), ops)
    ensures answers == RunAnswers(forest.store.lt, old(forest.View()), ops)
  {
    answers := [];
    for k := 0 to |ops|
      invariant forest.Valid() && forest.View() == RunModel(forest.store.lt, old(forest.View()), ops[..k])
      invariant answers == RunAnswers(forest.store.lt, old(forest.View()), ops[..k])
    {
      var out := Perform(forest, ops[k]);
      answers := answers + [out];
      assert ops[..k + 1][..k] == ops[..k];
    }
    assert ops[..|ops|] == ops;
  }

  // ----- isolation, read off the model -----

  predicate Writes<T>(op: Op<T>, i: nat) {
    (op.Insert? || op.Remove? || op.Clear?) && op.tree == i
  }

  /** The writes addressed to tree `i`, in order. */
  ghost function History<T>(ops: seq<Op<T>>, i: nat): seq<Op<T>> {
    if ops == [] then [] else
      var last := ops[|ops| - 1];
      History(ops[..|ops| - 1], i) + if Writes(last, i) then [last] else []
  }

  ghost function StepTree<T>(lt: (T, T) -> bool, s: seq<T>, op: Op<T>): seq<T> {
    match op
    case Insert(_, x) => Put(lt, s, x)
    case Remove(_, target) => Remaining(lt, s, target)
    case Clear(_, _) => []
    case _ => s
  }

  /** What a tree with contents `s` holds after the given writes. */
  ghost function Replay<T>(lt: (T, T) -> bool, s: seq<T>, ops: seq<Op<T>>): seq<T> {
    if ops == [] then s else StepTree(lt, Replay(lt, s, ops[..|ops| - 1]), ops[|ops| - 1])
  }

  lemma StepIsolated<T>(lt: (T, T) -> bool, v: seq<seq<T>>, op: Op<T>, i: nat)
    requires i < |v|
    ensures |StepModel(lt, v, op)| >= |v|
    ensures StepModel(lt, v, op)[i] == if Writes(op, i) then StepTree(lt, v[i], op) else v[i]
  {
  }

  /** Whatever else is done to the other trees, its clones and its originals included, a
      tree's contents are decided by the writes addressed to it. */
  lemma {:induction false} TreesIsolated<T>(lt: (T, T) -> bool, v: seq<seq<T>>, ops: seq<Op<T>>, i: nat)
    requires i < |v|
    ensures |RunModel(lt, v, ops)| >= |v|
    ensures RunModel(lt, v, ops)[i] == Replay(lt, v[i], History(ops, i))
    decreases |ops|
  {
    if ops != [] {
      var before, last := ops[..|ops| - 1], ops[|ops| - 1];
      TreesIsolated(lt, v, before, i);
      StepIsolated(lt, RunModel(lt, v, before), last, i);
      var past := History(before, i);
      assert (past + [last])[..|past|] == past && past + [] == past;
    }
  }
}
