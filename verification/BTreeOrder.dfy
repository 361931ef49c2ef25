/** Strict weak orders, and the ordered-set operations on sorted sequences that
    the B-tree is measured against. */
module BTreeOrder {

  datatype Option<+T> = None | Some(value: T)

  // Names a triple, so that the order laws are instantiated only on request.
  ghost predicate Triple<T>(a: T, b: T, c: T) { true }

  /** What `Less` must be: irreflexive, transitive, and with transitive incomparability. */
  ghost predicate StrictWeak<T(!new)>(lt: (T, T) -> bool) {
    && (forall a :: !lt(a, a))
    && (forall a, b, c {:trigger Triple(a, b, c)} ::
          Triple(a, b, c) ==>
            && (lt(a, b) && lt(b, c) ==> lt(a, c))
            && (lt(a, c) ==> lt(a, b) || lt(b, c)))
  }

  lemma Laws<T(!new)>(lt: (T, T) -> bool, a: T, b: T, c: T)
    requires StrictWeak(lt)
    ensures lt(a, b) && lt(b, c) ==> lt(a, c)
    ensures lt(a, c) ==> lt(a, b) || lt(b, c)
  {
    assert Triple(a, b, c);
  }

  lemma Asymmetric<T(!new)>(lt: (T, T) -> bool, a: T, b: T)
    requires StrictWeak(lt) && lt(a, b)
    ensures !lt(b, a)
  {
    Laws(lt, a, b, a);
  }

  predicate Equivalent<T>(lt: (T, T) -> bool, a: T, b: T) {
    !lt(a, b) && !lt(b, a)
  }

  ghost predicate Sorted<T(!new)>(lt: (T, T) -> bool, s: seq<T>) {
    forall i, j :: 0 <= i < j < |s| ==> lt(s[i], s[j])
  }

  ghost predicate AllBelow<T(!new)>(lt: (T, T) -> bool, s: seq<T>, x: T) {
    forall i :: 0 <= i < |s| ==> lt(s[i], x)
  }

  ghost predicate AllAbove<T(!new)>(lt: (T, T) -> bool, x: T, s: seq<T>) {
    forall i :: 0 <= i < |s| ==> lt(x, s[i])
  }

  /** The first position whose element lies above `x`. */
  function Cut<T>(lt: (T, T) -> bool, s: seq<T>, x: T): (k: nat)
    ensures k <= |s|
    ensures forall i :: 0 <= i < k ==> !lt(x, s[i])
    ensures k < |s| ==> lt(x, s[k])
  {
    if s == [] || lt(x, s[0]) then 0 else 1 + Cut(lt, s[1..], x)
  }

  predicate Found<T>(lt: (T, T) -> bool, s: seq<T>, x: T) {
    var k := Cut(lt, s, x);
    k > 0 && !lt(s[k - 1], x)
  }

  /** Where `find` sends `x`: the slot of its equivalent, or the slot it would take. */
  function Slot<T>(lt: (T, T) -> bool, s: seq<T>, x: T): (k: nat)
    ensures k <= |s|
    ensures Found(lt, s, x) ==> k < |s| && Equivalent(lt, s[k], x)
  {
    var k := Cut(lt, s, x);
    if Found(lt, s, x) then k - 1 else k
  }

  lemma CutUnique<T>(lt: (T, T) -> bool, s: seq<T>, x: T, k: nat)
    requires k <= |s|
    requires forall i :: 0 <= i < k ==> !lt(x, s[i])
    requires k < |s| ==> lt(x, s[k])
    ensures Cut(lt, s, x) == k
  {
  }

  // ----- the ordered set as a sorted sequence -----

  function Lookup<T>(lt: (T, T) -> bool, s: seq<T>, x: T): (r: Option<T>)
    ensures r.Some? ==> r.value in s && Equivalent(lt, r.value, x)
  {
    if Found(lt, s, x) then Some(s[Slot(lt, s, x)]) else None
  }

  function Put<T>(lt: (T, T) -> bool, s: seq<T>, x: T): (r: seq<T>)
    ensures |r| == |s| + if Found(lt, s, x) then 0 else 1
  {
    var k := Slot(lt, s, x);
    if Found(lt, s, x) then s[k := x] else s[..k] + [x] + s[k..]
  }

  function Drop<T>(lt: (T, T) -> bool, s: seq<T>, x: T): (r: seq<T>)
    ensures |r| == |s| - if Found(lt, s, x) then 1 else 0
  {
    var k := Slot(lt, s, x);
    if Found(lt, s, x) then s[..k] + s[k + 1..] else s
  }

  /** In a sorted sequence everything left of the slot is below `x`, and everything
      right of it is above. */
  lemma SlotSplits<T(!new)>(lt: (T, T) -> bool, s: seq<T>, x: T)
    requires StrictWeak(lt) && Sorted(lt, s)
    ensures var k := Slot(lt, s, x);
            AllBelow(lt, s[..k], x) && AllAbove(lt, x, s[if Found(lt, s, x) then k + 1 else k..])
  {
    var c := Cut(lt, s, x);
    var k := Slot(lt, s, x);
    forall i | 0 <= i < k ensures lt(s[i], x) {
      if Found(lt, s, x) {
        assert lt(s[i], s[k]);
        Laws(lt, s[i], x, s[k]);
      } else {
        if i < k - 1 { Laws(lt, s[i], s[k - 1], x); assert lt(s[i], s[k - 1]); }
      }
    }
    forall i | c <= i < |s| ensures lt(x, s[i]) {
      if c < i { assert lt(s[c], s[i]); Laws(lt, x, s[c], s[i]); }
    }
  }

  /** An element is found exactly when an equivalent one is stored. */
  lemma FoundMeans<T(!new)>(lt: (T, T) -> bool, s: seq<T>, x: T)
    requires StrictWeak(lt) && Sorted(lt, s)
    ensures Found(lt, s, x) <==> exists e :: e in s && Equivalent(lt, e, x)
    ensures forall e :: e in s && Equivalent(lt, e, x) ==> Lookup(lt, s, x) == Some(e)
  {
    SlotSplits(lt, s, x);
    var k := Slot(lt, s, x);
    if Found(lt, s, x) { assert s[k] in s; }
    forall e | e in s && Equivalent(lt, e, x)
      ensures Found(lt, s, x) && s[k] == e
    {
      var j :| 0 <= j < |s| && s[j] == e;
      var hi := if Found(lt, s, x) then k + 1 else k;
      assert forall i :: 0 <= i < k ==> s[..k][i] == s[i];
      assert forall i :: hi <= i < |s| ==> s[hi..][i - hi] == s[i];
    }
  }

  /** `Put` is a map update keyed by equivalence, and keeps the sequence sorted. */
  lemma PutMeans<T(!new)>(lt: (T, T) -> bool, s: seq<T>, x: T)
    requires StrictWeak(lt) && Sorted(lt, s)
    ensures Sorted(lt, Put(lt, s, x))
    ensures forall e :: e in Put(lt, s, x) <==> e == x || (e in s && !Equivalent(lt, e, x))
  {
    SlotSplits(lt, s, x);
    var k := Slot(lt, s, x);
    var hi := if Found(lt, s, x) then k + 1 else k;
    assert Put(lt, s, x) == s[..k] + [x] + s[hi..];
    Bracketed(lt, s, x, k, hi);
  }

  /** `Drop` removes exactly the equivalent element, and keeps the sequence sorted. */
  lemma DropMeans<T(!new)>(lt: (T, T) -> bool, s: seq<T>, x: T)
    requires StrictWeak(lt) && Sorted(lt, s)
    ensures Sorted(lt, Drop(lt, s, x))
    ensures forall e :: e in Drop(lt, s, x) <==> e in s && !Equivalent(lt, e, x)
  {
    SlotSplits(lt, s, x);
    var k := Slot(lt, s, x);
    var hi := if Found(lt, s, x) then k + 1 else k;
    assert Drop(lt, s, x) == s[..k] + s[hi..];
    Bracketed(lt, s, x, k, hi);
  }

  lemma Bracketed<T(!new)>(lt: (T, T) -> bool, s: seq<T>, x: T, k: nat, hi: nat)
    requires StrictWeak(lt) && Sorted(lt, s) && k <= hi <= |s| && hi <= k + 1
    requires AllBelow(lt, s[..k], x) && AllAbove(lt, x, s[hi..])
    requires k < hi ==> Equivalent(lt, s[k], x)
    ensures Sorted(lt, s[..k] + s[hi..]) && Sorted(lt, s[..k] + [x] + s[hi..])
    ensures forall e :: e in s[..k] + s[hi..] <==> e in s && !Equivalent(lt, e, x)
  {
    forall e | e in s && !Equivalent(lt, e, x) ensures e in s[..k] + s[hi..] {
      var j :| 0 <= j < |s| && s[j] == e;
      if j < k { assert s[..k][j] == e; } else { assert s[hi..][j - hi] == e; }
    }
    forall i | 0 <= i < k ensures !Equivalent(lt, s[i], x) { assert lt(s[..k][i], x); }
    forall i | hi <= i < |s| ensures !Equivalent(lt, s[i], x) { assert lt(x, s[hi..][i - hi]); }
  }

  lemma LocalCut<T(!new)>(lt: (T, T) -> bool, a: seq<T>, b: seq<T>, c: seq<T>, x: T)
    requires StrictWeak(lt) && AllBelow(lt, a, x) && AllAbove(lt, x, c)
    ensures Cut(lt, a + b + c, x) == |a| + Cut(lt, b, x)
    ensures Found(lt, a + b + c, x) == Found(lt, b, x)
    ensures Slot(lt, a + b + c, x) == |a| + Slot(lt, b, x)
  {
    forall i | 0 <= i < |a| ensures !lt(x, a[i]) { Asymmetric(lt, a[i], x); }
    CutUnique(lt, a + b + c, x, |a| + Cut(lt, b, x));
  }

  /** Only the middle part matters to an operation on `x` when the left part is
      below `x` and the right part above it. */
  lemma Localized<T(!new)>(lt: (T, T) -> bool, a: seq<T>, b: seq<T>, c: seq<T>, x: T)
    requires StrictWeak(lt) && AllBelow(lt, a, x) && AllAbove(lt, x, c)
    ensures Put(lt, a + b + c, x) == a + Put(lt, b, x) + c
    ensures Drop(lt, a + b + c, x) == a + Drop(lt, b, x) + c
    ensures Lookup(lt, a + b + c, x) == Lookup(lt, b, x)
  {
    LocalCut(lt, a, b, c, x);
    LocalPut(lt, a, b, c, x);
    LocalDrop(lt, a, b, c, x);
  }

  lemma LocalPut<T(!new)>(lt: (T, T) -> bool, a: seq<T>, b: seq<T>, c: seq<T>, x: T)
    requires Found(lt, a + b + c, x) == Found(lt, b, x) && Slot(lt, a + b + c, x) == |a| + Slot(lt, b, x)
    ensures Put(lt, a + b + c, x) == a + Put(lt, b, x) + c
  {
    Spliced(a, b, c, Slot(lt, b, x), x);
  }

  lemma LocalDrop<T(!new)>(lt: (T, T) -> bool, a: seq<T>, b: seq<T>, c: seq<T>, x: T)
    requires Found(lt, a + b + c, x) == Found(lt, b, x) && Slot(lt, a + b + c, x) == |a| + Slot(lt, b, x)
    ensures Drop(lt, a + b + c, x) == a + Drop(lt, b, x) + c
  {
    var s, k := a + b + c, Slot(lt, b, x);
    if Found(lt, b, x) {
      Spliced(a, b, c, k, x);
      assert Drop(lt, s, x) == s[..|a| + k] + s[|a| + k + 1..];
    }
  }

  lemma Spliced<T>(a: seq<T>, b: seq<T>, c: seq<T>, k: nat, x: T)
    requires k <= |b|
    ensures (a + b + c)[..|a| + k] + [x] + (a + b + c)[|a| + k..] == a + (b[..k] + [x] + b[k..]) + c
    ensures k < |b| ==> (a + b + c)[|a| + k := x] == a + b[k := x] + c
    ensures k < |b| ==> (a + b + c)[..|a| + k] + (a + b + c)[|a| + k + 1..] == a + (b[..k] + b[k + 1..]) + c
  {
  }

  lemma SortedPart<T(!new)>(lt: (T, T) -> bool, a: seq<T>, b: seq<T>, c: seq<T>)
    requires Sorted(lt, a + b + c)
    ensures Sorted(lt, a) && Sorted(lt, b) && Sorted(lt, c)
  {
    var s := a + b + c;
    forall i, j | 0 <= i < j < |b| ensures lt(b[i], b[j]) {
      assert s[|a| + i] == b[i] && s[|a| + j] == b[j];
    }
    forall i, j | 0 <= i < j < |c| ensures lt(c[i], c[j]) {
      assert s[|a| + |b| + i] == c[i] && s[|a| + |b| + j] == c[j];
    }
    forall i, j | 0 <= i < j < |a| ensures lt(a[i], a[j]) {
      assert s[i] == a[i] && s[j] == a[j];
    }
  }

  lemma BelowThrough<T(!new)>(lt: (T, T) -> bool, a: seq<T>, m: T, x: T)
    requires StrictWeak(lt) && AllBelow(lt, a, m) && (lt(m, x) || Equivalent(lt, m, x))
    ensures AllBelow(lt, a, x)
  {
    forall i | 0 <= i < |a| ensures lt(a[i], x) { Laws(lt, a[i], m, x); Laws(lt, a[i], x, m); }
  }

  lemma AboveThrough<T(!new)>(lt: (T, T) -> bool, x: T, m: T, c: seq<T>)
    requires StrictWeak(lt) && AllAbove(lt, m, c) && (lt(x, m) || Equivalent(lt, m, x))
    ensures AllAbove(lt, x, c)
  {
    forall i | 0 <= i < |c| ensures lt(x, c[i]) { Laws(lt, x, m, c[i]); Laws(lt, m, x, c[i]); }
  }

  /** In a sorted sequence an element bounds what stands on either side of it. */
  lemma Pivot<T(!new)>(lt: (T, T) -> bool, a: seq<T>, m: T, c: seq<T>)
    requires Sorted(lt, a + [m] + c)
    ensures AllBelow(lt, a, m) && AllAbove(lt, m, c)
  {
    var s := a + [m] + c;
    assert s[|a|] == m;
    forall i | 0 <= i < |a| ensures lt(a[i], m) { assert s[i] == a[i]; }
    forall i | 0 <= i < |c| ensures lt(m, c[i]) { assert s[|a| + 1 + i] == c[i]; }
  }

  /** An operation on `x` concerns just the one equivalent item. */
  lemma LocalItem<T(!new)>(lt: (T, T) -> bool, a: seq<T>, y: T, c: seq<T>, x: T)
    requires StrictWeak(lt) && AllBelow(lt, a, y) && AllAbove(lt, y, c) && Equivalent(lt, y, x)
    ensures Lookup(lt, a + [y] + c, x) == Some(y)
    ensures Put(lt, a + [y] + c, x) == a + [x] + c
    ensures Drop(lt, a + [y] + c, x) == a + c
  {
    BelowThrough(lt, a, y, x);
    AboveThrough(lt, x, y, c);
    Localized(lt, a, [y], c, x);
    Singleton(lt, y, x);
    assert a + [] + c == a + c;
  }

  lemma Singleton<T(!new)>(lt: (T, T) -> bool, y: T, x: T)
    requires StrictWeak(lt) && Equivalent(lt, y, x)
    ensures Put(lt, [y], x) == [x] && Drop(lt, [y], x) == [] && Lookup(lt, [y], x) == Some(y)
  {
    CutUnique(lt, [y], x, 1);
  }
}
