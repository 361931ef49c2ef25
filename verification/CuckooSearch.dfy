/** The breadth-first search for an empty slot, and the chain of moves that it finds. */
module CuckooSearch {
  import opened CuckooTable

  const MAX_REACH: nat := 500
  const MAX_PATH_DEPTH: nat := 5

  /** Slots along which entries can move on, each to its other bucket, to free the first. */
  ghost predicate Chain(g: Geometry, cells: Cells, path: seq<Slot>) {
    && path != []
    && (forall j :: 0 <= j < |path| ==> Within(cells, path[j]))
    && At(cells, path[|path| - 1]).hash == ZERO
    && (forall j :: 0 <= j < |path| - 1 ==> Linked(g, cells, path[j], path[j + 1]))
    && (forall j, k :: 0 <= j < k < |path| ==> path[j] != path[k])
  }

  /** No bucket is on the path twice. */
  ghost predicate Spaced(path: seq<Slot>) {
    forall j, k :: 0 <= j < k < |path| ==> path[j].bucket != path[k].bucket
  }

  ghost predicate Linked(g: Geometry, cells: Cells, s: Slot, t: Slot) {
    Used(cells, s) && t.bucket == AltIndex(g, s.bucket, At(cells, s).hash)
  }

  // ----- the queue -----

  datatype Node = Node(bucket: Word, depth: nat, parent: nat, slot: nat)

  const BLANK := Node(ZERO, 0, 0, 0)

  /** No slot of the bucket is empty. */
  ghost predicate Full(cells: Cells, bucket: Word) {
    bucket in cells && forall i :: 0 <= i < |cells[bucket]| ==> cells[bucket][i].hash != ZERO
  }

  /** The bucket is among the first `n` of the queue. */
  ghost predicate Known(q: seq<Node>, n: nat, bucket: Word) {
    exists x :: 0 <= x < n && x < |q| && q[x].bucket == bucket
  }

  /** The other bucket of the entry in a slot. */
  ghost function Beyond(g: Geometry, cells: Cells, bucket: Word, i: nat): Word
    requires bucket in cells && i < |cells[bucket]|
  {
    AltIndex(g, bucket, cells[bucket][i].hash)
  }

  /** Node `f` was put in the queue from a slot of an earlier node; if that one's bucket had been
      in the queue before, so had this one's. */
  ghost predicate Child(g: Geometry, cells: Cells, q: seq<Node>, f: nat)
    requires f < |q|
  {
    var e := q[f].parent;
    && e < f && q[f].depth == q[e].depth + 1
    && q[e].bucket in cells && q[f].slot < |cells[q[e].bucket]|
    && cells[q[e].bucket][q[f].slot].hash != ZERO
    && q[f].bucket == Beyond(g, cells, q[e].bucket, q[f].slot)
    && (Known(q, e, q[e].bucket) ==> Known(q, f, q[f].bucket))
  }

  /** The queue up to `tail`, with the first `head` nodes looked at and found full. */
  ghost predicate Grown(g: Geometry, cells: Cells, q: seq<Node>, head: nat, tail: nat, i1: Word, i2: Word) {
    && |q| == MAX_REACH && 2 <= tail <= MAX_REACH && head <= tail
    && q[0] == Node(i1, 0, 0, 0) && q[1] == Node(i2, 0, 0, 0)
    && (forall f :: 0 <= f < tail ==> q[f].bucket in cells)
    && (forall f :: 2 <= f < tail ==> Child(g, cells, q, f))
    && (forall x :: 0 <= x < head ==> Full(cells, q[x].bucket))
  }

  /** The other buckets of node `x` are in the queue, for the slots before `i`. */
  ghost predicate Spreads(g: Geometry, cells: Cells, q: seq<Node>, tail: nat, x: nat, i: nat)
    requires x < |q|
  {
    q[x].bucket in cells && forall j :: 0 <= j < i && j < |cells[q[x].bucket]| ==>
      Known(q, tail, Beyond(g, cells, q[x].bucket, j))
  }

  /** Unless the queue is at its limit, the other buckets of the first `head` nodes are in it. */
  ghost predicate Complete(g: Geometry, cells: Cells, q: seq<Node>, head: nat, tail: nat) {
    tail < MAX_REACH ==> forall x :: 0 <= x < head && x < |q| ==> Spreads(g, cells, q, tail, x, SLOTS)
  }

  lemma KnownMore(q: seq<Node>, n: nat, node: Node, bucket: Word)
    requires n < |q| && Known(q, n, bucket)
    ensures Known(q[n := node], n, bucket) && Known(q[n := node], n + 1, bucket)
  {
    var x :| 0 <= x < n && x < |q| && q[x].bucket == bucket;
    assert q[n := node][x].bucket == bucket;
  }

  lemma KnownLess(q: seq<Node>, n: nat, node: Node, m: nat, bucket: Word)
    requires m <= n < |q|
    ensures Known(q[n := node], m, bucket) <==> Known(q, m, bucket)
  {
    if Known(q, m, bucket) {
      var x :| 0 <= x < m && x < |q| && q[x].bucket == bucket;
      assert q[n := node][x].bucket == bucket;
    }
    if Known(q[n := node], m, bucket) {
      var x :| 0 <= x < m && x < |q| && q[n := node][x].bucket == bucket;
      assert q[x].bucket == bucket;
    }
  }

  /** Another node at the end leaves the others as they are. */
  lemma ChildKept(g: Geometry, cells: Cells, q: seq<Node>, tail: nat, node: Node, f: nat)
    requires f < tail < |q| && Child(g, cells, q, f)
    ensures Child(g, cells, q[tail := node], f)
  {
    var e := q[f].parent;
    KnownLess(q, tail, node, e, q[e].bucket);
    KnownLess(q, tail, node, f, q[f].bucket);
  }

  lemma SpreadsMore(g: Geometry, cells: Cells, q: seq<Node>, tail: nat, node: Node, x: nat, i: nat)
    requires x < tail < |q| && Spreads(g, cells, q, tail, x, i)
    ensures Spreads(g, cells, q[tail := node], tail + 1, x, i)
  {
    forall j | 0 <= j < i && j < |cells[q[x].bucket]|
      ensures Known(q[tail := node], tail + 1, Beyond(g, cells, q[x].bucket, j))
    {
      KnownMore(q, tail, node, Beyond(g, cells, q[x].bucket, j));
    }
  }

  /** Putting the bucket beyond slot `i` of node `e` at the end of the queue. */
  lemma Enqueued(g: Geometry, cells: Cells, q: seq<Node>, tail: nat, i1: Word, i2: Word, e: nat, i: nat, node: Node)
    requires Shaped(cells, g.mask) && Grown(g, cells, q, e, tail, i1, i2) && e < tail < MAX_REACH
    requires Complete(g, cells, q, e, tail) && Spreads(g, cells, q, tail, e, i) && Full(cells, q[e].bucket) && i < SLOTS
    requires node == Node(Beyond(g, cells, q[e].bucket, i), q[e].depth + 1, e, i)
    ensures var q' := q[tail := node];
            && Grown(g, cells, q', e, tail + 1, i1, i2) && Complete(g, cells, q', e, tail + 1)
            && Spreads(g, cells, q', tail + 1, e, i + 1) && q'[e] == q[e]
  {
    var q' := q[tail := node];
    AltTwice(g, q[e].bucket, cells[q[e].bucket][i].hash);
    forall f | 2 <= f < tail ensures Child(g, cells, q', f) { ChildKept(g, cells, q, tail, node, f); }
    var end := tail + 1;
    forall x | 0 <= x < e
      ensures Spreads(g, cells, q', end, x, SLOTS)
    {
      SpreadsMore(g, cells, q, tail, node, x, SLOTS);
    }
    SpreadsMore(g, cells, q, tail, node, e, i);
    assert q'[tail].bucket == node.bucket;
    assert Known(q', tail + 1, node.bucket);
    if Known(q', e, q'[e].bucket) {
      TwinBeyond(g, cells, q, tail, e, i);
      KnownLess(q, tail, node, e, q[e].bucket);
      KnownLess(q, tail, node, tail, node.bucket);
    }
  }

  /** If the bucket of node `e` was looked at before, what lies beyond its slots is in the queue. */
  lemma TwinBeyond(g: Geometry, cells: Cells, q: seq<Node>, tail: nat, e: nat, i: nat)
    requires |q| == MAX_REACH && e < tail < MAX_REACH && Complete(g, cells, q, e, tail) && i < SLOTS
    requires q[e].bucket in cells && |cells[q[e].bucket]| == SLOTS
    ensures Known(q, e, q[e].bucket) ==> Known(q, tail, Beyond(g, cells, q[e].bucket, i))
  {
    if Known(q, e, q[e].bucket) {
      var x :| 0 <= x < e && x < |q| && q[x].bucket == q[e].bucket;
      assert Spreads(g, cells, q, tail, x, SLOTS);
    }
  }

  /** The queue and its end once the first `i` slots of a full bucket have been looked beyond: what
      lies there is put in, except where the search came from, while there is room. */
  ghost function Looked(g: Geometry, row: seq<Cell>, c: Node, pos: nat, back: Word, q: seq<Node>, tail: nat,
                        i: nat): (r: (seq<Node>, nat))
    requires i <= |row| && tail <= |q| == MAX_REACH
    ensures |r.0| == |q| && tail <= r.1 <= |q| && forall x :: 0 <= x < tail || r.1 <= x < |q| ==> r.0[x] == q[x]
  {
    if i == 0 then (q, tail) else
      var (q', end) := Looked(g, row, c, pos, back, q, tail, i - 1);
      Added(q', end, back, Node(AltIndex(g, c.bucket, row[i - 1].hash), c.depth + 1, pos, i - 1))
  }

  ghost function Added(q: seq<Node>, end: nat, back: Word, node: Node): (seq<Node>, nat)
    requires end <= |q| == MAX_REACH
  {
    if end < MAX_REACH && node.bucket != back then (q[end := node], end + 1) else (q, end)
  }

  lemma {:induction false} LookedEnough(g: Geometry, row: seq<Cell>, c: Node, pos: nat, back: Word, q: seq<Node>,
                                        tail: nat, i: nat, n: nat)
    requires i <= n <= |row| && tail <= |q| == MAX_REACH && Looked(g, row, c, pos, back, q, tail, i).1 == MAX_REACH
    ensures Looked(g, row, c, pos, back, q, tail, n) == Looked(g, row, c, pos, back, q, tail, i)
  {
    if i < n {
      LookedEnough(g, row, c, pos, back, q, tail, i, n - 1);
    }
  }

  /** The search at node `pos`, which is `c`, with its first `i` slots looked beyond. */
  ghost predicate Looking(g: Geometry, cells: Cells, q: seq<Node>, pos: nat, c: Node, end: nat, i1: Word, i2: Word,
                          back: Word, i: nat) {
    && Grown(g, cells, q, pos, end, i1, i2) && pos < end && q[pos] == c && Full(cells, c.bucket) && Known(q, end, back)
    && (end < MAX_REACH ==> Complete(g, cells, q, pos, end) && Spreads(g, cells, q, end, pos, i))
  }

  lemma LookNext(g: Geometry, cells: Cells, q: seq<Node>, pos: nat, c: Node, end: nat, i1: Word, i2: Word, back: Word,
                 i: nat, node: Node)
    requires Shaped(cells, g.mask) && Looking(g, cells, q, pos, c, end, i1, i2, back, i) && i < SLOTS && end < MAX_REACH
    requires node == Node(Beyond(g, cells, c.bucket, i), c.depth + 1, pos, i)
    ensures node.bucket == back ==> Looking(g, cells, q, pos, c, end, i1, i2, back, i + 1)
    ensures Looking(g, cells, q[end := node], pos, c, end + 1, i1, i2, back, i + 1)
  {
    Enqueued(g, cells, q, end, i1, i2, pos, i, node);
    KnownMore(q, end, node, back);
  }

  /** Slot `j` has been looked beyond as well, whatever came of it. */
  lemma LookMore(g: Geometry, cells: Cells, q: seq<Node>, pos: nat, c: Node, end: nat, i1: Word, i2: Word, back: Word,
                 j: nat, node: Node, q': seq<Node>, end': nat)
    requires Shaped(cells, g.mask) && Looking(g, cells, q, pos, c, end, i1, i2, back, j) && j < SLOTS
    requires node == Node(Beyond(g, cells, c.bucket, j), c.depth + 1, pos, j) && (q', end') == Added(q, end, back, node)
    ensures Looking(g, cells, q', pos, c, end', i1, i2, back, j + 1)
  {
    if end < MAX_REACH {
      LookNext(g, cells, q, pos, c, end, i1, i2, back, j, node);
    }
  }

  /** Looking beyond the slots of node `pos`, found full, takes the search one node on. */
  lemma {:induction false} LookedSound(g: Geometry, cells: Cells, pos: nat, c: Node, back: Word, q: seq<Node>,
                                       tail: nat, i1: Word, i2: Word, i: nat, row: seq<Cell>, q': seq<Node>, end: nat)
    requires Shaped(cells, g.mask) && Looking(g, cells, q, pos, c, tail, i1, i2, back, 0) && i <= SLOTS &&
             row == cells[c.bucket]
    requires (q', end) == Looked(g, row, c, pos, back, q, tail, i)
    ensures Looking(g, cells, q', pos, c, end, i1, i2, back, i)
  {
    if i > 0 {
      var (q1, end1) := Looked(g, row, c, pos, back, q, tail, i - 1);
      LookedSound(g, cells, pos, c, back, q, tail, i1, i2, i - 1, row, q1, end1);
      LookMore(g, cells, q1, pos, c, end1, i1, i2, back, i - 1,
               Node(Beyond(g, cells, c.bucket, i - 1), c.depth + 1, pos, i - 1), q', end);
    }
  }

  lemma LookedOn(g: Geometry, cells: Cells, pos: nat, back: Word, q: seq<Node>, tail: nat, i1: Word, i2: Word)
    requires Shaped(cells, g.mask) && Grown(g, cells, q, pos, tail, i1, i2) && Complete(g, cells, q, pos, tail)
    requires pos < tail && Full(cells, q[pos].bucket) && Known(q, tail, back)
    ensures var (q', end) := Looked(g, cells[q[pos].bucket], q[pos], pos, back, q, tail, SLOTS);
            Grown(g, cells, q', pos + 1, end, i1, i2) && Complete(g, cells, q', pos + 1, end)
  {
    var (q', end) := Looked(g, cells[q[pos].bucket], q[pos], pos, back, q, tail, SLOTS);
    LookedSound(g, cells, pos, q[pos], back, q, tail, i1, i2, SLOTS, cells[q[pos].bucket], q', end);
  }

  // ----- the way back from a bucket with space -----

  /** The path from depth `d` on, below node `x`: a chain whose buckets are all new to the queue up to `x`. */
  ghost predicate Tail(g: Geometry, cells: Cells, q: seq<Node>, x: nat, path: seq<Slot>) {
    && x < |q| && Chain(g, cells, path) && Spaced(path) && path[0].bucket == q[x].bucket
    && (forall j, y :: 0 < j < |path| && 0 <= y <= x ==> path[j].bucket != q[y].bucket)
    && !Known(q, x, q[x].bucket)
  }

  /** One step back toward the root. */
  lemma TailUp(g: Geometry, cells: Cells, q: seq<Node>, head: nat, tail: nat, i1: Word, i2: Word, x: nat,
               path: seq<Slot>)
    requires Shaped(cells, g.mask) && Grown(g, cells, q, head, tail, i1, i2) && x < tail && q[x].depth > 0
    requires Tail(g, cells, q, x, path)
    ensures var e := q[x].parent;
            e < x && q[e].depth == q[x].depth - 1 && Tail(g, cells, q, e, [Slot(q[e].bucket, q[x].slot)] + path)
  {
    assert Child(g, cells, q, x);
    var e := q[x].parent;
    var s := Slot(q[e].bucket, q[x].slot);
    var more := [s] + path;
    assert Linked(g, cells, s, path[0]);
    forall j | 0 <= j < |more| - 1 ensures Linked(g, cells, more[j], more[j + 1]) {
      if j > 0 {
        assert Linked(g, cells, path[j - 1], path[j]);
      }
    }
    assert more[|more| - 1] == path[|path| - 1];
    forall j | 0 < j < |more| ensures more[j].bucket != q[e].bucket {
      if j == 1 {
        assert more[1].bucket == q[x].bucket;
      } else {
        assert more[j] == path[j - 1];
      }
    }
    forall j, y | 0 < j < |more| && 0 <= y <= e ensures more[j].bucket != q[y].bucket {
      assert more[j] == path[j - 1];
      if j == 1 {
        assert Known(q, x, q[y].bucket);
      }
    }
    forall j, k | 0 <= j < k < |more| ensures more[j].bucket != more[k].bucket {
      assert more[k] == path[k - 1];
      if j > 0 {
        assert more[j] == path[j - 1];
      }
    }
  }

  /** A bucket with space is new to the queue. */
  lemma TailStart(g: Geometry, cells: Cells, q: seq<Node>, head: nat, tail: nat, i1: Word, i2: Word, s: Slot)
    requires Grown(g, cells, q, head, tail, i1, i2) && head < tail
    requires s.bucket == q[head].bucket && Within(cells, s) && At(cells, s).hash == ZERO
    ensures Tail(g, cells, q, head, [s])
  {
    forall x | 0 <= x < head ensures q[x].bucket != q[head].bucket { assert Full(cells, q[x].bucket); }
  }

  /** A node at depth zero is a root. */
  lemma RootIs(g: Geometry, cells: Cells, q: seq<Node>, head: nat, tail: nat, i1: Word, i2: Word, x: nat)
    requires Grown(g, cells, q, head, tail, i1, i2) && x < tail && q[x].depth == 0
    ensures q[x].bucket == i1 || q[x].bucket == i2
  {
    assert x >= 2 ==> Child(g, cells, q, x);
  }

  // ----- buckets that are cut off -----

  /** A set of full buckets that no entry can leave. */
  ghost predicate Closed(g: Geometry, cells: Cells, s: set<Word>) {
    forall b :: b in s ==> Full(cells, b) && |cells[b]| == SLOTS && Inward(g, cells, b, s)
  }

  /** Whatever is in the bucket belongs to the set with its other bucket too. */
  ghost predicate Inward(g: Geometry, cells: Cells, b: Word, s: set<Word>)
    requires b in cells && |cells[b]| == SLOTS
  {
    forall j :: 0 <= j < SLOTS ==> Beyond(g, cells, b, j) in s
  }

  /** Moving entries about cannot make room in either bucket. */
  ghost predicate Sealed(g: Geometry, cells: Cells, i1: Word, i2: Word) {
    exists s :: Closed(g, cells, s) && i1 in s && i2 in s
  }

  ghost function Buckets(q: seq<Node>, n: nat): set<Word>
    requires n <= |q|
  {
    set x | 0 <= x < n :: q[x].bucket
  }

  /** A search that has looked at everything it put in the queue has found a closed set. */
  lemma DrySealed(g: Geometry, cells: Cells, q: seq<Node>, tail: nat, i1: Word, i2: Word)
    requires Shaped(cells, g.mask) && Grown(g, cells, q, tail, tail, i1, i2) && Complete(g, cells, q, tail, tail) &&
             tail < MAX_REACH
    ensures Sealed(g, cells, i1, i2)
  {
    var s := Buckets(q, tail);
    forall b | b in s ensures Full(cells, b) && |cells[b]| == SLOTS && Inward(g, cells, b, s) {
      var x :| 0 <= x < tail && q[x].bucket == b;
      assert Full(cells, q[x].bucket) && Spreads(g, cells, q, tail, x, SLOTS);
      forall j | 0 <= j < SLOTS ensures Beyond(g, cells, b, j) in s {
        assert Known(q, tail, Beyond(g, cells, b, j));
      }
    }
    assert q[0].bucket in s && q[1].bucket in s;
  }

  /** A search never gets out of a closed set. */
  lemma {:induction false} StaysInside(g: Geometry, cells: Cells, s: set<Word>, q: seq<Node>, head: nat, tail: nat,
                                       i1: Word, i2: Word, f: nat)
    requires Closed(g, cells, s) && i1 in s && i2 in s && Grown(g, cells, q, head, tail, i1, i2) && f < tail
    ensures q[f].bucket in s
    decreases f
  {
    if f >= 2 {
      assert Child(g, cells, q, f);
      var e := q[f].parent;
      StaysInside(g, cells, s, q, head, tail, i1, i2, e);
      assert Inward(g, cells, q[e].bucket, s);
    }
  }

  /** Nor does it if it takes blank nodes for bucket zero, when that is in the set. */
  lemma {:induction false} LookedInside(g: Geometry, cells: Cells, s: set<Word>, c: Node, pos: nat, back: Word,
                                        q: seq<Node>, tail: nat, i: nat, q': seq<Node>, end: nat)
    requires Closed(g, cells, s) && c.bucket in s && tail <= |q| == MAX_REACH && i <= SLOTS
    requires forall x :: 0 <= x < MAX_REACH ==> q[x].bucket in s
    requires (q', end) == Looked(g, cells[c.bucket], c, pos, back, q, tail, i)
    ensures forall x :: 0 <= x < MAX_REACH ==> q'[x].bucket in s
  {
    if i > 0 {
      var (q1, end1) := Looked(g, cells[c.bucket], c, pos, back, q, tail, i - 1);
      LookedInside(g, cells, s, c, pos, back, q, tail, i - 1, q1, end1);
      assert Inward(g, cells, c.bucket, s) && Beyond(g, cells, c.bucket, i - 1) in s;
      assert q' == q1 || q' == q1[end1 := Node(Beyond(g, cells, c.bucket, i - 1), c.depth + 1, pos, i - 1)];
    }
  }

  // ----- a queue that has run dry -----

  /** The queue of a search that ran dry at place `first`: what it has put in since leads back to what it
      has put in since, and the rest is blank.  Either it keeps pace with the queue again, or bucket zero
      leads nowhere but to `i1`. */
  ghost predicate Astray(g: Geometry, cells: Cells, q: seq<Node>, first: nat, pos: nat, tail: nat, i1: Word) {
    && 1 <= first <= tail <= MAX_REACH == |q| && q[0].bucket == i1
    && (forall x :: first <= x < tail ==> q[x].depth >= 1 && first <= q[x].parent < tail)
    && (forall x :: tail <= x < MAX_REACH ==> q[x] == BLANK)
    && first <= pos && (pos <= tail || (ZERO in cells && Barren(g, cells[ZERO], i1)))
  }

  ghost predicate Barren(g: Geometry, row: seq<Cell>, i1: Word) {
    forall j :: 0 <= j < |row| ==> AltIndex(g, ZERO, row[j].hash) == i1
  }

  /** While the slots of node `pos`, which is `c`, are looked beyond. */
  ghost predicate Straying(q: seq<Node>, first: nat, pos: nat, start: nat, end: nat, i1: Word) {
    && 1 <= first <= start <= end <= MAX_REACH == |q| && q[0].bucket == i1 && first <= pos
    && (forall x :: first <= x < end ==>
        q[x].depth >= 1 && first <= q[x].parent && (q[x].parent < end || q[x].parent == pos))
    && (forall x :: end <= x < MAX_REACH ==> q[x] == BLANK)
  }

  /** Some slot before `i` leads elsewhere. */
  ghost predicate Leads(g: Geometry, row: seq<Cell>, bucket: Word, back: Word, i: nat) {
    exists j :: 0 <= j < i && j < |row| && AltIndex(g, bucket, row[j].hash) != back
  }

  lemma {:induction false} LookedAstray(g: Geometry, row: seq<Cell>, c: Node, first: nat, pos: nat, back: Word,
                                        q: seq<Node>, tail: nat, i: nat, i1: Word, q': seq<Node>, end: nat)
    requires i <= |row| && Straying(q, first, pos, tail, tail, i1)
    requires (q', end) == Looked(g, row, c, pos, back, q, tail, i)
    ensures Straying(q', first, pos, tail, end, i1)
    ensures tail < MAX_REACH && Leads(g, row, c.bucket, back, i) ==> tail < end
  {
    if i > 0 {
      var (q1, end1) := Looked(g, row, c, pos, back, q, tail, i - 1);
      LookedAstray(g, row, c, first, pos, back, q, tail, i - 1, i1, q1, end1);
      var ai := AltIndex(g, c.bucket, row[i - 1].hash);
      if end1 < MAX_REACH && ai != back {
        assert q' == q1[end1 := Node(ai, c.depth + 1, pos, i - 1)];
      }
    }
  }

  lemma AstrayNext(g: Geometry, cells: Cells, q: seq<Node>, first: nat, pos: nat, tail: nat, i1: Word)
    requires Astray(g, cells, q, first, pos, tail, i1) && pos < MAX_REACH && q[pos].bucket in cells &&
             |cells[q[pos].bucket]| == SLOTS
    ensures var c := q[pos];
            c.parent < |q| &&
            var (q', end) := Looked(g, cells[c.bucket], c, pos, q[c.parent].bucket, q, tail, SLOTS);
            Astray(g, cells, q', first, pos + 1, end, i1)
  {
    var c := q[pos];
    var row, back := cells[c.bucket], q[c.parent].bucket;
    var (q', end) := Looked(g, row, c, pos, back, q, tail, SLOTS);
    LookedAstray(g, row, c, first, pos, back, q, tail, SLOTS, i1, q', end);
    if pos >= tail && !Leads(g, row, c.bucket, back, SLOTS) {
      forall j | 0 <= j < SLOTS ensures AltIndex(g, ZERO, row[j].hash) == i1 {}
      assert Barren(g, row, i1);
      LookedBack(g, row, c, pos, back, q, tail, SLOTS);
    }
  }

  lemma {:induction false} LookedBack(g: Geometry, row: seq<Cell>, c: Node, pos: nat, back: Word, q: seq<Node>,
                                      tail: nat, i: nat)
    requires i <= |row| && tail <= |q| == MAX_REACH
    requires forall j :: 0 <= j < i ==> AltIndex(g, c.bucket, row[j].hash) == back
    ensures Looked(g, row, c, pos, back, q, tail, i) == (q, tail)
  {
    if i > 0 {
      LookedBack(g, row, c, pos, back, q, tail, i - 1);
    }
  }

  /** The two buckets are closed, and bucket zero, which is neither of them, has space. */
  ghost predicate Trapped(g: Geometry, cells: Cells, i1: Word, i2: Word) {
    Locked(g, cells, i1, i2) && !Full(cells, ZERO)
  }

  /** The two buckets are full of entries that can only go from one to the other; neither is bucket zero. */
  ghost predicate Locked(g: Geometry, cells: Cells, i1: Word, i2: Word) {
    && Full(cells, i1) && Full(cells, i2) && |cells[i1]| == |cells[i2]| == SLOTS
    && (forall i :: 0 <= i < SLOTS ==> Beyond(g, cells, i1, i) == i2)
    && (forall i :: 0 <= i < SLOTS ==> Beyond(g, cells, i2, i) == i1)
    && ZERO != i1 && ZERO != i2
  }

  lemma LockedSealed(g: Geometry, cells: Cells, i1: Word, i2: Word)
    requires Locked(g, cells, i1, i2)
    ensures Sealed(g, cells, i1, i2)
  {
    assert Closed(g, cells, {i1, i2});
  }

  lemma {:induction false} LookedOnly(g: Geometry, row: seq<Cell>, c: Node, pos: nat, back: Word, q: seq<Node>,
                                      tail: nat, i: nat, only: Word)
    requires i <= |row| && tail + i <= |q| == MAX_REACH && only != back
    requires forall j :: 0 <= j < i ==> AltIndex(g, c.bucket, row[j].hash) == only
    ensures var (q', end) := Looked(g, row, c, pos, back, q, tail, i);
            && end == tail + i
            && (forall x :: tail <= x < end ==> q'[x] == Node(only, c.depth + 1, pos, x - tail))
            && (forall x :: 0 <= x < |q| && !(tail <= x < end) ==> q'[x] == q[x])
  {
    if i > 0 {
      LookedOnly(g, row, c, pos, back, q, tail, i - 1, only);
    }
  }

  /** The queue of a trapped search: the other bucket four times, if it is another, and then blank nodes. */
  ghost predicate Trap(q: seq<Node>, pos: nat, tail: nat, i1: Word, i2: Word) {
    && |q| == MAX_REACH && pos <= tail && tail == (if pos == 0 || i1 == i2 then 2 else 6)
    && q[0] == Node(i1, 0, 0, 0) && q[1] == Node(i2, 0, 0, 0)
    && (forall x :: 2 <= x < tail ==> q[x].bucket == i2 && q[x].parent == 0)
    && (forall x :: tail <= x < MAX_REACH ==> q[x] == BLANK)
  }

  lemma TrapStep(g: Geometry, cells: Cells, q: seq<Node>, pos: nat, tail: nat, i1: Word, i2: Word)
    requires Locked(g, cells, i1, i2) && Trap(q, pos, tail, i1, i2) && pos < tail
    ensures var c := q[pos];
            c.parent < |q| && |cells[c.bucket]| == SLOTS &&
            var (q', end) := Looked(g, cells[c.bucket], c, pos, q[c.parent].bucket, q, tail, SLOTS);
            Trap(q', pos + 1, end, i1, i2)
  {
    var c := q[pos];
    if pos == 0 && i1 != i2 {
      forall j | 0 <= j < SLOTS
        ensures AltIndex(g, c.bucket, cells[i1][j].hash) == i2
      {
        assert Beyond(g, cells, i1, j) == i2;
      }
      LookedOnly(g, cells[i1], c, 0, i1, q, 2, SLOTS, i2);
    } else {
      forall j | 0 <= j < SLOTS
        ensures AltIndex(g, c.bucket, cells[i2][j].hash) == i1
      {
        assert Beyond(g, cells, i2, j) == i1;
      }
      LookedBack(g, cells[i2], c, pos, i1, q, tail, SLOTS);
    }
  }

  // ----- how far the search sees -----

  /** At most `n` moves lead from one of the two buckets to bucket `b`. */
  ghost predicate Reach(g: Geometry, cells: Cells, i1: Word, i2: Word, n: nat, b: Word) {
    if n == 0 then b == i1 || b == i2
    else Reach(g, cells, i1, i2, n - 1, b) ||
         exists a, j :: Reach(g, cells, i1, i2, n - 1, a) && Leaves(g, cells, a, j, b)
  }

  lemma {:induction false} Farther(g: Geometry, cells: Cells, i1: Word, i2: Word, n: nat, m: nat, b: Word)
    requires Reach(g, cells, i1, i2, n, b) && n <= m
    ensures Reach(g, cells, i1, i2, m, b)
    decreases m
  {
    if n < m {
      Farther(g, cells, i1, i2, n, m - 1, b);
    }
  }

  /** Slot `j` of a chain is `j` moves away. */
  lemma {:induction false} ChainReach(g: Geometry, cells: Cells, i1: Word, i2: Word, path: seq<Slot>, j: nat)
    requires Chain(g, cells, path) && (path[0].bucket == i1 || path[0].bucket == i2) && j < |path|
    ensures Reach(g, cells, i1, i2, j, path[j].bucket)
  {
    if j > 0 {
      ChainReach(g, cells, i1, i2, path, j - 1);
      assert Linked(g, cells, path[j - 1], path[j]);
      assert Leaves(g, cells, path[j - 1].bucket, path[j - 1].index, path[j].bucket);
    }
  }

  ghost predicate Leaves(g: Geometry, cells: Cells, a: Word, j: nat, b: Word) {
    a in cells && j < |cells[a]| && Beyond(g, cells, a, j) == b
  }

  /** The bucket is among the first `n` of the queue, at most `d` deep. */
  ghost predicate Seen(q: seq<Node>, n: nat, tail: nat, d: nat, bucket: Word) {
    exists y :: 0 <= y < n && y < tail && y < |q| && q[y].bucket == bucket && q[y].depth <= d
  }

  const NEAR: nat := 42

  /** Depths rise along the queue, which grows by no more than four nodes for each one looked at; so
      none of what lies beyond the first nodes is kept out of it. */
  ghost predicate Breadth(g: Geometry, cells: Cells, q: seq<Node>, pos: nat, tail: nat) {
    && 2 <= tail <= |q| && tail <= 2 + 4 * pos
    && (forall x, y :: 0 <= x <= y < tail ==> q[x].depth <= q[y].depth)
    && (forall y :: 0 <= y < tail && pos < tail ==> q[y].depth <= q[pos].depth + 1)
    && (forall x :: 0 <= x < pos && x < NEAR && x < |q| ==> SeenBeyond(g, cells, q, tail, x, SLOTS))
  }

  ghost predicate SeenBeyond(g: Geometry, cells: Cells, q: seq<Node>, tail: nat, x: nat, i: nat)
    requires x < |q|
  {
    q[x].bucket in cells && forall j :: 0 <= j < i && j < |cells[q[x].bucket]| ==>
      Seen(q, 6 + 4 * x, tail, q[x].depth + 1, Beyond(g, cells, q[x].bucket, j))
  }

  lemma SeenMore(q: seq<Node>, n: nat, tail: nat, d: nat, bucket: Word, node: Node)
    requires tail < |q| && Seen(q, n, tail, d, bucket)
    ensures Seen(q[tail := node], n, tail + 1, d, bucket)
  {
    var y :| 0 <= y < n && y < tail && y < |q| && q[y].bucket == bucket && q[y].depth <= d;
    assert q[tail := node][y] == q[y];
  }

  lemma SeenBeyondMore(g: Geometry, cells: Cells, q: seq<Node>, tail: nat, x: nat, i: nat, node: Node)
    requires x < tail < |q| && SeenBeyond(g, cells, q, tail, x, i)
    ensures SeenBeyond(g, cells, q[tail := node], tail + 1, x, i)
  {
    forall j | 0 <= j < i && j < |cells[q[x].bucket]|
      ensures Seen(q[tail := node], 6 + 4 * x, tail + 1, q[x].depth + 1, Beyond(g, cells, q[x].bucket, j))
    {
      SeenMore(q, 6 + 4 * x, tail, q[x].depth + 1, Beyond(g, cells, q[x].bucket, j), node);
    }
  }

  /** Node `pos` is `c`, and its first `i` slots have been looked beyond. */
  ghost predicate Broad(g: Geometry, cells: Cells, q: seq<Node>, pos: nat, c: Node, end: nat, back: Word, i: nat) {
    && |q| == MAX_REACH && pos < end <= MAX_REACH && end <= 2 + 4 * pos + i && q[pos] == c
    && (forall x, y :: 0 <= x <= y < end ==> q[x].depth <= q[y].depth)
    && (forall y :: 0 <= y < end ==> q[y].depth <= c.depth + 1)
    && (forall x :: 0 <= x < pos && x < NEAR ==> SeenBeyond(g, cells, q, end, x, SLOTS))
    && (pos < NEAR ==> SeenBeyond(g, cells, q, end, pos, i))
    && Seen(q, pos + 1, end, c.depth, back)
  }

  lemma BroadNext(g: Geometry, cells: Cells, q: seq<Node>, pos: nat, c: Node, end: nat, back: Word, i: nat, node: Node)
    requires Broad(g, cells, q, pos, c, end, back, i) && i < SLOTS && end < MAX_REACH && c.bucket in cells &&
             |cells[c.bucket]| == SLOTS
    requires node == Node(Beyond(g, cells, c.bucket, i), c.depth + 1, pos, i)
    ensures Broad(g, cells, q[end := node], pos, c, end + 1, back, i + 1)
  {
    var q', end' := q[end := node], end + 1;
    forall x | 0 <= x < pos && x < NEAR ensures SeenBeyond(g, cells, q', end', x, SLOTS) {
      SeenBeyondMore(g, cells, q, end, x, SLOTS, node);
    }
    SeenMore(q, pos + 1, end, c.depth, back, node);
    if pos < NEAR {
      SeenBeyondMore(g, cells, q, end, pos, i, node);
      assert q'[end] == node && end < 6 + 4 * pos;
      assert Seen(q', 6 + 4 * pos, end + 1, c.depth + 1, node.bucket);
    }
  }

  lemma BroadSame(g: Geometry, cells: Cells, q: seq<Node>, pos: nat, c: Node, end: nat, back: Word, i: nat)
    requires Broad(g, cells, q, pos, c, end, back, i) && i < SLOTS && c.bucket in cells && |cells[c.bucket]| == SLOTS
    requires end == MAX_REACH || Beyond(g, cells, c.bucket, i) == back
    ensures Broad(g, cells, q, pos, c, end, back, i + 1)
  {
    if pos < NEAR {
      var y :| 0 <= y < pos + 1 && y < end && y < |q| && q[y].bucket == back && q[y].depth <= c.depth;
      assert Seen(q, 6 + 4 * pos, end, c.depth + 1, back);
    }
  }

  lemma BroadMore(g: Geometry, cells: Cells, q: seq<Node>, pos: nat, c: Node, end: nat, back: Word, j: nat, node: Node,
                  q': seq<Node>, end': nat)
    requires Broad(g, cells, q, pos, c, end, back, j) && j < SLOTS && c.bucket in cells && |cells[c.bucket]| == SLOTS
    requires node == Node(Beyond(g, cells, c.bucket, j), c.depth + 1, pos, j) && (q', end') == Added(q, end, back, node)
    ensures Broad(g, cells, q', pos, c, end', back, j + 1)
  {
    if end < MAX_REACH && node.bucket != back {
      BroadNext(g, cells, q, pos, c, end, back, j, node);
    } else {
      BroadSame(g, cells, q, pos, c, end, back, j);
    }
  }

  lemma {:induction false} LookedBroad(g: Geometry, cells: Cells, pos: nat, c: Node, back: Word, q: seq<Node>,
                                       tail: nat, i: nat, row: seq<Cell>, q': seq<Node>, end: nat)
    requires Broad(g, cells, q, pos, c, tail, back, 0) && c.bucket in cells && i <= SLOTS == |row| &&
             row == cells[c.bucket]
    requires (q', end) == Looked(g, row, c, pos, back, q, tail, i)
    ensures Broad(g, cells, q', pos, c, end, back, i)
  {
    if i > 0 {
      var (q1, end1) := Looked(g, row, c, pos, back, q, tail, i - 1);
      LookedBroad(g, cells, pos, c, back, q, tail, i - 1, row, q1, end1);
      BroadMore(g, cells, q1, pos, c, end1, back, i - 1,
                Node(Beyond(g, cells, c.bucket, i - 1), c.depth + 1, pos, i - 1), q', end);
    }
  }

  lemma BreadthNext(g: Geometry, cells: Cells, q: seq<Node>, pos: nat, tail: nat, i1: Word, i2: Word)
    requires Shaped(cells, g.mask) && Grown(g, cells, q, pos, tail, i1, i2) && Breadth(g, cells, q, pos, tail) &&
             pos < tail
    ensures var c := q[pos];
            c.parent < |q| &&
            var (q', end) := Looked(g, cells[c.bucket], c, pos, q[c.parent].bucket, q, tail, SLOTS);
            Breadth(g, cells, q', pos + 1, end)
  {
    var c := q[pos];
    assert pos >= 2 ==> Child(g, cells, q, pos);
    var back := q[c.parent].bucket;
    assert Seen(q, pos + 1, tail, c.depth, back);
    var (q', end) := Looked(g, cells[c.bucket], c, pos, back, q, tail, SLOTS);
    LookedBroad(g, cells, pos, c, back, q, tail, SLOTS, cells[c.bucket], q', end);
  }

  /** How many nodes are no deeper than `n`, at most. */
  ghost function Bound(n: nat): nat { if n == 0 then 2 else 2 + 4 * Bound(n - 1) }

  /** All nodes at most three moves deep have been looked at. */
  ghost predicate NearDone(q: seq<Node>, pos: nat, tail: nat) {
    tail <= |q| && forall y :: 0 <= y < tail && y < 170 && q[y].depth <= 3 ==> y < pos
  }

  /** From a bucket among the first `m` nodes to those one move further on. */
  lemma SeenNext(g: Geometry, cells: Cells, q: seq<Node>, pos: nat, tail: nat, m: nat, d: nat, a: Word, j: nat, b: Word)
    requires Shaped(cells, g.mask) && Breadth(g, cells, q, pos, tail) && NearDone(q, pos, tail) && m <= NEAR && d < 3
    requires Seen(q, m, tail, d, a) && Leaves(g, cells, a, j, b)
    ensures Seen(q, 2 + 4 * m, tail, d + 1, b)
  {
    var x :| 0 <= x < m && x < tail && x < |q| && q[x].bucket == a && q[x].depth <= d;
    assert SeenBeyond(g, cells, q, tail, x, SLOTS);
    assert Seen(q, 6 + 4 * x, tail, q[x].depth + 1, b);
    var y :| 0 <= y < 6 + 4 * x && y < tail && y < |q| && q[y].bucket == b && q[y].depth <= q[x].depth + 1;
    assert y < 2 + 4 * m;
  }

  lemma SeenWider(q: seq<Node>, m: nat, m': nat, tail: nat, d: nat, d': nat, b: Word)
    requires Seen(q, m, tail, d, b) && m <= m' && d <= d'
    ensures Seen(q, m', tail, d', b)
  {
    var y :| 0 <= y < m && y < tail && y < |q| && q[y].bucket == b && q[y].depth <= d;
    assert y < m';
  }

  /** Buckets at most three moves away are among the first nodes of the queue. */
  lemma {:induction false} NearSeen(g: Geometry, cells: Cells, q: seq<Node>, pos: nat, tail: nat, i1: Word, i2: Word,
                                    n: nat, b: Word)
    requires Shaped(cells, g.mask) && Breadth(g, cells, q, pos, tail) && NearDone(q, pos, tail)
    requires q[0] == Node(i1, 0, 0, 0) && q[1] == Node(i2, 0, 0, 0) && n <= 3 && Reach(g, cells, i1, i2, n, b)
    ensures Seen(q, Bound(n), tail, n, b)
  {
    BoundIs();
    if n == 0 {
      var y := if b == i1 then 0 else 1;
      assert q[y].bucket == b;
    } else if Reach(g, cells, i1, i2, n - 1, b) {
      NearSeen(g, cells, q, pos, tail, i1, i2, n - 1, b);
      SeenWider(q, Bound(n - 1), Bound(n), tail, n - 1, n, b);
    } else {
      var a, j :| Reach(g, cells, i1, i2, n - 1, a) && Leaves(g, cells, a, j, b);
      NearSeen(g, cells, q, pos, tail, i1, i2, n - 1, a);
      SeenNext(g, cells, q, pos, tail, Bound(n - 1), n - 1, a, j, b);
    }
  }

  lemma BoundIs()
    ensures Bound(0) == 2 && Bound(1) == 10 && Bound(2) == 42 && Bound(3) == 170
  {
    assert Bound(1) == 10;
    assert Bound(2) == 42;
  }

  /** If all nodes up to `pos` are full, and the nodes that are left are far, so is everything near. */
  lemma NearFull(g: Geometry, cells: Cells, q: seq<Node>, pos: nat, tail: nat, i1: Word, i2: Word)
    requires Shaped(cells, g.mask) && Grown(g, cells, q, pos, tail, i1, i2) && Breadth(g, cells, q, pos, tail)
    requires pos == MAX_REACH || (pos < tail && q[pos].depth >= MAX_PATH_DEPTH)
    ensures forall b :: Reach(g, cells, i1, i2, 3, b) ==> Full(cells, b)
  {
    BoundIs();
    forall b | Reach(g, cells, i1, i2, 3, b) ensures Full(cells, b) {
      NearSeen(g, cells, q, pos, tail, i1, i2, 3, b);
    }
  }

  /** What is closed has all that is near in it. */
  lemma SealedFull(g: Geometry, cells: Cells, s: set<Word>, i1: Word, i2: Word)
    requires Closed(g, cells, s) && i1 in s && i2 in s
    ensures forall b :: Reach(g, cells, i1, i2, 3, b) ==> Full(cells, b)
  {
    forall b | Reach(g, cells, i1, i2, 3, b) ensures Full(cells, b) {
      ReachInside(g, cells, s, i1, i2, 3, b);
    }
  }

  lemma {:induction false} ReachInside(g: Geometry, cells: Cells, s: set<Word>, i1: Word, i2: Word, n: nat, b: Word)
    requires Closed(g, cells, s) && i1 in s && i2 in s && Reach(g, cells, i1, i2, n, b)
    ensures b in s
  {
    if n > 0 {
      if Reach(g, cells, i1, i2, n - 1, b) {
        ReachInside(g, cells, s, i1, i2, n - 1, b);
      } else {
        var a, j :| Reach(g, cells, i1, i2, n - 1, a) && Leaves(g, cells, a, j, b);
        ReachInside(g, cells, s, i1, i2, n - 1, a);
        assert Inward(g, cells, a, s);
      }
    }
  }

  /** The path from depth `d` to `cd` has been written down, node `x` being at depth `d`. */
  ghost predicate Walked(g: Geometry, cells: Cells, q: seq<Node>, tail: nat, x: nat, path: seq<Slot>, d: nat, cd: nat) {
    && x < tail && x < |q| && q[x].depth == d && d <= cd < MAX_PATH_DEPTH == |path|
    && Tail(g, cells, q, x, path[d..cd + 1])
  }

  lemma WalkedUp(g: Geometry, cells: Cells, q: seq<Node>, head: nat, tail: nat, i1: Word, i2: Word, x: nat,
                 path: seq<Slot>, d: nat, cd: nat)
    requires Shaped(cells, g.mask) && Grown(g, cells, q, head, tail, i1, i2) && d > 0
    requires Walked(g, cells, q, tail, x, path, d, cd)
    ensures var e := q[x].parent;
            && e < |q| && q[e].depth == d - 1
            && Walked(g, cells, q, tail, e, path[d - 1 := Slot(q[e].bucket, q[x].slot)], d - 1, cd)
  {
    var chain, e := path[d..cd + 1], q[x].parent;
    TailUp(g, cells, q, head, tail, i1, i2, x, chain);
    var s := Slot(q[e].bucket, q[x].slot);
    assert path[d - 1 := s][d - 1..cd + 1] == [s] + chain;
  }

  /** The whole path is a chain from one of the two buckets. */
  lemma WalkedAll(g: Geometry, cells: Cells, q: seq<Node>, head: nat, tail: nat, i1: Word, i2: Word, x: nat,
                  path: seq<Slot>, cd: nat)
    requires Grown(g, cells, q, head, tail, i1, i2) && Walked(g, cells, q, tail, x, path, 0, cd)
    ensures Chain(g, cells, path[..cd + 1]) && Spaced(path[..cd + 1]) && (path[0].bucket == i1 || path[0].bucket == i2)
  {
    RootIs(g, cells, q, head, tail, i1, i2, x);
    assert path[0..cd + 1] == path[..cd + 1];
  }
}
