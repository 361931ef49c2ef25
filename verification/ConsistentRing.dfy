/** Points on a ring, their owners, and which of them a key belongs to. */
module ConsistentRing {

  type Host = string

  // ----- sorted points -----

  ghost predicate Rising(s: seq<nat>) {
    forall i, j :: 0 <= i < j < |s| ==> s[i] < s[j]
  }

  ghost function Elements(s: seq<nat>): set<nat> { set x | x in s }

  lemma {:induction false} RisingSize(s: seq<nat>)
    requires Rising(s)
    ensures |Elements(s)| == |s|
  {
    if s != [] {
      var front, x := s[..|s| - 1], s[|s| - 1];
      RisingSize(front);
      assert x !in front;
      assert Elements(s) == Elements(front) + {x};
    }
  }

  /** A set of points in rising order. */
  method SortPoints(points: set<nat>) returns (s: seq<nat>)
    ensures Rising(s) && Elements(s) == points
  {
    s := [];
    var rest := points;
    while rest != {}
      invariant Rising(s) && Elements(s) + rest == points && Elements(s) !! rest
      decreases |rest|
    {
      var x :| x in rest;
      s := InsertPoint(s, x);
      rest := rest - {x};
    }
  }

  method InsertPoint(s: seq<nat>, x: nat) returns (r: seq<nat>)
    requires Rising(s) && x !in s
    ensures Rising(r) && Elements(r) == Elements(s) + {x}
  {
    var i := 0;
    while i < |s| && s[i] < x
      invariant i <= |s| && forall j :: 0 <= j < i ==> s[j] < x
    {
      i := i + 1;
    }
    r := s[..i] + [x] + s[i..];
    Inserted(s, i, x);
  }

  lemma Inserted(s: seq<nat>, i: nat, x: nat)
    requires Rising(s) && i <= |s| && (forall j :: 0 <= j < i ==> s[j] < x) && (i < |s| ==> x < s[i])
    ensures var r := s[..i] + [x] + s[i..]; Rising(r) && Elements(r) == Elements(s) + {x}
  {
    var r := s[..i] + [x] + s[i..];
    forall k | 0 <= k < |r| ensures r[k] == if k < i then s[k] else if k == i then x else s[k - 1] {}
    InsertedElements(s, i, x);
  }

  lemma InsertedElements(s: seq<nat>, i: nat, x: nat)
    requires i <= |s|
    ensures Elements(s[..i] + [x] + s[i..]) == Elements(s) + {x}
  {
    assert s == s[..i] + s[i..];
  }

  // ----- the owner of a key -----

  /** `p` is the first point at or after `key`, going round. */
  ghost predicate IsNext(points: set<nat>, key: nat, p: nat) {
    && p in points
    && (p >= key ==> forall x :: x in points && x >= key ==> p <= x)
    && (p < key ==> (forall x :: x in points ==> x < key && p <= x))
  }

  lemma NextUnique(points: set<nat>, key: nat, p: nat, q: nat)
    requires IsNext(points, key, p) && IsNext(points, key, q)
    ensures p == q
  {
  }

  /** There is a least point. */
  lemma {:induction false} LeastExists(points: set<nat>) returns (p: nat)
    requires points != {}
    ensures p in points && forall x :: x in points ==> p <= x
  {
    var first :| first in points;
    var rest := points - {first};
    assert points == rest + {first};
    if rest == {} {
      p := first;
    } else {
      var q := LeastExists(rest);
      p := if q < first then q else first;
    }
  }

  lemma NextExists(points: set<nat>, key: nat)
    requires points != {}
    ensures exists p: nat :: IsNext(points, key, p)
  {
    var above := set x | x in points && x >= key;
    assert forall x :: x in points && x >= key ==> x in above;
    if above == {} {
      var p := LeastExists(points);
      assert IsNext(points, key, p);
    } else {
      var p := LeastExists(above);
      assert IsNext(points, key, p);
    }
  }

  /** With more points the next one is the same or one of the new ones. */
  lemma NextStays(points: set<nat>, more: set<nat>, key: nat, p: nat, q: nat)
    requires IsNext(points, key, p) && IsNext(points + more, key, q)
    ensures q == p || q in more
  {
    if q in points {
      NextUnique(points, key, p, q);
    }
  }

  /** Where a key at index `i` of the sorted points is looked up. */
  method Search(s: seq<nat>, key: nat) returns (i: nat)
    requires Rising(s) && s != []
    ensures i < |s| && IsNext(Elements(s), key, s[i])
  {
    var lo, hi := 0, |s|;
    while lo < hi
      invariant lo <= hi <= |s|
      invariant forall j :: 0 <= j < lo ==> s[j] < key
      invariant forall j :: hi <= j < |s| ==> s[j] >= key
    {
      var mid := (lo + hi) / 2;
      if s[mid] >= key {
        hi := mid;
      } else {
        lo := mid + 1;
      }
    }
    i := lo;
    if i >= |s| {
      i := 0;
    }
  }

  // ----- loads -----

  ghost function Total(loads: map<Host, int>): int {
    if loads == map[] then 0 else
      var h :| h in loads;
      loads[h] + Total(loads - {h})
  }

  lemma {:induction false} TotalWithout(loads: map<Host, int>, h: Host)
    requires h in loads
    ensures Total(loads) == loads[h] + Total(loads - {h})
    decreases |loads|
  {
    var x :| x in loads && Total(loads) == loads[x] + Total(loads - {x});
    if x != h {
      TotalWithout(loads - {x}, h);
      TotalWithout(loads - {h}, x);
      assert loads - {x} - {h} == loads - {h} - {x};
    }
  }

  lemma TotalSet(loads: map<Host, int>, h: Host, n: int)
    ensures Total(loads[h := n]) == Total(loads) - (if h in loads then loads[h] else 0) + n
  {
    TotalWithout(loads[h := n], h);
    assert loads[h := n] - {h} == loads - {h};
    if h in loads {
      TotalWithout(loads, h);
    } else {
      assert loads - {h} == loads;
    }
  }

  lemma {:induction false} TotalAtLeast(loads: map<Host, int>, n: int)
    requires forall h :: h in loads ==> loads[h] >= n
    ensures Total(loads) >= |loads| * n
    decreases |loads|
  {
    if loads != map[] {
      var h :| h in loads && Total(loads) == loads[h] + Total(loads - {h});
      TotalAtLeast(loads - {h}, n);
      assert |loads - {h}| == |loads| - 1;
      assert |loads| * n == (|loads| - 1) * n + n;
    }
  }

  /** The most a host may carry: a quarter more than the average, rounded up. */
  function Limit(total: int, hosts: nat): int
    requires hosts > 0 && total >= 0
  {
    var q := (total + 1) / hosts;
    var average := if q == 0 then 1 else q;
    (5 * average + 3) / 4
  }

  /** Some host has room for one more. */
  lemma SomeRoom(loads: map<Host, int>, total: int) returns (h: Host)
    requires loads != map[] && (total == Total(loads) || (Total(loads) < 0 && total == 0)) && total >= 0
    ensures h in loads && loads[h] + 1 <= Limit(total, |loads|)
  {
    var n, limit := |loads|, Limit(total, |loads|);
    if forall x :: x in loads ==> loads[x] >= limit {
      TotalAtLeast(loads, limit);
      LimitAbove(total, n);
      assert false;
    }
    h :| h in loads && loads[h] < limit;
  }

  lemma LimitAbove(total: int, n: nat)
    requires n > 0 && total >= 0
    ensures n * Limit(total, n) > total && Limit(total, n) > 0
  {
    var q := (total + 1) / n;
    Below(total + 1, n);
    var limit := Limit(total, n);
    Quarter(if q == 0 then 1 else q);
    Scaled(n, q + 1, limit);
  }

  lemma Quarter(average: int)
    requires average >= 1
    ensures (5 * average + 3) / 4 >= average + 1
  {
  }

  lemma Scaled(n: int, a: int, b: int)
    requires n > 0 && a <= b
    ensures a * n <= n * b
  {
    assert n * b == n * (b - a) + a * n && n * (b - a) >= 0;
  }

  lemma Below(x: int, n: int)
    requires x >= 0 && n > 0
    ensures x < (x / n + 1) * n && x / n >= 0
  {
    var q := x / n;
    assert x == q * n + x % n;
    assert (q + 1) * n == q * n + n;
    assert q <= -1 ==> (q + 1) * n <= 0;
  }
}
