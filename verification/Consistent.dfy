/** Consistent hashing with bounded loads. */
module Consistent {
  import opened ConsistentRing

  type PointOf = (Host, nat) -> nat

  /** The points of a host's first `n` replicas. */
  ghost function Points(point: PointOf, host: Host, n: nat): set<nat> {
    set i | 0 <= i < n :: point(host, i)
  }

  /** No two replicas of the known hosts share a point. */
  ghost predicate Injective(point: PointOf, n: nat, known: set<Host>) {
    forall h, i, h', i' :: h in known && h' in known && 0 <= i < n && 0 <= i' < n && point(h, i) == point(h', i') ==>
      h == h' && i == i'
  }

  /** The circle holds the points of the hosts, each owned by its host. */
  ghost predicate Owned(circle: map<nat, Host>, hosts: set<Host>, point: PointOf, n: nat) {
    && (forall p :: p in circle ==> circle[p] in hosts && p in Points(point, circle[p], n))
    && (forall h, p :: h in hosts && p in Points(point, h, n) ==> p in circle && circle[p] == h)
  }

  lemma Apart(point: PointOf, n: nat, known: set<Host>, h: Host, h': Host, p: nat)
    requires Injective(point, n, known) && h in known && h' in known && p in Points(point, h, n) &&
             p in Points(point, h', n)
    ensures h == h'
  {
  }

  lemma OwnedAdd(circle: map<nat, Host>, circle': map<nat, Host>, hosts: set<Host>, point: PointOf, n: nat,
                 known: set<Host>, host: Host)
    requires Owned(circle, hosts, point, n) && Injective(point, n, known) && host !in hosts && hosts <= known &&
             host in known
    requires circle'.Keys == circle.Keys + Points(point, host, n)
    requires forall p :: p in circle' ==> circle'[p] == if p in Points(point, host, n) then host else circle[p]
    ensures Owned(circle', hosts + {host}, point, n) && circle.Keys !! Points(point, host, n)
  {
    forall p | p in circle && p in Points(point, host, n) ensures false {
      Apart(point, n, known, circle[p], host, p);
    }
    forall h, p | h in hosts + {host} && p in Points(point, h, n) ensures p in circle' && circle'[p] == h {
      if p in Points(point, host, n) {
        Apart(point, n, known, h, host, p);
      }
    }
  }

  lemma OwnedRemove(circle: map<nat, Host>, hosts: set<Host>, point: PointOf, n: nat, known: set<Host>, host: Host)
    requires Owned(circle, hosts, point, n) && Injective(point, n, known) && hosts <= known && host in known
    ensures Owned(circle - Points(point, host, n), hosts - {host}, point, n)
    ensures forall p :: p in circle ==> (p in Points(point, host, n) <==> circle[p] == host)
  {
    forall p | p in circle ensures p in Points(point, host, n) <==> circle[p] == host {
      if p in Points(point, host, n) {
        Apart(point, n, known, circle[p], host, p);
      }
    }
    forall h, p | h in hosts - {host} && p in Points(point, h, n)
      ensures p in circle - Points(point, host, n) && circle[p] == h
    {
      if p in Points(point, host, n) {
        Apart(point, n, known, h, host, p);
      }
    }
  }

  lemma OneLess(circle: map<nat, Host>, point: PointOf, host: Host, i: nat)
    ensures circle - Points(point, host, i) - {point(host, i)} == circle - Points(point, host, i + 1)
    ensures (circle - Points(point, host, i + 1)).Keys == (circle - Points(point, host, i)).Keys - {point(host, i)}
  {
    assert Points(point, host, i + 1) == Points(point, host, i) + {point(host, i)};
  }

  /** The host of a key: the owner of the point next to it. */
  ghost function Home(circle: map<nat, Host>, key: nat): Host
    requires circle != map[]
  {
    NextExists(circle.Keys, key);
    var p: nat :| IsNext(circle.Keys, key, p);
    circle[p]
  }

  lemma HomeIs(circle: map<nat, Host>, key: nat, p: nat)
    requires IsNext(circle.Keys, key, p)
    ensures circle != map[] && Home(circle, key) == circle[p]
  {
    var q: nat :| IsNext(circle.Keys, key, q) && Home(circle, key) == circle[q];
    NextUnique(circle.Keys, key, p, q);
  }

  /** A key has the same host on both circles, unless it has moved to `host`. */
  ghost predicate OnlyTo(before: map<nat, Host>, after: map<nat, Host>, host: Host) {
    before != map[] ==>
      after != map[] && forall key: nat :: Home(after, key) == Home(before, key) || Home(after, key) == host
  }

  /** A key has the same host on both circles, unless that was `host`. */
  ghost predicate OnlyFrom(before: map<nat, Host>, after: map<nat, Host>, host: Host) {
    before != map[] ==>
      forall key: nat :: Home(before, key) != host ==> after != map[] && Home(after, key) == Home(before, key)
  }

  lemma OnlyToAdded(circle: map<nat, Host>, circle': map<nat, Host>, points: set<nat>, host: Host)
    requires circle'.Keys == circle.Keys + points
    requires forall x :: x in circle' ==> circle'[x] == if x in points then host else circle[x]
    ensures OnlyTo(circle, circle', host)
  {
    if circle != map[] {
      var x :| x in circle;
      assert x in circle';
      forall key: nat ensures Home(circle', key) == Home(circle, key) || Home(circle', key) == host {
        NextExists(circle.Keys, key);
        NextExists(circle'.Keys, key);
        var p: nat :| IsNext(circle.Keys, key, p);
        var q: nat :| IsNext(circle'.Keys, key, q);
        HomeIs(circle, key, p);
        HomeIs(circle', key, q);
        AddMovesOnlyThere(circle, circle', points, host, key, p, q);
      }
    }
  }

  lemma OnlyFromRemoved(circle: map<nat, Host>, points: set<nat>, host: Host)
    requires forall x :: x in circle ==> (x in points <==> circle[x] == host)
    ensures OnlyFrom(circle, circle - points, host)
  {
    if circle != map[] {
      var left := circle - points;
      forall key: nat | Home(circle, key) != host ensures left != map[] && Home(left, key) == Home(circle, key) {
        NextExists(circle.Keys, key);
        var p: nat :| IsNext(circle.Keys, key, p);
        HomeIs(circle, key, p);
        assert p in left;
        NextExists(left.Keys, key);
        var q: nat :| IsNext(left.Keys, key, q);
        RemoveMovesOnlyThose(circle, points, host, key, p, q);
        HomeIs(left, key, q);
      }
    }
  }

  /** Adding a host moves keys to that host only. */
  lemma AddMovesOnlyThere(circle: map<nat, Host>, circle': map<nat, Host>, points: set<nat>, host: Host, key: nat,
                          p: nat, q: nat)
    requires circle'.Keys == circle.Keys + points
    requires forall x :: x in circle' ==> circle'[x] == if x in points then host else circle[x]
    requires IsNext(circle.Keys, key, p) && IsNext(circle'.Keys, key, q)
    ensures circle'[q] == circle[p] || circle'[q] == host
  {
    NextStays(circle.Keys, points, key, p, q);
  }

  /** Removing a host moves that host's keys only. */
  lemma RemoveMovesOnlyThose(circle: map<nat, Host>, points: set<nat>, host: Host, key: nat, p: nat, q: nat)
    requires forall x :: x in circle ==> (x in points <==> circle[x] == host)
    requires IsNext(circle.Keys, key, p) && IsNext((circle - points).Keys, key, q)
    ensures circle[p] != host ==> q == p
  {
    assert circle.Keys == (circle - points).Keys + circle.Keys * points;
    NextStays((circle - points).Keys, circle.Keys * points, key, q, p);
  }

  /** The point next to the key is the least of all. */
  ghost predicate NextIsLeast(points: set<nat>, key: nat) {
    exists p: nat :: IsNext(points, key, p) && forall x :: x in points ==> p <= x
  }

  /** One circle has more points than the other, all of the same host. */
  ghost predicate Gained(before: map<nat, Host>, after: map<nat, Host>, points: set<nat>, host: Host) {
    && after.Keys == before.Keys + points
    && forall p :: p in after ==> after[p] == if p in points then host else if p in before then before[p] else ""
  }

  lemma GainedOne(before: map<nat, Host>, after: map<nat, Host>, points: set<nat>, host: Host, p: nat)
    requires Gained(before, after, points, host)
    ensures Gained(before, after[p := host], points + {p}, host)
  {
  }

  class ConsistentHash {
    const point: PointOf
    const replicas: nat
    /** The hosts that may ever be named. */
    ghost const known: set<Host>
    var circle: map<nat, Host>
    var sorted: seq<nat>
    var loads: map<Host, int>
    var totalLoad: int

    ghost predicate Valid()
      reads this
    {
      Placed() && totalLoad == Total(loads)
    }

    ghost predicate Placed()
      reads `circle, `sorted, `loads
    {
      && replicas > 0 && Injective(point, replicas, known) && loads.Keys <= known &&
         Owned(circle, loads.Keys, point, replicas)
      && Rising(sorted) && Elements(sorted) == circle.Keys
    }

    constructor (point: PointOf, replicas: nat, ghost known: set<Host>)
      requires replicas > 0 && Injective(point, replicas, known)
      ensures Valid() && loads == map[] && this.point == point && this.replicas == replicas && this.known == known
    {
      this.point, this.replicas, this.known := point, replicas, known;
      circle, sorted, loads, totalLoad := map[], [], map[], 0;
    }

    method Add(host: Host)
      requires Valid() && host in known
      modifies this
      ensures Valid() && (host in old(loads) ==> loads == old(loads) && circle == old(circle))
      ensures host !in old(loads) ==> loads == old(loads)[host := 0] && Joined(old(circle), host)
      ensures host !in old(loads) ==> circle - Points(point, host, replicas) == old(circle)
      ensures OnlyTo(old(circle), circle, host)
    {
      if host in loads {
        return;
      }
      TotalSet(loads, host, 0);
      loads := loads[host := 0];
      PutPoints(host);
      sorted := SortPoints(circle.Keys);
      OwnedAdd(old(circle), circle, old(loads).Keys, point, replicas, known, host);
      assert circle - Points(point, host, replicas) == old(circle);
      OnlyToAdded(old(circle), circle, Points(point, host, replicas), host);
      assert loads.Keys == old(loads).Keys + {host};
    }

    /** The circle has gained the points of `host`. */
    ghost predicate Joined(before: map<nat, Host>, host: Host)
      reads this
    {
      Gained(before, circle, Points(point, host, replicas), host)
    }

    method PutPoints(host: Host)
      modifies `circle, `sorted
      ensures Joined(old(circle), host)
    {
      for i := 0 to replicas
        invariant Gained(old(circle), circle, Points(point, host, i), host)
      {
        var h := point(host, i);
        assert Points(point, host, i + 1) == Points(point, host, i) + {h};
        GainedOne(old(circle), circle, Points(point, host, i), host, h);
        circle := circle[h := host];
        sorted := sorted + [h];
      }
    }

    /** Takes a point out of the sorted list. */
    method DelSlice(val: nat)
      requires Rising(sorted)
      modifies `sorted
      ensures Rising(sorted) && Elements(sorted) == Elements(old(sorted)) - {val}
    {
      var i := 0;
      ghost var s := sorted;
      while i < |sorted|
        invariant i <= |sorted| + 1
        invariant (sorted == s && forall j :: 0 <= j < i && j < |s| ==> s[j] != val) || IsWithout(sorted, s, val)
        decreases |sorted| - i
      {
        if sorted[i] == val {
          Without(sorted, i);
          sorted := sorted[..i] + sorted[i + 1..];
        }
        i := i + 1;
      }
    }

    method Remove(host: Host) returns (ok: bool)
      requires Valid() && host in known
      modifies this
      ensures Valid() && ok && loads == old(loads) - {host} && circle == old(circle) - Points(point, host, replicas)
      ensures OnlyFrom(old(circle), circle, host)
    {
      TakePoints(host);
      OwnedRemove(old(circle), loads.Keys, point, replicas, known, host);
      OnlyFromRemoved(old(circle), Points(point, host, replicas), host);
      if host in loads {
        TotalWithout(loads, host);
        totalLoad := totalLoad - loads[host];
        loads := loads - {host};
      }
      assert loads == old(loads) - {host};
      assert loads.Keys == old(loads).Keys - {host};
      ok := true;
    }

    method TakePoints(host: Host)
      requires Rising(sorted) && Elements(sorted) == circle.Keys
      modifies `circle, `sorted
      ensures circle == old(circle) - Points(point, host, replicas)
      ensures Rising(sorted) && Elements(sorted) == circle.Keys
    {
      for i := 0 to replicas
        invariant circle == old(circle) - Points(point, host, i)
        invariant Rising(sorted) && Elements(sorted) == circle.Keys
      {
        var h := point(host, i);
        OneLess(old(circle), point, host, i);
        circle := circle - {h};
        DelSlice(h);
      }
    }

    // ----- loads -----

    method UpdateLoad(host: Host, load: int)
      requires Valid()
      modifies `loads, `totalLoad
      ensures Valid() && loads == if host in old(loads) then old(loads)[host := load] else old(loads)
    {
      if host !in loads {
        return;
      }
      SetLoad(host, load);
    }

    /** One request more. */
    method Inc(host: Host)
      requires Valid() && host in loads
      modifies `loads, `totalLoad
      ensures Valid() && loads == old(loads)[host := old(loads)[host] + 1]
    {
      SetLoad(host, loads[host] + 1);
    }

    /** One request less. */
    method Done(host: Host)
      requires Valid()
      modifies `loads, `totalLoad
      ensures Valid() && loads == if host in old(loads) then old(loads)[host := old(loads)[host] - 1] else old(loads)
    {
      if host !in loads {
        return;
      }
      SetLoad(host, loads[host] - 1);
    }

    method SetLoad(host: Host, load: int)
      requires Valid() && host in loads
      modifies `loads, `totalLoad
      ensures Valid() && loads == old(loads)[host := load]
    {
      TotalSet(loads, host, load);
      totalLoad := totalLoad - loads[host];
      totalLoad := totalLoad + load;
      loads := loads[host := load];
      assert loads.Keys == old(loads).Keys;
    }

    /** The limit for one host, a total below zero counting as zero. */
    ghost predicate Limited(limit: int)
      reads `loads, `totalLoad
    {
      |loads| > 0 && limit == Limit(if totalLoad < 0 then 0 else totalLoad, |loads|)
    }

    /** Whether a host has room for one request more. A total below zero is put to zero. */
    method LoadOK(host: Host, ghost limit: int) returns (ok: bool)
      requires host in loads && Limited(limit)
      modifies `totalLoad
      ensures totalLoad == if old(totalLoad) < 0 then 0 else old(totalLoad)
      ensures (ok <==> Room(host, limit)) && Limited(limit)
    {
      if totalLoad < 0 {
        totalLoad := 0;
      }
      var average := (totalLoad + 1) / |loads|;
      if average == 0 {
        average := 1;
      }
      average := (5 * average + 3) / 4;
      ok := loads[host] + 1 <= average;
    }

    // ----- looking up -----

    /** The owner of the point next to a key. */
    method GetHash(key: nat) returns (found: bool, host: Host, ghost p: nat)
      requires Placed()
      ensures found <==> circle != map[]
      ensures found ==> IsNext(circle.Keys, key, p) && host == circle[p] == Home(circle, key) && host in loads
    {
      if |circle| == 0 {
        return false, "", 0;
      }
      var i := Search(sorted, key);
      HomeIs(circle, key, sorted[i]);
      return true, circle[sorted[i]], sorted[i];
    }

    /** The first host with room, going round from the key; there is one within one lap. */
    method GetLeast(key: nat) returns (found: bool, host: Host, ghost limit: int, ghost start: nat, ghost d: nat)
      requires Valid()
      modifies `totalLoad
      ensures found <==> circle != map[]
      ensures totalLoad == if found && old(totalLoad) < 0 then 0 else old(totalLoad)
      ensures found ==> Limited(limit) && Placed() && start < |sorted| && IsNext(circle.Keys, key, sorted[start])
      ensures found ==> d < |sorted| && host == Order(circle, sorted, start)[d] && Room(host, limit)
      ensures found ==> forall e :: 0 <= e < d ==> !Room(Order(circle, sorted, start)[e], limit)
    {
      if |circle| == 0 {
        return false, "", 0, 0, 0;
      }
      var i := Search(sorted, key);
      ghost var total := if totalLoad < 0 then 0 else totalLoad;
      ghost var far := RoomWithin(i, total);
      found, start, limit := true, i, Limit(total, |loads|);
      RisingSize(sorted);
      host, d := Scan(i, Order(circle, sorted, i), limit, far);
    }

    /** Goes round from index `start` until a host has room. */
    method Scan(start: nat, ghost order: seq<Host>, ghost limit: int, ghost far: nat) returns (host: Host, ghost d: nat)
      requires start < |sorted| == |order| == |circle| && Elements(sorted) == circle.Keys
      requires forall e :: 0 <= e < |order| ==>
               order[e] == circle[sorted[Around(start, e, |sorted|)]] && order[e] in loads
      requires far < |order| && Limited(limit) && Room(order[far], limit)
      modifies `totalLoad
      ensures totalLoad == if old(totalLoad) < 0 then 0 else old(totalLoad)
      ensures Limited(limit) && d < |order| && host == order[d] && Room(host, limit)
      ensures forall e :: 0 <= e < d ==> !Room(order[e], limit)
    {
      var i := start;
      d := 0;
      while true
        invariant Limited(limit) && (totalLoad == old(totalLoad) || (old(totalLoad) < 0 && totalLoad == 0))
        invariant d <= far && i == Around(start, d, |order|)
        invariant forall e :: 0 <= e < d ==> !Room(order[e], limit)
        decreases far - d
      {
        host := circle[sorted[i]];
        var ok := LoadOK(host, limit);
        if ok {
          return;
        }
        i := i + 1;
        if i >= |circle| {
          i := 0;
        }
        d := d + 1;
      }
    }

    /** The `n` closest hosts, or all of them: the first different ones met going round from the key. When none
        are asked for, that is all of them too, or, if the first point is next to the key, a loop without end. */
    method GetN(key: nat, n: nat) returns (found: bool, res: seq<Host>, ghost start: nat)
      requires Placed() && (n == 0 ==> !NextIsLeast(circle.Keys, key))
      ensures found <==> circle != map[]
      ensures found ==> start < |sorted| && IsNext(circle.Keys, key, sorted[start])
      ensures found ==>
              res <= Firsts(Order(circle, sorted, start)) && |res| == if |loads| < n || n == 0 then |loads| else n
    {
      if |circle| == 0 {
        return false, [], 0;
      }
      var m := if |loads| < n then |loads| else n;
      var i := Search(sorted, key);
      found, start := true, i;
      RisingSize(sorted);
      assert circle[sorted[i]] in loads;
      AllMet(i);
      if n == 0 {
        NotFirst(i, key);
      }
      res := Gather(i, Order(circle, sorted, i), m);
    }

    method Gather(start: nat, ghost order: seq<Host>, m: nat) returns (res: seq<Host>)
      requires start < |sorted| == |order| && Elements(sorted) == circle.Keys && m <= |Firsts(order)| &&
               (m == 0 ==> start > 0)
      requires forall e :: 0 <= e < |order| ==> order[e] == circle[sorted[Around(start, e, |sorted|)]]
      ensures res <= Firsts(order) && |res| == if m == 0 then |Firsts(order)| else m
    {
      res := [circle[sorted[start]]];
      ghost var d := 1;
      FirstsOne(order);
      FirstsAll(order, d);
      if |res| == m {
        return;
      }
      var i := start + 1;
      while i != start
        invariant 1 <= d <= |order| && (m > 0 ==> d < |order|) &&
                  i == (if start + d <= |order| then start + d else start + d - |order|)
        invariant res == Firsts(order[..d]) && res <= Firsts(order) && (m > 0 ==> |res| < m)
        decreases |order| - d
      {
        if i >= |sorted| {
          i := 0;
        }
        var elem := circle[sorted[i]];
        assert i == Around(start, d, |sorted|);
        assert elem == order[d];
        FirstsStep(order, d, res, elem);
        res := WithMember(res, elem);
        d := d + 1;
        if |res| == m {
          break;
        }
        i := i + 1;
      }
      FirstsAll(order, d);
    }

    /** The search starts at index zero just when the next point is the least. */
    lemma NotFirst(i: nat, key: nat)
      requires Placed() && i < |sorted| && IsNext(circle.Keys, key, sorted[i])
      ensures i > 0 <==> !NextIsLeast(circle.Keys, key)
    {
      assert sorted[0] in Elements(sorted);
      forall x | x in circle ensures sorted[0] <= x { assert x in Elements(sorted); }
      if NextIsLeast(circle.Keys, key) {
        var p: nat :| IsNext(circle.Keys, key, p) && forall x :: x in circle.Keys ==> p <= x;
        NextUnique(circle.Keys, key, p, sorted[i]);
      }
    }

    lemma FirstPoint(h: Host, start: nat) returns (d: nat)
      requires Placed() && start < |sorted| && h in loads
      ensures d < |sorted| && Order(circle, sorted, start)[d] == h
    {
      var p := point(h, 0);
      assert p in Points(point, h, replicas);
      assert p in Elements(sorted);
      var j :| 0 <= j < |sorted| && sorted[j] == p;
      d := if j >= start then j - start else j + |sorted| - start;
    }

    /** Every host is met within one lap. */
    lemma AllMet(start: nat)
      requires Placed() && start < |sorted|
      ensures |Firsts(Order(circle, sorted, start))| == |loads|
    {
      var order := Order(circle, sorted, start);
      forall h | h in loads ensures h in order {
        var d := FirstPoint(h, start);
        assert order[d] == h;
      }
      forall h | h in order ensures h in loads {
        var d :| 0 <= d < |order| && order[d] == h;
        assert sorted[Around(start, d, |sorted|)] in Elements(sorted);
      }
      FirstsCount(order, loads.Keys);
    }

    ghost predicate Room(host: Host, limit: int)
      reads `loads
    {
      host in loads && loads[host] + 1 <= limit
    }

    /** A host with room owns a point met within one lap. */
    lemma RoomWithin(start: nat, total: nat) returns (d: nat)
      requires Valid() && start < |sorted| && (total == totalLoad || (totalLoad < 0 && total == 0))
      ensures |loads| > 0 && d < |sorted| && Room(Order(circle, sorted, start)[d], Limit(total, |loads|))
    {
      assert circle[sorted[start]] in loads;
      var h := SomeRoom(loads, total);
      d := FirstPoint(h, start);
    }
  }

  ghost predicate IsWithout(t: seq<nat>, s: seq<nat>, val: nat) {
    Rising(t) && Elements(t) == Elements(s) - {val}
  }

  lemma Without(s: seq<nat>, i: nat)
    requires Rising(s) && i < |s|
    ensures IsWithout(s[..i] + s[i + 1..], s, s[i])
  {
    var t := s[..i] + s[i + 1..];
    forall k | 0 <= k < |t| ensures t[k] == s[if k < i then k else k + 1] {}
    forall x | x in s && x != s[i] ensures x in t {
      var k :| 0 <= k < |s| && s[k] == x;
      assert t[if k < i then k else k - 1] == x;
    }
  }

  /** The owners of the points, going round from index `start`. */
  ghost function Order(circle: map<nat, Host>, sorted: seq<nat>, start: nat): (order: seq<Host>)
    requires start < |sorted| && Elements(sorted) == circle.Keys
    ensures |order| == |sorted|
    ensures forall d :: 0 <= d < |order| ==> order[d] == circle[sorted[Around(start, d, |sorted|)]]
  {
    seq(|sorted|, d requires 0 <= d < |sorted| =>
      var p := sorted[Around(start, d, |sorted|)];
      assert p in Elements(sorted);
      circle[p])
  }

  ghost function Around(start: nat, d: nat, n: nat): (i: nat)
    requires start < n && d < n
    ensures i < n
  {
    if start + d < n then start + d else start + d - n
  }

  // ----- the different hosts in a sequence, by first appearance -----

  ghost function Firsts(s: seq<Host>): seq<Host> {
    if s == [] then [] else
      WithMember(Firsts(s[..|s| - 1]), s[|s| - 1])
  }

  function WithMember(f: seq<Host>, x: Host): seq<Host> { if x in f then f else f + [x] }

  ghost predicate Different(s: seq<Host>) {
    forall i, j :: 0 <= i < j < |s| ==> s[i] != s[j]
  }

  lemma {:induction false} FirstsAre(s: seq<Host>)
    ensures Different(Firsts(s)) && forall x :: x in Firsts(s) <==> x in s
  {
    if s != [] {
      FirstsAre(s[..|s| - 1]);
      assert s == s[..|s| - 1] + [s[|s| - 1]];
    }
  }

  lemma FirstsOne(s: seq<Host>)
    requires s != []
    ensures Firsts(s[..1]) == [s[0]]
  {
    assert s[..1][..0] == [];
  }

  lemma FirstsNext(s: seq<Host>, d: nat)
    requires d < |s|
    ensures Firsts(s[..d + 1]) == WithMember(Firsts(s[..d]), s[d])
  {
    assert s[..d + 1][..d] == s[..d];
  }

  lemma {:induction false} FirstsAll(s: seq<Host>, d: nat)
    requires d <= |s|
    ensures Firsts(s[..d]) <= Firsts(s) && (d == |s| ==> Firsts(s[..d]) == Firsts(s))
    decreases |s| - d
  {
    if d == |s| {
      assert s[..d] == s;
    } else {
      FirstsNext(s, d);
      FirstsAll(s, d + 1);
    }
  }

  lemma FirstsStep(s: seq<Host>, d: nat, f: seq<Host>, x: Host)
    requires d < |s| && f == Firsts(s[..d]) && x == s[d]
    ensures var f' := WithMember(f, x);
            f' == Firsts(s[..d + 1]) && f' <= Firsts(s) && (d + 1 == |s| ==> f' == Firsts(s))
  {
    FirstsNext(s, d);
    FirstsAll(s, d + 1);
  }

  lemma FirstsCount(s: seq<Host>, hosts: set<Host>)
    requires forall h :: h in s <==> h in hosts
    ensures |Firsts(s)| == |hosts|
  {
    FirstsAre(s);
    DifferentSize(Firsts(s), hosts);
  }

  lemma {:induction false} DifferentSize(s: seq<Host>, hosts: set<Host>)
    requires Different(s) && forall h :: h in s <==> h in hosts
    ensures |s| == |hosts|
  {
    if s != [] {
      var front, x := s[..|s| - 1], s[|s| - 1];
      assert s == front + [x];
      DifferentSize(front, hosts - {x});
    }
  }

  // ----- the lap of the loop that gathers -----

  /** The loop's index after `k` turns that did not stop it, from `start` on, over `n` points. */
  ghost function Hop(start: nat, n: nat, k: nat): nat {
    if k == 0 then start + 1 else
      var i := Hop(start, n, k - 1);
      (if i >= n then 0 else i) + 1
  }

  lemma {:induction false} HopIs(start: nat, n: nat, k: nat)
    requires start < n && k < n
    ensures Hop(start, n, k) == if start + 1 + k <= n then start + 1 + k else start + 1 + k - n
  {
    if k > 0 {
      HopIs(start, n, k - 1);
    }
  }

  /** A loop that nothing stops, as when no hosts are asked for, comes back to where it started and ends,
      unless it started at the first point: then it goes round for ever. */
  lemma LapEnds(start: nat, n: nat)
    requires start < n
    ensures (exists k :: Hop(start, n, k) == start) <==> start > 0
  {
    if start > 0 {
      HopIs(start, n, n - 1);
      assert Hop(start, n, n - 1) == start;
    } else {
      forall k: nat ensures Hop(0, n, k) != 0 {}
    }
  }
}
