/** The shared texture LRU: regions in an array, linked both ways into a ring through a sentinel in
    the last element, stamped with an age. One operation, "touch", makes a region the most recent.
    Index bytes limit the regions to 255. */
module TextureLru {
  type Index = x: nat | x < 256

  datatype Region = Region(next: Index, prev: Index, inUse: bool, age: int)

  ghost predicate Linked(list: seq<Region>) {
    |list| <= 256 && forall x :: 0 <= x < |list| ==> list[x].next < |list| && list[x].prev < |list|
  }

  // ----- the two link operations

  function Unlink(list: seq<Region>, x: nat): (r: seq<Region>)
    requires Linked(list) && x < |list|
    ensures Linked(r) && |r| == |list|
  {
    var p, q := list[x].prev, list[x].next;
    var a := list[p := list[p].(next := q)];
    a[q := a[q].(prev := p)]
  }

  /** Put x right behind `head`. */
  function Insert(list: seq<Region>, head: Index, x: Index): (r: seq<Region>)
    requires Linked(list) && x < |list| && head < |list|
    ensures Linked(r) && |r| == |list|
  {
    var first := list[head].next;
    var a := list[x := list[x].(prev := head, next := first)];
    var b := a[first := a[first].(prev := x)];
    b[head := b[head].(next := x)]
  }

  /** Touch: take x out, stamp it, put it behind the sentinel. */
  function Touched(list: seq<Region>, x: Index, age: int): (r: seq<Region>)
    requires Linked(list) && x < |list| - 1
    ensures Linked(r) && |r| == |list|
  {
    var a := Unlink(list, x);
    Insert(a[x := a[x].(inUse := true, age := age)], |list| - 1, x)
  }

  // ----- rings

  function Succ(k: nat, n: nat): nat {
    if k + 1 == n then 0 else k + 1
  }

  ghost predicate Distinct(c: seq<nat>, bound: nat) {
    && (forall k :: 0 <= k < |c| ==> c[k] < bound)
    && (forall j, k :: 0 <= j < k < |c| ==> c[j] != c[k])
  }

  /** The element at position k of c and the one behind it point at each other. */
  ghost predicate LinkAt(list: seq<Region>, c: seq<nat>, k: nat)
    requires k < |c| && Distinct(c, |list|)
  {
    list[c[k]].next == c[Succ(k, |c|)] && list[c[Succ(k, |c|)]].prev == c[k]
  }

  /** The elements of c, in this order, form a ring of next links with prev links the other way. */
  ghost predicate RingOn(list: seq<Region>, c: seq<nat>) {
    && c != [] && Distinct(c, |list|)
    && forall k: nat :: k < |c| ==> LinkAt(list, c, k)
  }

  ghost predicate SameLinks(a: seq<Region>, b: seq<Region>) {
    |a| == |b| && forall x :: 0 <= x < |a| ==> a[x].next == b[x].next && a[x].prev == b[x].prev
  }

  lemma RingSameLinks(a: seq<Region>, b: seq<Region>, c: seq<nat>)
    requires RingOn(a, c) && SameLinks(a, b)
    ensures RingOn(b, c)
  {
    forall k: nat | k < |c| ensures LinkAt(b, c, k) { assert LinkAt(a, c, k); }
  }

  function Without(c: seq<nat>, p: nat): seq<nat>
    requires p < |c|
  {
    c[..p] + c[p + 1..]
  }

  /** Behind position p the ring without p is one ahead. */
  lemma WithoutAt(c: seq<nat>, p: nat, k: nat)
    requires 1 <= p < |c| && k < |c| - 1
    ensures var d, j := Without(c, p), if k < p then k else k + 1;
            && |d| == |c| - 1 && d[k] == c[j]
            && d[Succ(k, |d|)] == c[Succ(if j == p - 1 then p else j, |c|)]
  {
  }

  lemma UnlinkLink(list: seq<Region>, c: seq<nat>, p: nat, k: nat)
    requires Linked(list) && RingOn(list, c) && 1 <= p < |c| && k < |c| - 1 && Distinct(Without(c, p), |list|)
    ensures LinkAt(Unlink(list, c[p]), Without(c, p), k)
  {
    WithoutAt(c, p, k);
    assert LinkAt(list, c, p - 1) && LinkAt(list, c, p);
    assert LinkAt(list, c, if k < p then k else k + 1);
  }

  lemma UnlinkRing(list: seq<Region>, c: seq<nat>, p: nat)
    requires Linked(list) && RingOn(list, c) && 1 <= p < |c|
    ensures RingOn(Unlink(list, c[p]), Without(c, p))
  {
    forall k: nat | k < |c| - 1 ensures LinkAt(Unlink(list, c[p]), Without(c, p), k) { UnlinkLink(list, c, p, k); }
  }

  lemma InsertRing(list: seq<Region>, c: seq<nat>, x: Index)
    requires Linked(list) && RingOn(list, c) && x < |list| && x !in c && c[0] < 256
    ensures RingOn(Insert(list, c[0], x), [c[0], x] + c[1..])
  {
    var d, r := [c[0], x] + c[1..], Insert(list, c[0], x);
    assert LinkAt(list, c, 0);
    forall k: nat | k < |d| ensures LinkAt(r, d, k) {
      if k >= 2 {
        assert LinkAt(list, c, k - 1);
        assert d[k] == c[k - 1] && d[Succ(k, |d|)] == c[Succ(k - 1, |c|)];
      }
    }
  }

  // ----- the LRU

  ghost predicate Complete(c: seq<nat>, n: nat) {
    forall x :: 0 <= x < n ==> x in c
  }

  /** Ages never increase from position 1 on, and none is above texAge. */
  ghost predicate AgesFall(list: seq<Region>, c: seq<nat>, texAge: int)
    requires Distinct(c, |list|)
  {
    && (forall j, k :: 1 <= j < k < |c| ==> list[c[j]].age >= list[c[k]].age)
    && (forall k :: 1 <= k < |c| ==> list[c[k]].age <= texAge)
  }

  /** c lists the sentinel and then every region from the most to the least recent. */
  ghost predicate Lru(list: seq<Region>, c: seq<nat>, texAge: int) {
    && Linked(list) && RingOn(list, c)
    && |c| == |list| && c[0] == |list| - 1
    && Complete(c, |list|) && AgesFall(list, c, texAge)
  }

  function ToFront(c: seq<nat>, p: nat): seq<nat>
    requires 1 <= p < |c|
  {
    [c[0], c[p]] + Without(c, p)[1..]
  }

  lemma TouchedAges(list: seq<Region>, x: Index, age: int, y: nat)
    requires Linked(list) && x < |list| - 1 && y < |list|
    ensures Touched(list, x, age)[y].age == if y == x then age else list[y].age
    ensures Touched(list, x, age)[y].inUse == (y == x || list[y].inUse)
  {
  }

  /** Only region x has another age. */
  ghost predicate Restamped(before: seq<Region>, after: seq<Region>, x: nat, age: int) {
    |after| == |before| && forall y: nat :: y < |before| ==> after[y].age == if y == x then age else before[y].age
  }

  lemma AllAges(list: seq<Region>, x: Index, age: int)
    requires Linked(list) && x < |list| - 1
    ensures Restamped(list, Touched(list, x, age), x, age)
  {
    forall y: nat | y < |list| { TouchedAges(list, x, age, y); }
  }

  lemma TouchRing(list: seq<Region>, c: seq<nat>, age: int, p: nat)
    requires Linked(list) && RingOn(list, c) && c[0] == |list| - 1 && 1 <= p < |c|
    ensures c[p] < |list| - 1 && RingOn(Touched(list, c[p], age), ToFront(c, p))
  {
    var x := c[p];
    assert c[0] != c[p];
    var a := Unlink(list, x);
    UnlinkRing(list, c, p);
    var b := a[x := a[x].(inUse := true, age := age)];
    RingSameLinks(a, b, Without(c, p));
    InsertRing(b, Without(c, p), x);
  }

  lemma FrontPosition(c: seq<nat>, p: nat, k: nat)
    requires 1 <= p < |c| && k < |c|
    ensures |ToFront(c, p)| == |c|
    ensures ToFront(c, p)[k] == c[if k == 0 then 0 else if k == 1 then p else if k <= p then k - 1 else k]
  {
  }

  lemma FrontComplete(c: seq<nat>, p: nat, n: nat)
    requires 1 <= p < |c| && Complete(c, n)
    ensures Complete(ToFront(c, p), n)
  {
    var d := ToFront(c, p);
    forall y | 0 <= y < n ensures y in d {
      assert y in c;
      var k: nat :| k < |c| && c[k] == y;
      var at := if k == 0 then 0 else if k == p then 1 else if k < p then k + 1 else k;
      FrontPosition(c, p, at);
      assert d[at] == y;
    }
  }

  lemma FrontAges(list: seq<Region>, r: seq<Region>, c: seq<nat>, texAge: int, p: nat)
    requires 1 <= p < |c| && Distinct(c, |list|) && Distinct(ToFront(c, p), |list|) && AgesFall(list, c, texAge)
    requires Restamped(list, r, c[p], texAge + 1)
    ensures AgesFall(r, ToFront(c, p), texAge + 1)
  {
    var d := ToFront(c, p);
    forall k: nat | k < |c| { FrontPosition(c, p, k); }
    assert forall k :: 2 <= k < |d| ==> r[d[k]].age == list[d[k]].age;
  }

  /** Touching keeps the LRU and moves exactly the touched region to its front. */
  lemma TouchKeepsLru(list: seq<Region>, c: seq<nat>, texAge: int, p: nat)
    requires Lru(list, c, texAge) && 1 <= p < |c|
    ensures c[p] < |list| - 1 && Lru(Touched(list, c[p], texAge + 1), ToFront(c, p), texAge + 1)
  {
    TouchRing(list, c, texAge + 1, p);
    FrontComplete(c, p, |list|);
    var r := Touched(list, c[p], texAge + 1);
    AllAges(list, c[p], texAge + 1);
    FrontAges(list, r, c, texAge, p);
    FrontPosition(c, p, 0);
  }

  // ----- following the links

  function Walk(list: seq<Region>, from: nat, steps: nat): (r: nat)
    requires Linked(list) && from < |list|
    ensures r < |list|
  {
    if steps == 0 then from else list[Walk(list, from, steps - 1)].next
  }

  lemma {:induction false} WalkFollows(list: seq<Region>, c: seq<nat>, steps: nat)
    requires Linked(list) && RingOn(list, c)
    ensures Walk(list, c[0], steps) == c[Around(steps, |c|)]
  {
    if steps > 0 {
      WalkFollows(list, c, steps - 1);
      NextInRing(list, c, Around(steps - 1, |c|));
    }
  }

  /** The element that k steps from the sentinel lead to. */
  function At(list: seq<Region>, k: nat): nat
    requires Linked(list) && list != []
  {
    Walk(list, |list| - 1, k)
  }

  ghost predicate Reached(list: seq<Region>, x: nat)
    requires Linked(list) && list != []
  {
    exists k: nat :: k < |list| && At(list, k) == x
  }

  lemma WalkPosition(list: seq<Region>, c: seq<nat>, texAge: int, k: nat)
    requires Lru(list, c, texAge) && k < |list|
    ensures At(list, k) == c[k]
  {
    WalkFollows(list, c, k);
    AroundBelow(k, |c|);
  }

  /** Following next from the sentinel meets every region and the sentinel once, and is back at the
      sentinel after as many steps as there are elements. */
  lemma SingleRing(list: seq<Region>, c: seq<nat>, texAge: int)
    requires Lru(list, c, texAge)
    ensures At(list, 0) == At(list, |list|) == |list| - 1
    ensures forall x: nat :: x < |list| ==> Reached(list, x)
    ensures forall j: nat, k: nat :: j < k < |list| ==> At(list, j) != At(list, k)
  {
    WalkPosition(list, c, texAge, |list| - 1);
    NextInRing(list, c, |c| - 1);
    forall x: nat | x < |list| ensures Reached(list, x) {
      assert x in c;
      var k: nat :| k < |c| && c[k] == x;
      WalkPosition(list, c, texAge, k);
    }
    forall j: nat, k: nat | j < k < |list| ensures At(list, j) != At(list, k) {
      WalkPosition(list, c, texAge, j);
      WalkPosition(list, c, texAge, k);
    }
  }

  /** Where a ring of n stands after some steps. */
  function Around(steps: nat, n: nat): (k: nat)
    requires n > 0
    ensures k < n
  {
    if steps == 0 then 0 else Succ(Around(steps - 1, n), n)
  }

  lemma {:induction false} AroundBelow(steps: nat, n: nat)
    requires steps < n
    ensures Around(steps, n) == steps
  {
    if steps > 0 { AroundBelow(steps - 1, n); }
  }

  lemma NextInRing(list: seq<Region>, c: seq<nat>, k: nat)
    requires RingOn(list, c) && k < |c|
    ensures list[c[k]].next == c[Succ(k, |c|)]
  {
    assert LinkAt(list, c, k);
  }

  /** prev is the inverse of next, at every region and at the sentinel. */
  lemma PrevInvertsNext(list: seq<Region>, c: seq<nat>, texAge: int, x: nat)
    requires Lru(list, c, texAge) && x < |list|
    ensures list[list[x].next].prev == x && list[list[x].prev].next == x
  {
    assert x in c;
    var k: nat :| k < |c| && c[k] == x;
    var j := if k == 0 then |c| - 1 else k - 1;
    assert LinkAt(list, c, k) && LinkAt(list, c, j) && Succ(j, |c|) == k;
  }

  /** The region before the sentinel is a least recently used one. */
  lemma LastIsLeastRecent(list: seq<Region>, c: seq<nat>, texAge: int, x: nat)
    requires Lru(list, c, texAge) && x < |list| - 1
    ensures list[list[|list| - 1].prev].age <= list[x].age
  {
    assert x in c;
    var k :| 0 <= k < |c| && c[k] == x;
    assert LinkAt(list, c, |c| - 1);
  }

  // ----- a new list

  /** n regions, nobody's yet, in the order of their indices. */
  function NewList(n: Index, age: int): (r: seq<Region>)
    requires n <= 255
    ensures |r| == n + 1
  {
    seq(n + 1, x requires 0 <= x <= n =>
      Region(if x == n then 0 else x + 1, if x == 0 then n else x - 1, false, age))
  }

  function NewOrder(n: nat): (c: seq<nat>)
    ensures |c| == n + 1
  {
    seq(n + 1, k requires 0 <= k <= n => if k == 0 then n else k - 1)
  }

  /** The invariant can be established, for any number of regions that the index bytes allow. */
  lemma NewListIsLru(n: Index, age: int)
    requires n <= 255
    ensures Lru(NewList(n, age), NewOrder(n), age)
    ensures forall x :: 0 <= x <= n ==> !NewList(n, age)[x].inUse && NewList(n, age)[x].age == age
  {
    var list, c := NewList(n, age), NewOrder(n);
    forall k: nat | k < |c| ensures LinkAt(list, c, k) {}
    forall x | 0 <= x < |list| ensures x in c {
      assert c[if x == n then 0 else x + 1] == x;
    }
  }

  // ----- the shared area, changed in place

  class Sarea {
    const texList: array<Region>
    var texAge: int

    constructor (regions: seq<Region>, age: int)
      ensures fresh(texList) && texList[..] == regions && texAge == age
    {
      texList := new Region[|regions|](i requires 0 <= i < |regions| => regions[i]);
      texAge := age;
    }

    method Touch(x: Index)
      requires Linked(texList[..]) && x < texList.Length - 1
      modifies this, texList
      ensures texAge == old(texAge) + 1
      ensures texList[..] == Touched(old(texList[..]), x, texAge)
    {
      texAge := texAge + 1;
      TakeOut(x);
      texList[x] := texList[x].(inUse := true, age := texAge);
      PutFirst(x);
    }

    method TakeOut(x: Index)
      requires Linked(texList[..]) && x < texList.Length
      modifies texList
      ensures texList[..] == Unlink(old(texList[..]), x)
    {
      var p, q := texList[x].prev, texList[x].next;
      assert p == old(texList[..])[x].prev && q == old(texList[..])[x].next;
      texList[p] := texList[p].(next := q);
      texList[q] := texList[q].(prev := p);
    }

    method PutFirst(x: Index)
      requires Linked(texList[..]) && x < texList.Length
      modifies texList
      ensures texList[..] == Insert(old(texList[..]), texList.Length - 1, x)
    {
      var sentinel: Index := texList.Length - 1;
      var first := texList[sentinel].next;
      assert first == old(texList[..])[sentinel].next;
      texList[x] := texList[x].(prev := sentinel, next := first);
      texList[first] := texList[first].(prev := x);
      texList[sentinel] := texList[sentinel].(next := x);
    }

    /** A client's walk: of the regions it stamped, it keeps those that still have its stamp. */
    method Survey(stamps: map<nat, int>, ghost c: seq<nat>) returns (kept: map<nat, int>)
      requires Lru(texList[..], c, texAge) && (forall r :: r in stamps ==> r < texList.Length - 1)
      ensures kept == Current(texList[..], stamps)
    {
      kept := map[];
      ghost var list := texList[..];
      var sentinel := texList.Length - 1;
      var x := texList[sentinel].next;
      ghost var k := Succ(0, |c|);
      NextInRing(list, c, 0);
      while x != sentinel
        invariant 0 <= k < |c| && c[k] == x
        invariant KeptSoFar(list, stamps, kept, c, k)
        decreases |c| - (if k == 0 then |c| else k)
      {
        KeptNext(list, stamps, kept, c, k);
        if x in stamps && texList[x].age == stamps[x] {
          kept := kept[x := stamps[x]];
        }
        NextInRing(list, c, k);
        x := texList[x].next;
        k := Succ(k, |c|);
      }
      KeptAll(list, stamps, kept, c, texAge, k);
    }
  }

  /** Back at the sentinel, the walk has passed every region. */
  lemma AllVisited(list: seq<Region>, c: seq<nat>, texAge: int, k: nat)
    requires Lru(list, c, texAge) && k < |c| && c[k] == |list| - 1
    ensures forall r :: 0 <= r < |list| - 1 ==> r in Visited(c, k)
  {
    assert k == 0;
    forall r | 0 <= r < |list| - 1 ensures r in c[1..] {
      assert r in c;
      var j :| 0 <= j < |c| && c[j] == r;
      assert c[1..][j - 1] == r;
    }
  }

  /** The walk has kept the current stamps among the regions it passed. */
  ghost predicate KeptSoFar(list: seq<Region>, stamps: map<nat, int>, kept: map<nat, int>, c: seq<nat>, k: nat)
    requires k < |c| && forall r :: r in stamps ==> r < |list|
  {
    && (forall r :: r in kept <==> r in stamps && list[r].age == stamps[r] && r in Visited(c, k))
    && (forall r :: r in kept ==> kept[r] == stamps[r])
  }

  lemma KeptAll(list: seq<Region>, stamps: map<nat, int>, kept: map<nat, int>, c: seq<nat>, texAge: int, k: nat)
    requires Lru(list, c, texAge) && k < |c| && c[k] == |list| - 1 && forall r :: r in stamps ==> r < |list| - 1
    requires KeptSoFar(list, stamps, kept, c, k)
    ensures kept == Current(list, stamps)
  {
    AllVisited(list, c, texAge, k);
  }

  lemma KeptNext(list: seq<Region>, stamps: map<nat, int>, kept: map<nat, int>, c: seq<nat>, k: nat)
    requires 0 < k < |c| && forall r :: r in stamps ==> r < |list|
    requires KeptSoFar(list, stamps, kept, c, k)
    ensures var next := if c[k] in stamps && list[c[k]].age == stamps[c[k]] then kept[c[k] := stamps[c[k]]] else kept;
            KeptSoFar(list, stamps, next, c, Succ(k, |c|))
  {
    VisitedNext(c, k);
  }

  lemma VisitedNext(c: seq<nat>, k: nat)
    requires 0 < k < |c|
    ensures Visited(c, Succ(k, |c|)) == Visited(c, k) + [c[k]]
  {
  }

  /** The regions passed when the walk stands at position k. */
  ghost function Visited(c: seq<nat>, k: nat): seq<nat>
    requires k < |c|
  {
    if k == 0 then c[1..] else c[1..k]
  }

  function Current(list: seq<Region>, stamps: map<nat, int>): map<nat, int>
    requires forall r :: r in stamps ==> r < |list|
  {
    map r | r in stamps && list[r].age == stamps[r] :: stamps[r]
  }
}
