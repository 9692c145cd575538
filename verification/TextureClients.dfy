/** Clients of the shared texture LRU. Each remembers the age it stamped on the regions it believes
    it owns and the texAge it last looked at; `owner` records who really touched a region last. A
    client that skips the walk while texAge is unchanged is compared with one that always walks. */
module TextureClients {
  import opened Options
  import opened TextureLru

  datatype Client = Client(stamps: map<nat, int>, seen: int)

  datatype World = World(list: seq<Region>, order: seq<nat>, texAge: int, clients: seq<Client>, owner: map<nat, nat>)

  datatype Step = Touch(client: nat, region: Index) | Look(client: nat)

  ghost predicate Allowed(w: World, step: Step) {
    step.client < |w.clients| && (step.Touch? ==> step.region < |w.list| - 1)
  }

  function Position(c: seq<nat>, x: nat): (k: nat)
    requires x in c
    ensures k < |c| && c[k] == x
  {
    if c[0] == x then 0 else 1 + Position(c[1..], x)
  }

  /** The stamps of the toucher; it goes on trusting texAge only if it had seen the age before. */
  function Stamped(me: Client, region: nat, texAge: int): Client {
    Client(me.stamps[region := texAge + 1], if me.seen == texAge then texAge + 1 else me.seen)
  }

  function Looked(me: Client, list: seq<Region>, texAge: int, skip: bool): Client
    requires forall r :: r in me.stamps ==> r < |list|
  {
    if skip && me.seen == texAge then me else Client(Current(list, me.stamps), texAge)
  }

  // ----- the invariant

  ghost predicate ClientOk(w: World, i: nat)
    requires i < |w.clients|
  {
    var me := w.clients[i];
    && me.seen <= w.texAge
    && (forall r :: r in me.stamps ==>
          && r < |w.list| - 1 && r in w.owner && me.stamps[r] <= w.texAge
          && (w.list[r].age == me.stamps[r] <==> w.owner[r] == i))
    && (me.seen == w.texAge ==> forall r :: r in me.stamps ==> w.list[r].age == me.stamps[r])
  }

  ghost predicate OwnersKnow(w: World) {
    forall r :: r in w.owner ==> w.owner[r] < |w.clients| && r in w.clients[w.owner[r]].stamps
  }

  ghost predicate Inv(w: World) {
    && Lru(w.list, w.order, w.texAge)
    && (forall i: nat :: i < |w.clients| ==> ClientOk(w, i))
    && OwnersKnow(w)
  }

  function After(w: World, step: Step, skip: bool): World
    requires Inv(w) && Allowed(w, step)
  {
    var me := w.clients[step.client];
    match step
    case Touch(i, r) =>
      assert r in w.order;
      assert w.order[0] != r;
      World(Touched(w.list, r, w.texAge + 1), ToFront(w.order, Position(w.order, r)), w.texAge + 1,
            w.clients[i := Stamped(me, r, w.texAge)], w.owner[r := i])
    case Look(i) =>
      assert ClientOk(w, i);
      w.(clients := w.clients[i := Looked(me, w.list, w.texAge, skip)])
  }

  /** Nobody has stamped anything yet. */
  ghost predicate Initial(w: World) {
    && Lru(w.list, w.order, w.texAge) && w.owner == map[]
    && forall i :: 0 <= i < |w.clients| ==> w.clients[i].stamps == map[] && w.clients[i].seen <= w.texAge
  }

  lemma InitialInv(w: World)
    requires Initial(w)
    ensures Inv(w)
  {
  }

  lemma TouchKeepsInv(w: World, i: nat, r: Index)
    requires Inv(w) && Allowed(w, Touch(i, r))
    ensures Inv(After(w, Touch(i, r), false))
  {
    var w' := After(w, Touch(i, r), false);
    TouchKeepsOrder(w, r);
    TouchKeepsClients(w, w', i, r);
    TouchKeepsOwners(w, w', i, r);
  }

  lemma TouchKeepsOrder(w: World, r: Index)
    requires Lru(w.list, w.order, w.texAge) && r < |w.list| - 1
    ensures r in w.order && Position(w.order, r) > 0
    ensures Lru(Touched(w.list, r, w.texAge + 1), ToFront(w.order, Position(w.order, r)), w.texAge + 1)
  {
    assert r in w.order;
    TouchKeepsLru(w.list, w.order, w.texAge, Position(w.order, r));
  }

  lemma TouchKeepsClients(w: World, w': World, i: nat, r: Index)
    requires Linked(w.list) && i < |w.clients| && r < |w.list| - 1 && forall j: nat :: j < |w.clients| ==> ClientOk(w, j)
    requires w'.texAge == w.texAge + 1 && w'.list == Touched(w.list, r, w.texAge + 1)
    requires w'.clients == w.clients[i := Stamped(w.clients[i], r, w.texAge)] && w'.owner == w.owner[r := i]
    ensures forall j: nat :: j < |w'.clients| ==> ClientOk(w', j)
  {
    AllAges(w.list, r, w.texAge + 1);
    forall j: nat | j < |w.clients| ensures ClientOk(w', j) {
      assert ClientOk(w, j);
      TouchKeepsClient(w, w', i, r, j);
    }
  }

  lemma TouchKeepsOwners(w: World, w': World, i: nat, r: nat)
    requires i < |w.clients| && OwnersKnow(w)
    requires w'.clients == w.clients[i := Stamped(w.clients[i], r, w.texAge)] && w'.owner == w.owner[r := i]
    ensures OwnersKnow(w')
  {
  }

  lemma TouchKeepsClient(w: World, w': World, i: nat, r: nat, j: nat)
    requires i < |w.clients| && j < |w.clients| && r < |w.list| - 1 && ClientOk(w, j)
    requires w'.texAge == w.texAge + 1 && Restamped(w.list, w'.list, r, w.texAge + 1)
    requires w'.clients == w.clients[i := Stamped(w.clients[i], r, w.texAge)] && w'.owner == w.owner[r := i]
    ensures ClientOk(w', j)
  {
  }

  lemma LookAgrees(w: World, i: nat)
    requires Inv(w) && Allowed(w, Look(i))
    ensures After(w, Look(i), true) == After(w, Look(i), false)
    ensures Inv(After(w, Look(i), false))
  {
    var me := w.clients[i];
    assert ClientOk(w, i);
    if me.seen == w.texAge { assert Current(w.list, me.stamps) == me.stamps; }
    var w' := After(w, Look(i), false);
    forall j: nat | j < |w.clients| ensures ClientOk(w', j) { assert ClientOk(w, j); }
  }

  lemma StepAgrees(w: World, step: Step)
    requires Inv(w) && Allowed(w, step)
    ensures After(w, step, true) == After(w, step, false) && Inv(After(w, step, false))
  {
    match step
    case Touch(i, r) => TouchKeepsInv(w, i, r);
    case Look(i) => LookAgrees(w, i);
  }

  // ----- runs

  ghost predicate Runs(w: World, steps: seq<Step>, skip: bool)
    requires Inv(w)
    decreases |steps|
  {
    steps == [] ||
    (Allowed(w, steps[0]) && Inv(After(w, steps[0], skip)) && Runs(After(w, steps[0], skip), steps[1..], skip))
  }

  ghost function End(w: World, steps: seq<Step>, skip: bool): (r: World)
    requires Inv(w) && Runs(w, steps, skip)
    ensures Inv(r)
    decreases |steps|
  {
    if steps == [] then w else End(After(w, steps[0], skip), steps[1..], skip)
  }

  /** Steps within range can always be taken: no run leaves the invariant. */
  lemma {:induction false} EveryRun(w: World, steps: seq<Step>)
    requires Inv(w)
    requires forall s :: s in steps ==> s.client < |w.clients| && (s.Touch? ==> s.region < |w.list| - 1)
    ensures Runs(w, steps, false)
    decreases |steps|
  {
    if steps != [] {
      StepAgrees(w, steps[0]);
      EveryRun(After(w, steps[0], false), steps[1..]);
    }
  }

  /** After any touches and looks by any clients, skipping while texAge is unchanged has made no
      difference to what any client believes. */
  lemma {:induction false} SkippingIsInvisible(w: World, steps: seq<Step>)
    requires Inv(w) && Runs(w, steps, false)
    ensures Runs(w, steps, true) && End(w, steps, true) == End(w, steps, false)
    decreases |steps|
  {
    if steps != [] {
      StepAgrees(w, steps[0]);
      SkippingIsInvisible(After(w, steps[0], false), steps[1..]);
    }
  }

  /** A region whose age is not the client's stamp was last touched by another client, and one that
      still has the stamp was not. */
  lemma DifferentAgeMeansStolen(w: World, steps: seq<Step>, i: nat, r: nat)
    requires Initial(w) && i < |w.clients|
    requires Inv(w) && Runs(w, steps, true) && i < |End(w, steps, true).clients|
    requires r in End(w, steps, true).clients[i].stamps
    ensures var now := End(w, steps, true);
            && r < |now.list| && r in now.owner
            && (now.list[r].age != now.clients[i].stamps[r] <==> now.owner[r] != i)
  {
    assert ClientOk(End(w, steps, true), i);
  }

  /** After a look, skipped or not, a client believes it owns exactly the regions it touched last. */
  lemma LookTellsTheTruth(w: World, i: nat, skip: bool, r: nat)
    requires Inv(w) && Allowed(w, Look(i))
    ensures r in After(w, Look(i), skip).clients[i].stamps <==> r in w.owner && w.owner[r] == i
  {
    assert ClientOk(w, i);
    LookAgrees(w, i);
  }

  /** When skipping a walk is the same as walking, for a client that believes anything at all: it skips
      exactly on the age it has seen, and then its beliefs had better be current. */
  lemma LookExact(me: Client, list: seq<Region>, texAge: int)
    requires forall r :: r in me.stamps ==> r < |list|
    ensures Looked(me, list, texAge, true) == Looked(me, list, texAge, false) <==>
            me.seen != texAge || forall x :: x in me.stamps ==> list[x].age == me.stamps[x]
    ensures me.seen == texAge ==> Looked(me, list, texAge, true).stamps == me.stamps
    ensures Looked(me, list, texAge, true).seen == Looked(me, list, texAge, false).seen == texAge
  {
    KeepsAll(list, me.stamps);
  }

  /** A client needs no walk as long as nobody else touches: its own touches keep it up to date if it
      was, and a touch by another never does. */
  lemma WalkNeeded(w: World, i: nat, r: Index, j: nat)
    requires Inv(w) && Allowed(w, Touch(i, r)) && j < |w.clients|
    ensures var now := After(w, Touch(i, r), true);
            now.clients[j].seen == now.texAge <==> j == i && w.clients[j].seen == w.texAge
  {
    assert ClientOk(w, i) && ClientOk(w, j);
  }

  /** The last client among the steps to touch a region, or `before`. */
  function LastToucher(steps: seq<Step>, r: nat, before: Option<nat>): Option<nat> {
    if steps == [] then before
    else LastToucher(steps[1..], r, if steps[0].Touch? && steps[0].region == r then Some(steps[0].client) else before)
  }

  /** The owner of a region is the client that touched it last. */
  lemma {:induction false} OwnerIsLastToucher(w: World, steps: seq<Step>, skip: bool, r: nat)
    requires Inv(w) && Runs(w, steps, skip)
    ensures OwnerOf(End(w, steps, skip), r) == LastToucher(steps, r, OwnerOf(w, r))
    decreases |steps|
  {
    if steps != [] { OwnerIsLastToucher(After(w, steps[0], skip), steps[1..], skip, r); }
  }

  function OwnerOf(w: World, r: nat): Option<nat> {
    if r in w.owner then Some(w.owner[r]) else None
  }

  // ----- why a toucher may not always trust the new texAge

  /** A toucher that took over the new texAge and skipped its next walk would keep all these stamps;
      this is right if a walk would keep them too. */
  ghost predicate TrustIsRight(w: World, i: nat, r: Index)
    requires Linked(w.list) && Allowed(w, Touch(i, r)) && ClientOk(w, i)
  {
    WalkKeepsAll(Touched(w.list, r, w.texAge + 1), w.clients[i].stamps[r := w.texAge + 1])
  }

  /** The client still owns all it stamped, apart from r. */
  ghost predicate NothingStolen(w: World, i: nat, r: nat)
    requires i < |w.clients|
  {
    forall x :: x in w.clients[i].stamps && x != r ==> x in w.owner && w.owner[x] == i
  }

  ghost predicate WalkKeepsAll(list: seq<Region>, stamps: map<nat, int>)
    requires forall x :: x in stamps ==> x < |list|
  {
    Current(list, stamps) == stamps
  }

  lemma BlindTrustExact(w: World, i: nat, r: Index)
    requires Linked(w.list) && Allowed(w, Touch(i, r)) && ClientOk(w, i)
    ensures TrustIsRight(w, i, r) <==> NothingStolen(w, i, r)
  {
    AllAges(w.list, r, w.texAge + 1);
    TrustByAges(w, i, r, Touched(w.list, r, w.texAge + 1));
  }

  lemma TrustByAges(w: World, i: nat, r: nat, list: seq<Region>)
    requires i < |w.clients| && ClientOk(w, i) && r < |w.list|
    requires Restamped(w.list, list, r, w.texAge + 1)
    ensures var stamps := w.clients[i].stamps[r := w.texAge + 1];
            (forall x :: x in stamps ==> x < |list|) &&
            (WalkKeepsAll(list, stamps) <==> NothingStolen(w, i, r))
  {
    var mine := w.clients[i].stamps;
    var stamps := mine[r := w.texAge + 1];
    KeepsAll(list, stamps);
    if forall x :: x in stamps ==> list[x].age == stamps[x] {
      forall x | x in mine && x != r ensures w.owner[x] == i { assert x in stamps; }
    }
  }

  /** A walk keeps everything exactly when every stamp is current. */
  lemma KeepsAll(list: seq<Region>, stamps: map<nat, int>)
    requires forall x :: x in stamps ==> x < |list|
    ensures WalkKeepsAll(list, stamps) <==> forall x :: x in stamps ==> list[x].age == stamps[x]
  {
    if Current(list, stamps) == stamps {
      forall x | x in stamps ensures list[x].age == stamps[x] { assert x in Current(list, stamps); }
    }
  }

  /** Whoever finds the texAge it has seen may trust the next one. */
  lemma SeenMakesTrustRight(w: World, i: nat, r: Index)
    requires Inv(w) && Allowed(w, Touch(i, r)) && w.clients[i].seen == w.texAge
    ensures ClientOk(w, i) && TrustIsRight(w, i, r)
  {
    assert ClientOk(w, i);
    BlindTrustExact(w, i, r);
  }

  /** The guard `seen == texAge` is needed: whatever a client has besides region r, another client
      can take a region x of it, after which the guard is false and trust in the next age wrong. */
  lemma TrustNeedsSeen(w: World, i: nat, j: nat, x: Index, r: Index)
    requires Inv(w) && Allowed(w, Touch(j, x)) && Allowed(w, Touch(i, r)) && i != j
    requires x in w.clients[i].stamps && x != r
    ensures var stolen := After(w, Touch(j, x), true);
            && Inv(stolen) && ClientOk(stolen, i)
            && stolen.clients[i].seen != stolen.texAge && !TrustIsRight(stolen, i, r)
  {
    assert ClientOk(w, i);
    TouchKeepsInv(w, j, x);
    var stolen := After(w, Touch(j, x), true);
    assert stolen.owner[x] == j;
    BlindTrustExact(stolen, i, r);
  }

  // ----- a first world

  function NewWorld(n: Index, clients: nat): World
    requires n <= 255
  {
    World(NewList(n, 0), NewOrder(n), 0, seq(clients, _ => Client(map[], 0)), map[])
  }

  /** Runs have somewhere to start, with any number of regions and clients. */
  lemma NewWorldIsInitial(n: Index, clients: nat)
    requires n <= 255
    ensures Initial(NewWorld(n, clients)) && Inv(NewWorld(n, clients))
  {
    NewListIsLru(n, 0);
  }

  /** A run from a new world in which blind trust goes wrong: client 0 takes a region, client 1 takes
      it over, and client 0 touches another one. */
  lemma BlindTrustFails(n: Index)
    requires 2 <= n <= 255
    ensures Inv(NewWorld(n, 2)) && Runs(NewWorld(n, 2), [Touch(0, 0), Touch(1, 0)], true)
    ensures var w := End(NewWorld(n, 2), [Touch(0, 0), Touch(1, 0)], true);
            && Allowed(w, Touch(0, 1)) && ClientOk(w, 0)
            && w.clients[0].seen != w.texAge && !TrustIsRight(w, 0, 1)
  {
    NewWorldIsInitial(n, 2);
    var w := NewWorld(n, 2);
    var w1 := After(w, Touch(0, 0), true);
    TouchKeepsInv(w, 0, 0);
    TrustNeedsSeen(w1, 0, 1, 0, 1);
    TwoSteps(w, Touch(0, 0), Touch(1, 0));
  }

  lemma TwoSteps(w: World, s1: Step, s2: Step)
    requires Inv(w) && Allowed(w, s1) && Inv(After(w, s1, true)) && Allowed(After(w, s1, true), s2)
    requires Inv(After(After(w, s1, true), s2, true))
    ensures Runs(w, [s1, s2], true) && End(w, [s1, s2], true) == After(After(w, s1, true), s2, true)
  {
    var steps := [s1, s2];
    assert steps[1..] == [s2] && steps[1..][1..] == [];
    var w1 := After(w, s1, true);
    var w2 := After(w1, s2, true);
    assert Runs(w2, [], true) && End(w2, [], true) == w2;
    assert Runs(w1, steps[1..], true) && End(w1, steps[1..], true) == w2;
  }
}
