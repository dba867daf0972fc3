/** `Registry::update` (src/2d_engine/ecs.cpp): the once-per-frame
    reconciliation. Phase one hands every entity created since the last
    update to each system whose required mask its own mask contains;
    phase two retires every killed entity: it leaves all system lists and
    all pools, its mask is cleared, its id is queued for reuse and it
    leaves its group. Both pending sets are then emptied.

    The pending sets are `std::set<Entity>`, walked in ascending id order
    (Sorted); the system map is unordered, but each system is only
    touched through its own list, so all systems are updated at once. */
module Reconcile {
  import opened Faults
  import opened Entities
  import opened ComponentMask
  import opened Systems
  import opened Groups
  import opened Ecs
  import Pools

  /** Every entity of `xs` has a mask. */
  predicate InRange(masks: seq<Mask>, xs: seq<Entity>)
  {
    forall i :: 0 <= i < |xs| ==> 0 <= xs[i].id < |masks|
  }

  /** `entity_mask.contains(system_mask)`; masks of one registry always
      have the same width. */
  predicate Admits(m: Mask, req: Mask)
  {
    m.Width() == req.Width() && Contains(m, req)
  }

  /** The entities of `xs`, in order, whose mask contains `req`: what
      phase one appends to a system requiring `req`. */
  function Matching(xs: seq<Entity>, masks: seq<Mask>, req: Mask): (ys: seq<Entity>)
    requires InRange(masks, xs)
    ensures |ys| <= |xs|
    ensures forall y :: y in ys <==> y in xs && Admits(masks[y.id], req)
    ensures Ascending(xs) ==> Ascending(ys)
  {
    if |xs| == 0 then []
    else
      var rest := Matching(xs[1..], masks, req);
      assert forall y :: y in xs <==> y == xs[0] || y in xs[1..];
      MatchingHead(xs, rest);
      if Admits(masks[xs[0].id], req) then [xs[0]] + rest else rest
  }

  /** The head of an ascending list can lead any ascending list drawn
      from its tail. */
  lemma MatchingHead(xs: seq<Entity>, rest: seq<Entity>)
    requires |xs| > 0
    requires forall y :: y in rest ==> y in xs[1..]
    requires Ascending(xs) ==> Ascending(rest)
    ensures Ascending(xs) ==> Ascending([xs[0]] + rest)
  {
    if Ascending(xs) {
      forall i | 0 <= i < |rest| ensures xs[0].id < rest[i].id {
        assert rest[i] in xs[1..];
      }
      AscendingCons(xs[0], rest);
    }
  }

  /** Phase one for a single new entity with mask `m`. */
  function AdmitOne(systems: map<SystemKind, System>, m: Mask, e: Entity): (r: map<SystemKind, System>)
    ensures r.Keys == systems.Keys
    ensures forall k :: k in systems ==> r[k].mask == systems[k].mask
    ensures forall k :: k in systems ==>
      r[k].entities == systems[k].entities + (if Admits(m, systems[k].mask) then [e] else [])
  {
    map k | k in systems :: if Admits(m, systems[k].mask) then AddEntity(systems[k], e) else systems[k]
  }

  /** Phase one: the new entities, in order, are appended to every system
      whose required mask their mask contains; each system keeps its
      required mask. */
  function AdmitAll(systems: map<SystemKind, System>, masks: seq<Mask>, xs: seq<Entity>): (r: map<SystemKind, System>)
    requires InRange(masks, xs)
    ensures r.Keys == systems.Keys
    ensures forall k :: k in systems ==>
      && r[k].mask == systems[k].mask
      && r[k].entities == systems[k].entities + Matching(xs, masks, systems[k].mask)
    decreases |xs|
  {
    if |xs| == 0 then systems
    else
      var s1 := AdmitOne(systems, masks[xs[0].id], xs[0]);
      var r := AdmitAll(s1, masks, xs[1..]);
      AdmitStep(systems, masks, xs, s1, r);
      r
  }

  /** One step of AdmitAll: admitting the head, then the tail, is
      admitting the whole list. */
  lemma AdmitStep(systems: map<SystemKind, System>, masks: seq<Mask>, xs: seq<Entity>,
                  s1: map<SystemKind, System>, r: map<SystemKind, System>)
    requires InRange(masks, xs) && |xs| > 0
    requires s1 == AdmitOne(systems, masks[xs[0].id], xs[0])
    requires r.Keys == s1.Keys
    requires forall k :: k in s1 ==>
      r[k].mask == s1[k].mask && r[k].entities == s1[k].entities + Matching(xs[1..], masks, s1[k].mask)
    ensures forall k :: k in systems ==>
      && r[k].mask == systems[k].mask
      && r[k].entities == systems[k].entities + Matching(xs, masks, systems[k].mask)
  {
    forall k | k in systems
      ensures r[k].mask == systems[k].mask
      ensures r[k].entities == systems[k].entities + Matching(xs, masks, systems[k].mask)
    {
      var req := systems[k].mask;
      var head := if Admits(masks[xs[0].id], req) then [xs[0]] else [];
      MatchingCons(xs, masks, req);
      Concat3(systems[k].entities, head, Matching(xs[1..], masks, req));
    }
  }

  /** Matching, one element at a time. */
  lemma MatchingCons(xs: seq<Entity>, masks: seq<Mask>, req: Mask)
    requires InRange(masks, xs) && |xs| > 0
    ensures Matching(xs, masks, req) ==
      (if Admits(masks[xs[0].id], req) then [xs[0]] else []) + Matching(xs[1..], masks, req)
  {
  }

  lemma Concat3(a: seq<Entity>, b: seq<Entity>, c: seq<Entity>)
    ensures (a + b) + c == a + (b + c)
  {
  }

  /** Systems with the same required masks can replace a registry's own. */
  lemma SystemsSwapKeepsValid<V>(r: Registry<V>, systems: map<SystemKind, System>)
    requires Valid(r)
    requires systems.Keys == r.systems.Keys
    requires forall k :: k in systems ==> systems[k].mask == r.systems[k].mask
    ensures Valid(r.(systems := systems))
  {
  }

  /** Every pool is well formed: all that phase two needs of the registry. */
  ghost predicate PoolsValid<V>(pools: map<nat, Pools.Pool<V>>)
  {
    forall t :: t in pools ==> Pools.Valid(pools[t])
  }

  /** Phase two, system part: the entity leaves every system list (its
      first occurrence), and each system keeps its required mask. */
  function PurgeSystems(systems: map<SystemKind, System>, e: Entity): (r: map<SystemKind, System>)
    ensures r.Keys == systems.Keys
    ensures forall k :: k in systems ==>
      && r[k].mask == systems[k].mask
      && ErasesFirst(systems[k].entities, e, r[k].entities)
      && multiset(r[k].entities) == multiset(systems[k].entities) - multiset{e}
  {
    map k | k in systems :: RemoveEntity(systems[k], e)
  }

  /** Phase two, pool part: `remove_entity_from_pool` on every pool. */
  function PurgePools<V>(pools: map<nat, Pools.Pool<V>>, x: int): (r: map<nat, Pools.Pool<V>>)
    requires forall t :: t in pools ==> Pools.Valid(pools[t])
    ensures r.Keys == pools.Keys
    ensures forall t :: t in pools ==>
      && Pools.Valid(r[t])
      && r[t].entityToIndex.Keys == pools[t].entityToIndex.Keys - {x}
      && Pools.Contents(r[t]) == Pools.Contents(pools[t]) - {x}
  {
    map t | t in pools :: Pools.RemoveEntityFromPool(pools[t], x)
  }

  /** Phase two for one killed entity: fatal when its id has no mask
      (the mask array is indexed unchecked); otherwise it leaves every
      system and pool, its mask is cleared, its id joins the back of the
      recycled ids and it leaves its group. */
  function Purge<V>(r: Registry<V>, e: Entity): (res: Result<Registry<V>>)
    requires PoolsValid(r.pools)
    ensures res.Ok? <==> 0 <= e.id < |r.masks|
    ensures res.Fail? ==> res.fault == EntityOutOfRange
    ensures res.Ok? ==> PoolsValid(res.value.pools)
    ensures res.Ok? ==>
      var r' := res.value;
      && r'.systems.Keys == r.systems.Keys
      && (forall k :: k in r.systems ==>
            && r'.systems[k].mask == r.systems[k].mask
            && r'.systems[k].entities == RemoveFirst(r.systems[k].entities, e))
      && r'.pools.Keys == r.pools.Keys
      && (forall t :: t in r.pools ==>
            && r'.pools[t].entityToIndex.Keys == r.pools[t].entityToIndex.Keys - {e.id}
            && Pools.Contents(r'.pools[t]) == Pools.Contents(r.pools[t]) - {e.id})
    ensures res.Ok? ==>
      var r' := res.value;
      && |r'.masks| == |r.masks|
      && (forall j: nat :: !Has(r'.masks[e.id], j))
      && (forall i :: 0 <= i < |r.masks| && i != e.id ==> r'.masks[i] == r.masks[i])
      && r'.availableIds == r.availableIds + [e.id]
      && r'.groups == UngroupEntity(r.groups, e)
      && r'.types == r.types && r'.width == r.width && r'.numEntities == r.numEntities
      && r'.newEntities == r.newEntities && r'.deadEntities == r.deadEntities
  {
    if e.id < 0 || e.id >= |r.masks| then Fail(EntityOutOfRange)
    else
      var r' := r.(systems := PurgeSystems(r.systems, e),
                   pools := PurgePools(r.pools, e.id),
                   masks := r.masks[e.id := Reset(r.masks[e.id])],
                   availableIds := r.availableIds + [e.id],
                   groups := UngroupEntity(r.groups, e));
      Ok(r')
  }

  /** Retiring one entity keeps the registry well formed. */
  lemma PurgeValid<V>(r: Registry<V>, e: Entity)
    requires Valid(r)
    requires Purge(r, e).Ok?
    ensures Valid(Purge(r, e).value)
  {
    PurgeKeepsValid(r, Purge(r, e).value, e.id);
  }

  lemma PurgeKeepsValid<V>(r: Registry<V>, r': Registry<V>, x: int)
    requires Valid(r) && 0 <= x < |r.masks|
    requires r'.width == r.width && r'.types == r.types && r'.numEntities == r.numEntities
    requires r'.newEntities == r.newEntities
    requires r'.systems.Keys == r.systems.Keys
    requires forall k :: k in r.systems ==> r'.systems[k].mask == r.systems[k].mask
    requires r'.pools.Keys == r.pools.Keys
    requires forall t :: t in r.pools ==> Pools.Valid(r'.pools[t])
    requires |r'.masks| == |r.masks| && r'.masks[x].Width() == r.width
    requires forall i :: 0 <= i < |r.masks| && i != x ==> r'.masks[i] == r.masks[i]
    requires r'.availableIds == r.availableIds + [x]
    ensures Valid(r')
  {
    assert forall i :: 0 <= i < |r'.masks| ==> r'.masks[i].Width() == r.width;
  }

  /** Retiring one entity keeps the masks in step with the pools. */
  lemma PurgeConsistent<V>(r: Registry<V>, e: Entity)
    requires PoolsValid(r.pools) && Consistent(r)
    requires Purge(r, e).Ok?
    ensures Consistent(Purge(r, e).value)
  {
    var r' := Purge(r, e).value;
    RetireMatches(r.pools, r.masks, r'.pools, r'.masks, e.id);
  }

  /** Emptying one entity's mask while it leaves every pool keeps the two
      in step. */
  lemma RetireMatches<V>(pools: map<nat, Pools.Pool<V>>, masks: seq<Mask>,
                         pools': map<nat, Pools.Pool<V>>, masks': seq<Mask>, x0: int)
    requires MasksMatchPools(pools, masks)
    requires 0 <= x0 < |masks| && |masks'| == |masks|
    requires pools'.Keys == pools.Keys
    requires forall t :: t in pools ==> pools'[t].entityToIndex.Keys == pools[t].entityToIndex.Keys - {x0}
    requires forall j: nat :: !Has(masks'[x0], j)
    requires forall i :: 0 <= i < |masks| && i != x0 ==> masks'[i] == masks[i]
    ensures MasksMatchPools(pools', masks')
  {
    forall t: nat | t in pools'
      ensures forall x: int :: x in pools'[t].entityToIndex ==> 0 <= x < |masks'| && Has(masks'[x], t)
    {
      forall x: int | x in pools'[t].entityToIndex
        ensures 0 <= x < |masks'| && Has(masks'[x], t)
      {
        assert x in pools'[t].entityToIndex.Keys;
        assert x != x0 && x in pools[t].entityToIndex;
        assert 0 <= x < |masks| && Has(masks[x], t);
        assert masks'[x] == masks[x];
      }
    }
    forall t: nat, x | 0 <= x < |masks'| && Has(masks'[x], t)
      ensures t in pools' && x in pools'[t].entityToIndex
    {
      assert x != x0;
      assert masks'[x] == masks[x];
      HasMeansInPool(pools, masks, t, x);
      assert x in pools'[t].entityToIndex.Keys;
    }
  }

  /** The ids of `xs`, in order. */
  function Ids(xs: seq<Entity>): seq<int>
  {
    seq(|xs|, i requires 0 <= i < |xs| => xs[i].id)
  }

  lemma IdsCons(xs: seq<Entity>)
    requires |xs| > 0
    ensures Ids(xs) == [xs[0].id] + Ids(xs[1..])
  {
  }

  /** The ids of `xs`, as a set. */
  function IdSet(xs: seq<Entity>): set<int>
  {
    set i | 0 <= i < |xs| :: xs[i].id
  }

  lemma IdSetCons(xs: seq<Entity>)
    requires |xs| > 0
    ensures IdSet(xs) == {xs[0].id} + IdSet(xs[1..])
  {
    forall y | y in IdSet(xs) ensures y in {xs[0].id} + IdSet(xs[1..]) {
      var i :| 0 <= i < |xs| && xs[i].id == y;
      if i > 0 {
        assert xs[1..][i - 1].id == y;
      }
    }
    forall y | y in IdSet(xs[1..]) ensures y in IdSet(xs) {
      var i :| 0 <= i < |xs[1..]| && xs[1..][i].id == y;
      assert xs[i + 1].id == y;
    }
  }

  /** Phase two: the killed entities are retired one by one, in order. */
  function PurgeAll<V>(r: Registry<V>, xs: seq<Entity>): (res: Result<Registry<V>>)
    requires PoolsValid(r.pools)
    ensures res.Ok? <==> InRange(r.masks, xs)
    ensures res.Fail? ==> res.fault == EntityOutOfRange
    ensures res.Ok? ==> PoolsValid(res.value.pools)
    ensures res.Ok? ==>
      var r' := res.value;
      && |r'.masks| == |r.masks| && r'.systems.Keys == r.systems.Keys && r'.pools.Keys == r.pools.Keys
      && r'.types == r.types && r'.width == r.width && r'.numEntities == r.numEntities
      && r'.newEntities == r.newEntities && r'.deadEntities == r.deadEntities
    decreases |xs|
  {
    if |xs| == 0 then Ok(r)
    else
      match Purge(r, xs[0])
      case Fail(f) => Fail(f)
      case Ok(r1) =>
        assert InRange(r.masks, xs) <==> 0 <= xs[0].id < |r.masks| && InRange(r1.masks, xs[1..]);
        PurgeAll(r1, xs[1..])
  }

  /** Retiring a list of entities keeps the registry well formed. */
  lemma {:induction false} PurgeAllValid<V>(r: Registry<V>, xs: seq<Entity>)
    requires Valid(r)
    requires PurgeAll(r, xs).Ok?
    ensures Valid(PurgeAll(r, xs).value)
    decreases |xs|
  {
    if |xs| > 0 {
      var r1 := Purge(r, xs[0]).value;
      assert PurgeAll(r, xs) == PurgeAll(r1, xs[1..]);
      PurgeValid(r, xs[0]);
      PurgeAllValid(r1, xs[1..]);
    }
  }

  /** Retiring a list of entities keeps the masks in step with the pools. */
  lemma {:induction false} PurgeAllConsistent<V>(r: Registry<V>, xs: seq<Entity>)
    requires PoolsValid(r.pools) && Consistent(r)
    requires PurgeAll(r, xs).Ok?
    ensures Consistent(PurgeAll(r, xs).value)
    decreases |xs|
  {
    if |xs| > 0 {
      PurgeConsistent(r, xs[0]);
      PurgeAllConsistent(Purge(r, xs[0]).value, xs[1..]);
    }
  }

  /** Each system list loses, in turn, the first remaining occurrence of
      each retired entity; the survivors keep their order. */
  lemma {:induction false} PurgeAllSystems<V>(r: Registry<V>, xs: seq<Entity>)
    requires PoolsValid(r.pools)
    requires PurgeAll(r, xs).Ok?
    ensures forall k :: k in r.systems ==>
      && PurgeAll(r, xs).value.systems[k].mask == r.systems[k].mask
      && PurgeAll(r, xs).value.systems[k].entities == EraseEach(r.systems[k].entities, xs)
    decreases |xs|
  {
    if |xs| > 0 {
      var r1 := Purge(r, xs[0]).value;
      assert PurgeAll(r, xs) == PurgeAll(r1, xs[1..]);
      PurgeAllSystems(r1, xs[1..]);
    }
  }

  /** Every pool loses the retired ids and only them; the other
      entities keep their component values. */
  lemma {:induction false} PurgeAllPools<V>(r: Registry<V>, xs: seq<Entity>)
    requires PoolsValid(r.pools)
    requires PurgeAll(r, xs).Ok?
    ensures forall t :: t in r.pools ==>
      && PurgeAll(r, xs).value.pools[t].entityToIndex.Keys == r.pools[t].entityToIndex.Keys - IdSet(xs)
      && Pools.Contents(PurgeAll(r, xs).value.pools[t]) == Pools.Contents(r.pools[t]) - IdSet(xs)
    decreases |xs|
  {
    if |xs| > 0 {
      var r1 := Purge(r, xs[0]).value;
      assert PurgeAll(r, xs) == PurgeAll(r1, xs[1..]);
      PurgeAllPools(r1, xs[1..]);
      IdSetCons(xs);
      PoolStep(r.pools, r1.pools, PurgeAll(r1, xs[1..]).value.pools, xs[0].id, IdSet(xs[1..]));
    }
  }

  /** Dropping one id and then a set of ids drops both, from keys and
      contents alike. */
  lemma PoolStep<V>(p0: map<nat, Pools.Pool<V>>, p1: map<nat, Pools.Pool<V>>,
                    p2: map<nat, Pools.Pool<V>>, x: int, rest: set<int>)
    requires PoolsValid(p0) && PoolsValid(p1) && PoolsValid(p2)
    requires p1.Keys == p0.Keys && p2.Keys == p1.Keys
    requires forall t :: t in p0 ==>
      && p1[t].entityToIndex.Keys == p0[t].entityToIndex.Keys - {x}
      && Pools.Contents(p1[t]) == Pools.Contents(p0[t]) - {x}
    requires forall t :: t in p1 ==>
      && p2[t].entityToIndex.Keys == p1[t].entityToIndex.Keys - rest
      && Pools.Contents(p2[t]) == Pools.Contents(p1[t]) - rest
    ensures forall t :: t in p0 ==>
      && p2[t].entityToIndex.Keys == p0[t].entityToIndex.Keys - ({x} + rest)
      && Pools.Contents(p2[t]) == Pools.Contents(p0[t]) - ({x} + rest)
  {
    forall t | t in p0
      ensures Pools.Contents(p2[t]) == Pools.Contents(p0[t]) - ({x} + rest)
    {
      MapMinusStep(Pools.Contents(p0[t]), x, rest);
    }
  }

  lemma MapMinusStep<V>(c: map<int, V>, x: int, rest: set<int>)
    ensures (c - {x}) - rest == c - ({x} + rest)
  {
  }

  /** The retired ids' masks are empty; every other mask is unchanged. */
  lemma {:induction false} PurgeAllMasks<V>(r: Registry<V>, xs: seq<Entity>)
    requires PoolsValid(r.pools)
    requires PurgeAll(r, xs).Ok?
    ensures forall i :: 0 <= i < |r.masks| && i in IdSet(xs) ==>
      forall j: nat :: !Has(PurgeAll(r, xs).value.masks[i], j)
    ensures forall i :: 0 <= i < |r.masks| && i !in IdSet(xs) ==>
      PurgeAll(r, xs).value.masks[i] == r.masks[i]
    decreases |xs|
  {
    if |xs| > 0 {
      var r1 := Purge(r, xs[0]).value;
      assert PurgeAll(r, xs) == PurgeAll(r1, xs[1..]);
      PurgeAllMasks(r1, xs[1..]);
      IdSetCons(xs);
    }
  }

  /** The retired ids join the back of the recycled ids, in order. */
  lemma {:induction false} PurgeAllRecycles<V>(r: Registry<V>, xs: seq<Entity>)
    requires PoolsValid(r.pools)
    requires PurgeAll(r, xs).Ok?
    ensures PurgeAll(r, xs).value.availableIds == r.availableIds + Ids(xs)
    decreases |xs|
  {
    if |xs| > 0 {
      var r1 := Purge(r, xs[0]).value;
      assert PurgeAll(r, xs) == PurgeAll(r1, xs[1..]);
      PurgeAllRecycles(r1, xs[1..]);
      IdsCons(xs);
      assert (r.availableIds + [xs[0].id]) + Ids(xs[1..]) == r.availableIds + ([xs[0].id] + Ids(xs[1..]));
    }
  }

  /** The retired entities are ungrouped in turn: each leaves the group
      recorded for it and loses its reverse entry. */
  lemma {:induction false} PurgeAllUngroups<V>(r: Registry<V>, xs: seq<Entity>)
    requires PoolsValid(r.pools)
    requires PurgeAll(r, xs).Ok?
    ensures PurgeAll(r, xs).value.groups == UngroupEach(r.groups, xs)
    decreases |xs|
  {
    if |xs| > 0 {
      var r1 := Purge(r, xs[0]).value;
      assert PurgeAll(r, xs) == PurgeAll(r1, xs[1..]);
      PurgeAllUngroups(r1, xs[1..]);
    }
  }

  /** Phase one on a whole registry: the new entities, in ascending id
      order, join every system whose required mask their mask contains,
      and the pending creations are cleared. */
  function AdmitNew<V>(r: Registry<V>): (r1: Registry<V>)
    requires Valid(r)
    ensures Valid(r1) && r1.newEntities == {}
    ensures r1.pools == r.pools && r1.masks == r.masks && r1.availableIds == r.availableIds
    ensures r1.groups == r.groups && r1.deadEntities == r.deadEntities
    ensures r1.types == r.types && r1.width == r.width && r1.numEntities == r.numEntities
    ensures r1.systems.Keys == r.systems.Keys
    ensures forall k :: k in r.systems ==>
      && r1.systems[k].mask == r.systems[k].mask
      && r1.systems[k].entities == r.systems[k].entities + Matching(Sorted(r.newEntities), r.masks, r.systems[k].mask)
  {
    var systems := AdmitAll(r.systems, r.masks, Sorted(r.newEntities));
    SystemsSwapKeepsValid(r, systems);
    r.(systems := systems, newEntities := {})
  }

  /** `update`: phase one, then phase two over the killed entities in
      ascending id order, then the pending kills are cleared. A killed
      entity without a mask is fatal. */
  function Update<V>(r: Registry<V>): (res: Result<Registry<V>>)
    requires Valid(r)
    ensures res.Ok? <==> forall e :: e in r.deadEntities ==> 0 <= e.id < |r.masks|
    ensures res.Fail? ==> res.fault == EntityOutOfRange
    ensures res.Ok? ==> Valid(res.value)
    ensures res.Ok? ==> res.value.newEntities == {} && res.value.deadEntities == {}
    ensures res.Ok? ==>
      && res.value.systems.Keys == r.systems.Keys && res.value.pools.Keys == r.pools.Keys
      && |res.value.masks| == |r.masks| && res.value.numEntities == r.numEntities
      && res.value.types == r.types && res.value.width == r.width
  {
    var r1 := AdmitNew(r);
    var dead := Sorted(r.deadEntities);
    SortedInRange(r.masks, r.deadEntities);
    match PurgeAll(r1, dead)
    case Fail(f) => Fail(f)
    case Ok(r2) =>
      PurgeAllValid(r1, dead);
      Ok(r2.(deadEntities := {}))
  }

  /** A set's entities all have masks exactly when its sorted listing does. */
  lemma SortedInRange(masks: seq<Mask>, s: set<Entity>)
    ensures InRange(masks, Sorted(s)) <==> forall e :: e in s ==> 0 <= e.id < |masks|
  {
    var xs := Sorted(s);
    if forall e :: e in s ==> 0 <= e.id < |masks| {
      assert forall i :: 0 <= i < |xs| ==> xs[i] in s;
    }
  }

  /** A strictly ascending list holds each entity at most once. */
  lemma {:induction false} AscendingCount(xs: seq<Entity>, x: Entity)
    requires Ascending(xs)
    ensures multiset(xs)[x] == if x in xs then 1 else 0
    decreases |xs|
  {
    if |xs| > 0 {
      assert xs == [xs[0]] + xs[1..];
      assert Ascending(xs[1..]);
      AscendingCount(xs[1..], x);
      if x == xs[0] {
        assert x !in xs[1..];
      }
    }
  }

  /** Matching keeps at most as many copies as its input has. */
  lemma {:induction false} MatchingCount(xs: seq<Entity>, masks: seq<Mask>, req: Mask, x: Entity)
    requires InRange(masks, xs)
    ensures multiset(Matching(xs, masks, req))[x] <= multiset(xs)[x]
    decreases |xs|
  {
    if |xs| > 0 {
      assert xs == [xs[0]] + xs[1..];
      MatchingCons(xs, masks, req);
      MatchingCount(xs[1..], masks, req, x);
    }
  }

  /** The ids of the killed entities. */
  function DeadIds<V>(r: Registry<V>): (ids: set<int>)
    ensures forall e :: e in r.deadEntities ==> e.id in ids
  {
    set e | e in r.deadEntities :: e.id
  }

  lemma IdSetSorted(s: set<Entity>)
    ensures IdSet(Sorted(s)) == set e | e in s :: e.id
  {
    var xs := Sorted(s);
    forall y | y in IdSet(xs) ensures y in set e | e in s :: e.id {
      var i :| 0 <= i < |xs| && xs[i].id == y;
      assert xs[i] in s;
    }
    forall e | e in s ensures e.id in IdSet(xs) {
      var i :| 0 <= i < |xs| && xs[i] == e;
    }
  }

  /** Update keeps the masks in step with the pools. */
  lemma UpdateConsistent<V>(r: Registry<V>)
    requires Valid(r) && Consistent(r)
    requires Update(r).Ok?
    ensures Consistent(Update(r).value)
  {
    var r1 := AdmitNew(r);
    PurgeAllConsistent(r1, Sorted(r.deadEntities));
  }

  /** System `k` keeps its required mask; its list gains, at the back and
      in ascending id order, the new entities whose mask contains that
      mask, and then loses, in ascending id order, the first remaining
      occurrence of each killed entity. */
  lemma UpdateSystemList<V>(r: Registry<V>, k: SystemKind)
    requires Valid(r) && k in r.systems
    requires Update(r).Ok?
    ensures k in Update(r).value.systems
    ensures Update(r).value.systems[k].mask == r.systems[k].mask
    ensures Update(r).value.systems[k].entities ==
      EraseEach(r.systems[k].entities + Matching(Sorted(r.newEntities), r.masks, r.systems[k].mask),
                Sorted(r.deadEntities))
  {
    var r1 := AdmitNew(r);
    var dead := Sorted(r.deadEntities);
    SortedInRange(r.masks, r.deadEntities);
    assert Update(r) == Ok(PurgeAll(r1, dead).value.(deadEntities := {}));
    PurgeAllSystems(r1, dead);
  }

  /** System `k` keeps its required mask; its list gains the new
      entities whose mask contains that mask and loses one copy of each
      killed entity. */
  lemma UpdateSystems<V>(r: Registry<V>, k: SystemKind)
    requires Valid(r) && k in r.systems
    requires Update(r).Ok?
    ensures k in Update(r).value.systems
    ensures Update(r).value.systems[k].mask == r.systems[k].mask
    ensures multiset(Update(r).value.systems[k].entities) ==
      (multiset(r.systems[k].entities) + multiset(Matching(Sorted(r.newEntities), r.masks, r.systems[k].mask)))
        - multiset(Sorted(r.deadEntities))
  {
    UpdateSystemList(r, k);
  }

  /** From a list holding each entity at most once, phase one lists an
      entity once, and only where it fits. */
  lemma AdmittedOnce(xs: seq<Entity>, masks: seq<Mask>, req: Mask, e: Entity)
    requires InRange(masks, xs)
    requires multiset(xs)[e] <= 1
    ensures multiset(Matching(xs, masks, req))[e] ==
      if e in xs && Admits(masks[e.id], req) then 1 else 0
  {
    var ys := Matching(xs, masks, req);
    MatchingCount(xs, masks, req, e);
    assert multiset(ys)[e] > 0 <==> e in ys;
  }

  /** How many times system `k` lists `e` after update: one more when `e`
      is new and fits, then one fewer (never below zero) when `e` was
      killed. */
  lemma UpdateCount<V>(r: Registry<V>, r': Registry<V>, k: SystemKind, e: Entity)
    requires Valid(r) && k in r.systems
    requires Update(r) == Ok(r')
    ensures k in r'.systems
    ensures var before := multiset(r.systems[k].entities)[e];
      var admitted := if e in r.newEntities && Contains(r.masks[e.id], r.systems[k].mask) then 1 else 0;
      multiset(r'.systems[k].entities)[e] ==
        if e in r.deadEntities then
          (if before + admitted > 0 then before + admitted - 1 else 0)
        else before + admitted
  {
    UpdateSystems(r, k);
    var news := Sorted(r.newEntities);
    var dead := Sorted(r.deadEntities);
    SortedInRange(r.masks, r.newEntities);
    AscendingCount(news, e);
    AscendingCount(dead, e);
    assert e in r.newEntities ==> r.masks[e.id].Width() == r.systems[k].mask.Width();
    CountStep(r.systems[k].entities, news, dead, r.masks, r.systems[k].mask, r'.systems[k].entities, e);
  }

  /** The count arithmetic behind UpdateCount, for lists holding `e` at
      most once. */
  lemma CountStep(before: seq<Entity>, news: seq<Entity>, dead: seq<Entity>,
                  masks: seq<Mask>, req: Mask, after: seq<Entity>, e: Entity)
    requires InRange(masks, news)
    requires multiset(news)[e] <= 1 && multiset(dead)[e] <= 1
    requires multiset(after) == (multiset(before) + multiset(Matching(news, masks, req))) - multiset(dead)
    ensures var admitted := if e in news && Admits(masks[e.id], req) then 1 else 0;
      multiset(after)[e] ==
        if e in dead then
          (if multiset(before)[e] + admitted > 0 then multiset(before)[e] + admitted - 1 else 0)
        else multiset(before)[e] + admitted
  {
    AdmittedOnce(news, masks, req, e);
    assert multiset(dead)[e] > 0 <==> e in dead;
    CountAfter(multiset(before), multiset(Matching(news, masks, req)), multiset(dead), e);
  }

  lemma CountAfter(b: multiset<Entity>, m: multiset<Entity>, d: multiset<Entity>, e: Entity)
    requires d[e] <= 1
    ensures ((b + m) - d)[e] ==
      if d[e] == 1 then (if b[e] + m[e] > 0 then b[e] + m[e] - 1 else 0) else b[e] + m[e]
  {
  }

  /** A new entity that is not also killed joins every system whose
      required mask its mask contains. */
  lemma UpdateListsNewEntity<V>(r: Registry<V>, r': Registry<V>, k: SystemKind, e: Entity)
    requires Valid(r) && k in r.systems
    requires Update(r) == Ok(r')
    requires e in r.newEntities && e !in r.deadEntities
    requires Contains(r.masks[e.id], r.systems[k].mask)
    ensures k in r'.systems && e in r'.systems[k].entities
  {
    UpdateCount(r, r', k, e);
  }

  /** A killed entity that a system did not list before the update is not
      listed after it, even when it was created in the same frame. */
  lemma UpdateDropsDeadEntity<V>(r: Registry<V>, r': Registry<V>, k: SystemKind, e: Entity)
    requires Valid(r) && k in r.systems
    requires Update(r) == Ok(r')
    requires e in r.deadEntities && e !in r.systems[k].entities
    ensures k in r'.systems && e !in r'.systems[k].entities
  {
    UpdateCount(r, r', k, e);
  }

  /** Every pool loses the killed ids and only them; every other entity
      keeps its component values. */
  lemma UpdatePools<V>(r: Registry<V>, r': Registry<V>)
    requires Valid(r)
    requires Update(r) == Ok(r')
    ensures r'.pools.Keys == r.pools.Keys
    ensures forall t :: t in r.pools ==>
      r'.pools[t].entityToIndex.Keys == r.pools[t].entityToIndex.Keys - DeadIds(r)
    ensures forall t :: t in r.pools ==>
      Pools.Contents(r'.pools[t]) == Pools.Contents(r.pools[t]) - DeadIds(r)
  {
    var r1 := AdmitNew(r);
    var dead := Sorted(r.deadEntities);
    SortedInRange(r.masks, r.deadEntities);
    assert r' == PurgeAll(r1, dead).value.(deadEntities := {});
    PurgeAllPools(r1, dead);
    IdSetSorted(r.deadEntities);
  }

  /** The killed ids' masks are empty; every other mask is unchanged. */
  lemma UpdateMasks<V>(r: Registry<V>, r': Registry<V>)
    requires Valid(r)
    requires Update(r) == Ok(r')
    ensures |r'.masks| == |r.masks|
    ensures forall i :: 0 <= i < |r.masks| && i in DeadIds(r) ==> forall j: nat :: !Has(r'.masks[i], j)
    ensures forall i :: 0 <= i < |r.masks| && i !in DeadIds(r) ==> r'.masks[i] == r.masks[i]
  {
    var r1 := AdmitNew(r);
    var dead := Sorted(r.deadEntities);
    SortedInRange(r.masks, r.deadEntities);
    assert r' == PurgeAll(r1, dead).value.(deadEntities := {});
    PurgeAllMasks(r1, dead);
    IdSetSorted(r.deadEntities);
  }

  /** The killed ids join the back of the recycled ids in ascending order. */
  lemma UpdateRecycles<V>(r: Registry<V>, r': Registry<V>)
    requires Valid(r)
    requires Update(r) == Ok(r')
    ensures r'.availableIds == r.availableIds + Ids(Sorted(r.deadEntities))
  {
    var r1 := AdmitNew(r);
    var dead := Sorted(r.deadEntities);
    SortedInRange(r.masks, r.deadEntities);
    assert r' == PurgeAll(r1, dead).value.(deadEntities := {});
    PurgeAllRecycles(r1, dead);
  }

  /** The killed entities lose their reverse entries, and each group loses
      exactly the killed entities recorded under it. */
  lemma UpdateUngroups<V>(r: Registry<V>, r': Registry<V>)
    requires Valid(r)
    requires Update(r) == Ok(r')
    ensures r'.groups.groupsPerEntity == r.groups.groupsPerEntity - DeadIds(r)
    ensures r'.groups.entitiesPerGroup.Keys == r.groups.entitiesPerGroup.Keys
    ensures forall n :: n in r.groups.entitiesPerGroup ==>
      r'.groups.entitiesPerGroup[n] == r.groups.entitiesPerGroup[n] -
        (set x | x in r.deadEntities && x.id in r.groups.groupsPerEntity && r.groups.groupsPerEntity[x.id] == n)
  {
    var r1 := AdmitNew(r);
    var dead := Sorted(r.deadEntities);
    SortedInRange(r.masks, r.deadEntities);
    assert r' == PurgeAll(r1, dead).value.(deadEntities := {});
    PurgeAllUngroups(r1, dead);
    UngroupSorted(r.groups, r.deadEntities);
  }

  /** Ungrouping a set's sorted listing, stated over the set. */
  lemma UngroupSorted(g: GroupIndex, s: set<Entity>)
    ensures var r := UngroupEach(g, Sorted(s));
      && r.groupsPerEntity == g.groupsPerEntity - (set e | e in s :: e.id)
      && r.entitiesPerGroup.Keys == g.entitiesPerGroup.Keys
      && forall n :: n in g.entitiesPerGroup ==>
        r.entitiesPerGroup[n] == g.entitiesPerGroup[n] -
          (set x | x in s && x.id in g.groupsPerEntity && g.groupsPerEntity[x.id] == n)
  {
    var xs := Sorted(s);
    assert (set x | x in xs :: x.id) == (set e | e in s :: e.id);
    forall n | n in g.entitiesPerGroup
      ensures Departing(g, xs, n) == (set x | x in s && x.id in g.groupsPerEntity && g.groupsPerEntity[x.id] == n)
    {
    }
  }

  /** A killed entity no longer belongs to the group recorded for it once
      the update has run. */
  lemma UpdateLeavesGroup<V>(r: Registry<V>, r': Registry<V>, e: Entity, n: string)
    requires Valid(r)
    requires Update(r) == Ok(r')
    requires e in r.deadEntities && e.id in r.groups.groupsPerEntity && r.groups.groupsPerEntity[e.id] == n
    ensures !EntityBelongsToGroup(r'.groups, e, n)
  {
    UpdateUngroups(r, r');
  }

  /** Group an ungrouped entity, kill it, update: the group no longer
      contains it. */
  lemma GroupKillUpdate<V>(r: Registry<V>, e: Entity, n: string)
    requires Valid(r) && e.id !in r.groups.groupsPerEntity
    requires forall d :: d in r.deadEntities ==> 0 <= d.id < |r.masks|
    requires 0 <= e.id < |r.masks|
    ensures var r1 := KillEntity(r.(groups := GroupEntity(r.groups, e, n)), e);
      && EntityBelongsToGroup(r1.groups, e, n)
      && Update(r1).Ok?
      && !EntityBelongsToGroup(Update(r1).value.groups, e, n)
  {
    var r1 := KillEntity(r.(groups := GroupEntity(r.groups, e, n)), e);
    assert Valid(r1);
    UpdateLeavesGroup(r1, Update(r1).value, e, n);
  }

  /** Kill, update, create: with no other recycled id and no other kill,
      the next entity reuses the killed id, with an empty mask and in no
      pool. */
  lemma KillUpdateCreateReusesId<V>(r: Registry<V>, e: Entity)
    requires Valid(r) && r.availableIds == [] && r.deadEntities == {}
    requires 0 <= e.id < |r.masks|
    ensures Update(KillEntity(r, e)).Ok?
    ensures var r2 := Update(KillEntity(r, e)).value;
      var (e', r3) := CreateEntity(r2);
      && e' == e
      && r3.availableIds == []
      && 0 <= e.id < |r3.masks|
      && (forall j: nat :: !Has(r3.masks[e.id], j))
      && (forall t :: t in r3.pools ==> e.id !in r3.pools[t].entityToIndex)
  {
    var rk := KillEntity(r, e);
    assert Valid(rk) && rk.deadEntities == {e};
    var r2 := Update(rk).value;
    KillThenUpdate(rk, r2, e);
    CreateReusesFront(r2);
  }

  /** Updating with `e` the only kill and no recycled ids leaves `e.id` the
      only recycled id, with an empty mask and in no pool. */
  lemma KillThenUpdate<V>(r: Registry<V>, r': Registry<V>, e: Entity)
    requires Valid(r) && r.availableIds == [] && r.deadEntities == {e}
    requires Update(r) == Ok(r')
    ensures r'.availableIds == [e.id]
    ensures 0 <= e.id < |r'.masks| && forall j: nat :: !Has(r'.masks[e.id], j)
    ensures forall t :: t in r'.pools ==> e.id !in r'.pools[t].entityToIndex
  {
    var dead := Sorted(r.deadEntities);
    assert dead == [e];
    assert Ids(dead) == [e.id];
    UpdateRecycles(r, r');
    UpdateMasks(r, r');
    UpdatePools(r, r');
    assert e.id in DeadIds(r);
  }

  /** With recycled ids queued, create hands out the front one and leaves
      the masks alone. */
  lemma CreateReusesFront<V>(r: Registry<V>)
    requires |r.availableIds| > 0
    ensures CreateEntity(r).0 == Entity(r.availableIds[0])
    ensures CreateEntity(r).1.availableIds == r.availableIds[1..]
    ensures CreateEntity(r).1.masks == r.masks && CreateEntity(r).1.pools == r.pools
  {
  }
}
