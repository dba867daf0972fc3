/** The Registry: per-entity component masks, one pool per component type,
    the systems keyed by their type, the pending creations and kills, the
    recycled ids and the named groups (src/ecs/Registry.hpp,
    src/ecs/ecs.inl, src/2d_engine/ecs.cpp, src/2d_engine/ecs.hpp).

    The two copies of the ECS differ only in the mask width (8 for jbx,
    16 for cv), which is a field here. Component payloads are one opaque
    type `V`; the source's per-type `Pool<T>` behind a type-erased pointer
    becomes a pool of `V` keyed by the component type id. Systems are
    keyed by a `SystemKind` instead of `std::type_index`. */
module Ecs {
  import opened Faults
  import opened Entities
  import opened ComponentMask
  import opened ComponentTypes
  import Pools
  import opened Systems
  import opened Groups

  /** The engine's concrete system types. */
  datatype SystemKind = BasicVelocity | RectRenderer | TextureRenderer | TextRenderer

  datatype Registry<V> = Registry(
    width: nat,                            // bits of Component_Mask = MAX_COMPONENT_TYPES
    types: TypeIds,                        // Base_Component::next_id and each type's id
    numEntities: nat,
    pools: map<nat, Pools.Pool<V>>,        // component_pools; a missing key is a null pointer
    masks: seq<Mask>,                      // component_masks, indexed by entity id
    systems: map<SystemKind, System>,
    newEntities: set<Entity>,
    deadEntities: set<Entity>,
    groups: GroupIndex,                    // entities_per_group, groups_per_entity
    availableIds: seq<int>)                // the recycled-id deque, front first

  /** A default-constructed registry over masks of `width` bits. */
  function New<V>(width: nat): (r: Registry<V>)
    ensures Valid(r) && Consistent(r)
    ensures r.width == width && r.numEntities == 0 && r.masks == []
  {
    Registry(width, Unassigned, 0, map[], [], map[], {}, {}, NoGroups, [])
  }

  /** Shape facts that every registry reachable from New keeps: the
      containers agree on sizes and widths, and each pool is well formed. */
  ghost predicate Valid<V>(r: Registry<V>)
  {
    && |r.masks| == r.numEntities
    && (forall i :: 0 <= i < |r.masks| ==> r.masks[i].Width() == r.width)
    && (forall k :: k in r.systems ==> r.systems[k].mask.Width() == r.width)
    && (forall t :: t in r.pools ==> t < r.width && Pools.Valid(r.pools[t]))
    && ComponentTypes.Valid(r.types)
    && (forall i :: 0 <= i < |r.availableIds| ==> 0 <= r.availableIds[i] < r.numEntities)
    && (forall e :: e in r.newEntities ==> 0 <= e.id < r.numEntities)
  }

  /** The masks reflect the pools: an entity's bit for a type is set
      exactly when that type's pool holds the entity. */
  ghost predicate Consistent<V>(r: Registry<V>)
  {
    MasksMatchPools(r.pools, r.masks)
  }

  ghost predicate MasksMatchPools<V>(pools: map<nat, Pools.Pool<V>>, masks: seq<Mask>)
  {
    && (forall t: nat :: t in pools ==> forall x: int :: x in pools[t].entityToIndex ==>
          0 <= x < |masks| && Has(masks[x], t))
    && (forall t: nat, x :: 0 <= x < |masks| && Has(masks[x], t) ==>
          t in pools && x in pools[t].entityToIndex)
  }

  /** Appending empty masks keeps masks and pools in step. */
  lemma AppendEmptyMasksMatch<V>(pools: map<nat, Pools.Pool<V>>, masks: seq<Mask>, extra: seq<Mask>)
    requires MasksMatchPools(pools, masks)
    requires forall i :: 0 <= i < |extra| ==> forall j: nat :: !Has(extra[i], j)
    ensures MasksMatchPools(pools, masks + extra)
  {
    var all := masks + extra;
    forall t: nat | t in pools
      ensures forall x: int :: x in pools[t].entityToIndex ==> 0 <= x < |all| && Has(all[x], t)
    {
      forall x: int | x in pools[t].entityToIndex
        ensures 0 <= x < |all| && Has(all[x], t)
      {
        assert all[x] == masks[x];
      }
    }
    forall t: nat, x | 0 <= x < |all| && Has(all[x], t)
      ensures t in pools && x in pools[t].entityToIndex
    {
      if x < |masks| {
        assert all[x] == masks[x];
      }
    }
  }

  /** The id `get_type_id` yields for a type: its stored one or the next free one. */
  function IdFor(t: TypeIds, k: ComponentKind): nat
  {
    if k in t.ids then t.ids[k] else t.next
  }

  /** `create_entity`: the front of the recycled ids if there is one, else
      `num_entities`, which then grows along with the mask array. The
      entity is only queued as new; no system sees it yet. */
  function CreateEntity<V>(r: Registry<V>): (out: (Entity, Registry<V>))
    ensures |r.availableIds| == 0 ==>
      && out.0.id == r.numEntities
      && out.1.numEntities == r.numEntities + 1
      && 0 <= out.0.id < |out.1.masks|
      && out.1.availableIds == r.availableIds
    ensures |r.availableIds| == 0 && |r.masks| <= r.numEntities ==>
      out.1.masks == r.masks + seq(r.numEntities + 1 - |r.masks|, _ => Empty(r.width))
    ensures |r.availableIds| > 0 ==>
      && out.0.id == r.availableIds[0]
      && out.1.availableIds == r.availableIds[1..]
      && out.1.numEntities == r.numEntities
      && out.1.masks == r.masks
    ensures out.1.newEntities == r.newEntities + {out.0}
    ensures out.1.systems == r.systems && out.1.pools == r.pools
    ensures out.1.deadEntities == r.deadEntities && out.1.groups == r.groups
    ensures out.1.types == r.types && out.1.width == r.width
  {
    if |r.availableIds| == 0 then
      var id := r.numEntities;
      var masks := if id >= |r.masks| then r.masks + seq(id + 1 - |r.masks|, _ => Empty(r.width)) else r.masks;
      (Entity(id), r.(numEntities := id + 1, masks := masks, newEntities := r.newEntities + {Entity(id)}))
    else
      var id := r.availableIds[0];
      (Entity(id), r.(availableIds := r.availableIds[1..], newEntities := r.newEntities + {Entity(id)}))
  }

  /** `create_entity` keeps the registry well formed and the masks in step
      with the pools; the handed-out id is in range. */
  lemma CreateEntityPreserves<V>(r: Registry<V>)
    requires Valid(r) && Consistent(r)
    ensures Valid(CreateEntity(r).1) && Consistent(CreateEntity(r).1)
    ensures 0 <= CreateEntity(r).0.id < |CreateEntity(r).1.masks|
  {
    var r' := CreateEntity(r).1;
    if |r.availableIds| == 0 {
      var extra := seq(r.numEntities + 1 - |r.masks|, _ => Empty(r.width));
      assert r'.masks == r.masks + extra;
      AppendEmptyMasksMatch(r.pools, r.masks, extra);
      assert forall i :: 0 <= i < |r'.masks| ==> r'.masks[i].Width() == r.width by {
        forall i | 0 <= i < |r'.masks| ensures r'.masks[i].Width() == r.width {
          if i >= |r.masks| { assert r'.masks[i] == extra[i - |r.masks|]; }
        }
      }
    } else {
      assert forall i :: 0 <= i < |r'.availableIds| ==> r'.availableIds[i] == r.availableIds[i + 1];
    }
  }

  /** `kill_entity`: only queues the entity; pools, masks and systems are
      untouched until the next update. */
  function KillEntity<V>(r: Registry<V>, e: Entity): (r': Registry<V>)
    ensures r'.deadEntities == r.deadEntities + {e}
    ensures r'.pools == r.pools && r'.masks == r.masks && r'.systems == r.systems
    ensures r'.newEntities == r.newEntities && r'.availableIds == r.availableIds
    ensures r'.groups == r.groups && r'.numEntities == r.numEntities
    ensures Valid(r) ==> Valid(r')
    ensures Consistent(r) ==> Consistent(r')
  {
    r.(deadEntities := r.deadEntities + {e})
  }

  /** `add_component<T>(e, v)`: the type's id is looked up (assigned on
      first use) and refused at or past the mask width; the rest is
      Attach. */
  function AddComponent<V>(r: Registry<V>, e: Entity, k: ComponentKind, v: V): (res: Result<Registry<V>>)
    requires Valid(r)
    ensures IdFor(r.types, k) >= r.width ==> res == Fail(TypeCapacityExceeded)
    ensures IdFor(r.types, k) < r.width && e.id < 0 ==> res == Fail(NegativeEntityId)
    ensures IdFor(r.types, k) < r.width && e.id >= |r.masks| ==> res == Fail(EntityOutOfRange)
    ensures res.Ok? <==> IdFor(r.types, k) < r.width && 0 <= e.id < |r.masks|
    ensures res.Ok? ==> Valid(res.value)
    ensures res.Ok? ==> k in res.value.types.ids && res.value.types.ids[k] == IdFor(r.types, k)
    ensures res.Ok? ==> 0 <= e.id < |res.value.masks| && Has(res.value.masks[e.id], IdFor(r.types, k))
  {
    match GetTypeId(r.types, k, r.width)
    case Fail(f) => Fail(f)
    case Ok(a) =>
      if a.id >= r.width then Fail(TypeCapacityExceeded)
      else
        GetTypeIdPreservesValid(r.types, k, r.width);
        Attach(r, a.types, a.id, e, v)
  }

  /** The body of `add_component` once the type id `id` is known: the
      type's pool is created on first use and `v` is upserted for the
      entity (Pool::set, which refuses a negative id); an entity outside
      the mask array is refused; then Install. */
  function Attach<V>(r: Registry<V>, types: TypeIds, id: nat, e: Entity, v: V): (res: Result<Registry<V>>)
    requires Valid(r) && ComponentTypes.Valid(types) && id < r.width
    ensures e.id < 0 ==> res == Fail(NegativeEntityId)
    ensures e.id >= |r.masks| ==> res == Fail(EntityOutOfRange)
    ensures res.Ok? <==> 0 <= e.id < |r.masks|
    ensures res.Ok? ==> Valid(res.value) && res.value.types == types
    ensures res.Ok? ==>
      && id in res.value.pools
      && Pools.Contents(res.value.pools[id]) ==
           (if id in r.pools then Pools.Contents(r.pools[id]) else map[])[e.id := v]
      && res.value.pools[id].entityToIndex.Keys ==
           (if id in r.pools then r.pools[id].entityToIndex.Keys else {}) + {e.id}
    ensures res.Ok? ==>
      && (forall t :: t != id ==> (t in res.value.pools <==> t in r.pools))
      && (forall t :: t in r.pools && t != id ==> res.value.pools[t] == r.pools[t])
      && |res.value.masks| == |r.masks|
      && (forall j: nat :: Has(res.value.masks[e.id], j) <==> Has(r.masks[e.id], j) || j == id)
      && (forall x :: 0 <= x < |r.masks| && x != e.id ==> res.value.masks[x] == r.masks[x])
      && Unrelated(r, res.value)
  {
    if e.id < 0 then Fail(NegativeEntityId)
    else if e.id >= |r.masks| then Fail(EntityOutOfRange)
    else
      var q := PoolFor(r.pools, id);
      var p := Pools.Set(q, e.id, v).value;
      assert p.entityToIndex.Keys == q.entityToIndex.Keys + {e.id};
      Ok(Install(r, types, id, p, e.id, Add(r.masks[e.id], id)))
  }

  /** The parts of the registry a component operation leaves alone. */
  predicate Unrelated<V>(r: Registry<V>, r': Registry<V>)
  {
    && r'.systems == r.systems
    && r'.newEntities == r.newEntities && r'.deadEntities == r.deadEntities
    && r'.availableIds == r.availableIds && r'.groups == r.groups
    && r'.numEntities == r.numEntities && r'.width == r.width
  }

  /** Stores new type ids, pool `p` for type `id` and mask `m` for entity
      `x`; the result is well formed and nothing else changes. */
  function Install<V>(r: Registry<V>, types: TypeIds, id: nat, p: Pools.Pool<V>, x: int, m: Mask): (r': Registry<V>)
    requires Valid(r) && ComponentTypes.Valid(types)
    requires id < r.width && Pools.Valid(p)
    requires 0 <= x < |r.masks| && m.Width() == r.width
    ensures Valid(r') && r'.types == types
    ensures id in r'.pools && r'.pools[id] == p
    ensures forall t :: t != id ==> (t in r'.pools <==> t in r.pools)
    ensures forall t :: t in r.pools && t != id ==> r'.pools[t] == r.pools[t]
    ensures |r'.masks| == |r.masks| && r'.masks[x] == m
    ensures forall i :: 0 <= i < |r.masks| && i != x ==> r'.masks[i] == r.masks[i]
    ensures Unrelated(r, r')
  {
    UpdateKeepsValid(r, types, id, p, x, m);
    r.(types := types, pools := r.pools[id := p], masks := r.masks[x := m])
  }

  /** The pool of type `id`, created empty with the default capacity
      when the type has none yet. */
  function PoolFor<V>(pools: map<nat, Pools.Pool<V>>, id: nat): (p: Pools.Pool<V>)
    requires forall t :: t in pools ==> Pools.Valid(pools[t])
    ensures Pools.Valid(p)
    ensures id in pools ==> p == pools[id]
    ensures id !in pools ==> p.entityToIndex == map[] && Pools.Contents(p) == map[]
    ensures p.entityToIndex.Keys == if id in pools then pools[id].entityToIndex.Keys else {}
  {
    if id in pools then pools[id]
    else
      var p: Pools.Pool<V> := Pools.New(Pools.DefaultCapacity);
      assert p.entityToIndex.Keys == {};
      p
  }

  /** `remove_component<T>(e)` as written: refused for a type id at or past
      the width and for an entity id outside the mask array (the size_t
      comparison also catches negative ids); then `Pool::remove`, which is
      fatal on an empty pool and is not guarded against an entity the
      pool does not hold; then the type's bit is cleared. */
  function RemoveComponent<V>(r: Registry<V>, e: Entity, k: ComponentKind): (res: Result<Registry<V>>)
    requires Valid(r)
    ensures IdFor(r.types, k) >= r.width ==> res == Fail(TypeCapacityExceeded)
    ensures IdFor(r.types, k) < r.width && !(0 <= e.id < |r.masks|) ==> res == Fail(EntityOutOfRange)
    ensures res.Ok? <==>
      var id := IdFor(r.types, k);
      id < r.width && 0 <= e.id < |r.masks| && id in r.pools && r.pools[id].size > 0
    ensures IdFor(r.types, k) < r.width && 0 <= e.id < |r.masks| && IdFor(r.types, k) !in r.pools ==>
      res == Fail(PoolMissing)
    ensures var id := IdFor(r.types, k);
      id < r.width && 0 <= e.id < |r.masks| && id in r.pools && r.pools[id].size == 0 ==>
        res == Fail(PoolEmpty)
    ensures res.Ok? ==>
      var id := IdFor(r.types, k);
      var r' := res.value;
      && r'.pools == r.pools[id := Pools.Remove(r.pools[id], e.id).value]
      && r'.masks == r.masks[e.id := Remove(r.masks[e.id], id)]
      && (forall j: nat :: Has(r'.masks[e.id], j) <==> Has(r.masks[e.id], j) && j != id)
      && r'.systems == r.systems
      && r'.newEntities == r.newEntities && r'.deadEntities == r.deadEntities
      && r'.availableIds == r.availableIds && r'.groups == r.groups
  {
    match GetTypeId(r.types, k, r.width)
    case Fail(f) => Fail(f)
    case Ok(a) =>
      if a.id >= r.width then Fail(TypeCapacityExceeded)
      else if e.id < 0 || e.id >= |r.masks| then Fail(EntityOutOfRange)
      else if a.id !in r.pools then Fail(PoolMissing)
      else
        match Pools.Remove(r.pools[a.id], e.id)
        case Fail(f) => Fail(f)
        case Ok(p) =>
          Ok(r.(types := a.types,
                pools := r.pools[a.id := p],
                masks := r.masks[e.id := Remove(r.masks[e.id], a.id)]))
  }

  /** `remove_component<T>(e)` as its comment says it is meant to behave:
      removing a component the entity does not have only clears the bit.
      The pool removal is the guarded `remove_entity_from_pool`. */
  function RemoveComponentGuarded<V>(r: Registry<V>, e: Entity, k: ComponentKind): (res: Result<Registry<V>>)
    requires Valid(r)
    ensures res.Ok? <==> IdFor(r.types, k) < r.width && 0 <= e.id < |r.masks|
    ensures IdFor(r.types, k) >= r.width ==> res == Fail(TypeCapacityExceeded)
    ensures res.Fail? && IdFor(r.types, k) < r.width ==> res.fault == EntityOutOfRange
    ensures res.Ok? ==> Valid(res.value)
    ensures res.Ok? ==> k in res.value.types.ids && res.value.types.ids[k] == IdFor(r.types, k)
    ensures res.Ok? ==> 0 <= e.id < |res.value.masks| && !Has(res.value.masks[e.id], IdFor(r.types, k))
  {
    match GetTypeId(r.types, k, r.width)
    case Fail(f) => Fail(f)
    case Ok(a) =>
      if a.id >= r.width then Fail(TypeCapacityExceeded)
      else
        GetTypeIdPreservesValid(r.types, k, r.width);
        Detach(r, a.types, a.id, e)
  }

  /** The guarded removal once the type id `id` is known: the entity's
      entry leaves the type's pool if it has one there, and bit `id` of
      its mask is cleared. */
  function Detach<V>(r: Registry<V>, types: TypeIds, id: nat, e: Entity): (res: Result<Registry<V>>)
    requires Valid(r) && ComponentTypes.Valid(types) && id < r.width
    ensures res.Ok? <==> 0 <= e.id < |r.masks|
    ensures res.Fail? ==> res.fault == EntityOutOfRange
    ensures res.Ok? ==> Valid(res.value) && res.value.types == types
    ensures res.Ok? ==>
      && (forall t :: t in res.value.pools <==> t in r.pools)
      && (forall t :: t in r.pools && t != id ==> res.value.pools[t] == r.pools[t])
      && (id in r.pools ==>
            && Pools.Contents(res.value.pools[id]) == Pools.Contents(r.pools[id]) - {e.id}
            && res.value.pools[id].entityToIndex.Keys == r.pools[id].entityToIndex.Keys - {e.id})
    ensures res.Ok? ==>
      && |res.value.masks| == |r.masks|
      && (forall j: nat :: Has(res.value.masks[e.id], j) <==> Has(r.masks[e.id], j) && j != id)
      && (forall x :: 0 <= x < |r.masks| && x != e.id ==> res.value.masks[x] == r.masks[x])
      && Unrelated(r, res.value)
  {
    if e.id < 0 || e.id >= |r.masks| then Fail(EntityOutOfRange)
    else
      var m := Remove(r.masks[e.id], id);
      if id in r.pools then
        var p := Pools.RemoveEntityFromPool(r.pools[id], e.id);
        Ok(Install(r, types, id, p, e.id, m))
      else
        Ok(InstallMask(r, types, e.id, m))
  }

  /** Stores new type ids and mask `m` for entity `x`, leaving the pools. */
  function InstallMask<V>(r: Registry<V>, types: TypeIds, x: int, m: Mask): (r': Registry<V>)
    requires Valid(r) && ComponentTypes.Valid(types)
    requires 0 <= x < |r.masks| && m.Width() == r.width
    ensures Valid(r') && r'.types == types && r'.pools == r.pools
    ensures |r'.masks| == |r.masks| && r'.masks[x] == m
    ensures forall i :: 0 <= i < |r.masks| && i != x ==> r'.masks[i] == r.masks[i]
    ensures Unrelated(r, r')
  {
    r.(types := types, masks := r.masks[x := m])
  }

  /** `get_component<T>(e)`: fatal unless the entity's mask has T's bit;
      then the value in T's pool. The two pool faults cannot occur in a
      consistent registry (see GetComponentInConsistent). */
  function GetComponent<V>(r: Registry<V>, e: Entity, k: ComponentKind): (res: Result<V>)
    requires Valid(r)
    ensures res.Ok? ==> 0 <= e.id < |r.masks| && Has(r.masks[e.id], IdFor(r.types, k))
    ensures IdFor(r.types, k) > r.width ==> res == Fail(TypeCapacityExceeded)
    ensures IdFor(r.types, k) <= r.width && !(0 <= e.id < |r.masks|) ==> res == Fail(EntityOutOfRange)
    ensures IdFor(r.types, k) <= r.width && 0 <= e.id < |r.masks| && !Has(r.masks[e.id], IdFor(r.types, k)) ==>
      res == Fail(ComponentMissing)
    ensures res.Ok? ==>
      var id := IdFor(r.types, k);
      id in r.pools && e.id in Pools.Contents(r.pools[id]) && Pools.Contents(r.pools[id])[e.id] == res.value
  {
    match GetTypeId(r.types, k, r.width)
    case Fail(f) => Fail(f)
    case Ok(a) =>
      if e.id < 0 || e.id >= |r.masks| then Fail(EntityOutOfRange)
      else if !Has(r.masks[e.id], a.id) then Fail(ComponentMissing)
      else if a.id !in r.pools then Fail(PoolMissing)
      else if e.id !in r.pools[a.id].entityToIndex then Fail(NotInPool)
      else Ok(Pools.Get(r.pools[a.id], e.id))
  }

  /** `add_system<S>`: `unordered_map::insert`, so a system of a kind
      already present is dropped and the first instance stays. */
  function AddSystem<V>(r: Registry<V>, kind: SystemKind, s: System): (r': Registry<V>)
    ensures kind in r'.systems
    ensures kind in r.systems ==> r'.systems[kind] == r.systems[kind]
    ensures kind !in r.systems ==> r'.systems[kind] == s
    ensures forall k :: k != kind ==> (k in r'.systems <==> k in r.systems)
    ensures forall k :: k != kind && k in r.systems ==> r'.systems[k] == r.systems[k]
    ensures r'.pools == r.pools && r'.masks == r.masks && r'.newEntities == r.newEntities
    ensures r'.deadEntities == r.deadEntities && r'.availableIds == r.availableIds
    ensures r'.groups == r.groups && r'.types == r.types
    ensures r'.numEntities == r.numEntities && r'.width == r.width
    ensures Valid(r) && s.mask.Width() == r.width ==> Valid(r')
    ensures Consistent(r) ==> Consistent(r')
  {
    if kind in r.systems then r else r.(systems := r.systems[kind := s])
  }

  /** `get_system<S>`: the stored instance; dereferencing `end()` for a
      kind never added is a failure. */
  function GetSystem<V>(r: Registry<V>, kind: SystemKind): (res: Result<System>)
    ensures res.Ok? <==> kind in r.systems
    ensures res.Ok? ==> res.value == r.systems[kind]
    ensures res.Fail? ==> res.fault == SystemMissing
  {
    if kind in r.systems then Ok(r.systems[kind]) else Fail(SystemMissing)
  }

  /** Entity `x` is held by the pool of type `t`. */
  ghost predicate InPool<V>(pools: map<nat, Pools.Pool<V>>, t: nat, x: int)
  {
    t in pools && x in pools[t].entityToIndex
  }

  /** Changing one type's pool and one entity's mask keeps the two in step
      as long as they change together. */
  lemma ReplaceOneMatches<V>(pools: map<nat, Pools.Pool<V>>, masks: seq<Mask>, id: nat,
                             pools': map<nat, Pools.Pool<V>>, x0: int, m: Mask)
    requires MasksMatchPools(pools, masks)
    requires 0 <= x0 < |masks|
    requires forall t :: t != id ==> (t in pools' <==> t in pools)
    requires forall t :: t != id && t in pools ==> pools'[t] == pools[t]
    requires forall x :: x != x0 ==> (InPool(pools', id, x) <==> InPool(pools, id, x))
    requires InPool(pools', id, x0) <==> Has(m, id)
    requires forall j: nat :: j != id ==> (Has(m, j) <==> Has(masks[x0], j))
    ensures MasksMatchPools(pools', masks[x0 := m])
  {
    var all := masks[x0 := m];
    assert |all| == |masks| && all[x0] == m;
    assert forall x :: 0 <= x < |masks| && x != x0 ==> all[x] == masks[x];
    forall t: nat | t in pools'
      ensures forall x: int :: x in pools'[t].entityToIndex ==> 0 <= x < |all| && Has(all[x], t)
    {
      forall x: int | x in pools'[t].entityToIndex
        ensures 0 <= x < |all| && Has(all[x], t)
      {
        assert InPool(pools', t, x);
        if t != id {
          assert pools'[t] == pools[t];
          assert x in pools[t].entityToIndex;
          assert 0 <= x < |masks| && Has(masks[x], t);
        } else if x != x0 {
          assert InPool(pools, id, x);
          assert x in pools[id].entityToIndex;
          assert 0 <= x < |masks| && Has(masks[x], id);
        } else {
          assert Has(m, id);
        }
      }
    }
    forall t: nat, x | 0 <= x < |all| && Has(all[x], t)
      ensures t in pools' && x in pools'[t].entityToIndex
    {
      if x != x0 {
        assert Has(masks[x], t);
        assert InPool(pools, t, x);
        if t == id {
          assert InPool(pools', id, x);
        } else {
          assert pools'[t] == pools[t];
        }
      } else if t == id {
        assert Has(m, id);
        assert InPool(pools', id, x0);
      } else {
        assert Has(masks[x0], t);
        assert InPool(pools, t, x0);
        assert pools'[t] == pools[t];
      }
    }
  }

  /** Replacing the type ids, one pool and one mask by well-formed ones of
      the same shape keeps the registry well formed. */
  lemma UpdateKeepsValid<V>(r: Registry<V>, types: TypeIds, id: nat, p: Pools.Pool<V>, x: int, m: Mask)
    requires Valid(r) && ComponentTypes.Valid(types)
    requires id < r.width && Pools.Valid(p)
    requires 0 <= x < |r.masks| && m.Width() == r.width
    ensures Valid(r.(types := types, pools := r.pools[id := p], masks := r.masks[x := m]))
  {
  }

  /** `add_component` keeps the masks in step with the pools. */
  lemma AddComponentConsistent<V>(r: Registry<V>, e: Entity, k: ComponentKind, v: V)
    requires Valid(r) && Consistent(r)
    requires AddComponent(r, e, k, v).Ok?
    ensures Consistent(AddComponent(r, e, k, v).value)
  {
    var r' := AddComponent(r, e, k, v).value;
    var id := IdFor(r.types, k);
    ReplaceOneMatches(r.pools, r.masks, id, r'.pools, e.id, r'.masks[e.id]);
    assert r'.masks == r.masks[e.id := r'.masks[e.id]];
  }

  /** A component just added is what `get_component` returns. */
  lemma AddGetRoundTrip<V>(r: Registry<V>, e: Entity, k: ComponentKind, v: V)
    requires Valid(r)
    requires AddComponent(r, e, k, v).Ok?
    ensures GetComponent(AddComponent(r, e, k, v).value, e, k) == Ok(v)
  {
    var r' := AddComponent(r, e, k, v).value;
    var id := IdFor(r.types, k);
    assert k in r'.types.ids && r'.types.ids[k] == id;
    assert GetTypeId(r'.types, k, r'.width) == Ok(Assigned(id, r'.types));
    assert Has(r'.masks[e.id], id);
    var p := r'.pools[id];
    Pools.ContentsKeys(p);
    assert e.id in p.entityToIndex;
    assert Pools.Get(p, e.id) == v;
  }

  /** In a consistent registry `get_component` fails only for the reasons
      its own guards name: an unusable type id, an entity outside the mask
      array, or a clear bit. The pool lookups after the guard always
      succeed. */
  lemma GetComponentInConsistent<V>(r: Registry<V>, e: Entity, k: ComponentKind)
    requires Valid(r) && Consistent(r)
    ensures GetComponent(r, e, k).Ok? <==>
      IdFor(r.types, k) <= r.width && 0 <= e.id < |r.masks| && Has(r.masks[e.id], IdFor(r.types, k))
    ensures GetComponent(r, e, k).Fail? ==>
      GetComponent(r, e, k).fault != PoolMissing && GetComponent(r, e, k).fault != NotInPool
  {
    var id := IdFor(r.types, k);
    if id <= r.width && 0 <= e.id < |r.masks| && Has(r.masks[e.id], id) {
      assert GetTypeId(r.types, k, r.width).Ok? && GetTypeId(r.types, k, r.width).value.id == id;
      HasMeansInPool(r.pools, r.masks, id, e.id);
      assert GetComponent(r, e, k).Ok?;
    }
  }

  /** The mask-to-pool half of MasksMatchPools at one entity and type. */
  lemma HasMeansInPool<V>(pools: map<nat, Pools.Pool<V>>, masks: seq<Mask>, t: nat, x: int)
    requires MasksMatchPools(pools, masks)
    requires 0 <= x < |masks| && Has(masks[x], t)
    ensures t in pools && x in pools[t].entityToIndex
  {
  }

  /** The guarded removal keeps the masks in step with the pools. */
  lemma RemoveComponentGuardedConsistent<V>(r: Registry<V>, e: Entity, k: ComponentKind)
    requires Valid(r) && Consistent(r)
    requires RemoveComponentGuarded(r, e, k).Ok?
    ensures Consistent(RemoveComponentGuarded(r, e, k).value)
  {
    var r' := RemoveComponentGuarded(r, e, k).value;
    var id := IdFor(r.types, k);
    assert r' == Detach(r, GetTypeId(r.types, k, r.width).value.types, id, e).value;
    if id !in r.pools {
      assert !Has(r.masks[e.id], id) by {
        if Has(r.masks[e.id], id) {
          HasMeansInPool(r.pools, r.masks, id, e.id);
        }
      }
    }
    ReplaceOneMatches(r.pools, r.masks, id, r'.pools, e.id, r'.masks[e.id]);
    assert r'.masks == r.masks[e.id := r'.masks[e.id]];
  }

  /** After the guarded removal `get_component` reports the component
      missing. */
  lemma RemoveThenGetIsMissing<V>(r: Registry<V>, e: Entity, k: ComponentKind)
    requires Valid(r)
    requires RemoveComponentGuarded(r, e, k).Ok?
    ensures GetComponent(RemoveComponentGuarded(r, e, k).value, e, k) == Fail(ComponentMissing)
  {
    var r' := RemoveComponentGuarded(r, e, k).value;
    assert IdFor(r'.types, k) == IdFor(r.types, k);
  }

  /** On its normal path, where the entity has the component, the
      `remove_component` the program runs is exactly the guarded removal,
      so every fact proved about RemoveComponentGuarded holds for it. */
  lemma AsWrittenAgreesWhenHeld<V>(r: Registry<V>, e: Entity, k: ComponentKind)
    requires Valid(r) && Consistent(r)
    requires IdFor(r.types, k) < r.width && 0 <= e.id < |r.masks|
    requires Has(r.masks[e.id], IdFor(r.types, k))
    ensures RemoveComponent(r, e, k).Ok?
    ensures RemoveComponent(r, e, k) == RemoveComponentGuarded(r, e, k)
  {
    HasMeansInPool(r.pools, r.masks, IdFor(r.types, k), e.id);
    RemovesAgreeOnHeld(r, e, k);
  }

  /** The two removals agree whenever the type's pool holds the entity. */
  lemma RemovesAgreeOnHeld<V>(r: Registry<V>, e: Entity, k: ComponentKind)
    requires Valid(r)
    requires IdFor(r.types, k) < r.width && 0 <= e.id < |r.masks|
    requires IdFor(r.types, k) in r.pools && e.id in r.pools[IdFor(r.types, k)].entityToIndex
    ensures RemoveComponent(r, e, k).Ok?
    ensures RemoveComponent(r, e, k) == RemoveComponentGuarded(r, e, k)
  {
    AsWrittenOnHeld(r, e, k);
    GuardedOnHeld(r, e, k);
  }

  /** The registry both removals produce for a held entity: new type ids,
      the entity gone from the type's pool, the type's bit cleared. */
  function HeldRemoval<V>(r: Registry<V>, e: Entity, k: ComponentKind): Registry<V>
    requires Valid(r)
    requires IdFor(r.types, k) < r.width && 0 <= e.id < |r.masks| && IdFor(r.types, k) in r.pools
  {
    var id := IdFor(r.types, k);
    r.(types := GetTypeId(r.types, k, r.width).value.types,
       pools := r.pools[id := Pools.RemoveEntityFromPool(r.pools[id], e.id)],
       masks := r.masks[e.id := Remove(r.masks[e.id], id)])
  }

  /** `remove_component` as written, on an entity its type's pool holds. */
  lemma AsWrittenOnHeld<V>(r: Registry<V>, e: Entity, k: ComponentKind)
    requires Valid(r)
    requires IdFor(r.types, k) < r.width && 0 <= e.id < |r.masks|
    requires IdFor(r.types, k) in r.pools && e.id in r.pools[IdFor(r.types, k)].entityToIndex
    ensures RemoveComponent(r, e, k) == Ok(HeldRemoval(r, e, k))
  {
    var pool := r.pools[IdFor(r.types, k)];
    assert Pools.Remove(pool, e.id) == Ok(Pools.RemoveEntityFromPool(pool, e.id));
  }

  /** The guarded removal, on an entity its type's pool holds. */
  lemma GuardedOnHeld<V>(r: Registry<V>, e: Entity, k: ComponentKind)
    requires Valid(r)
    requires IdFor(r.types, k) < r.width && 0 <= e.id < |r.masks|
    requires IdFor(r.types, k) in r.pools && e.id in r.pools[IdFor(r.types, k)].entityToIndex
    ensures RemoveComponentGuarded(r, e, k) == Ok(HeldRemoval(r, e, k))
  {
    var a := GetTypeId(r.types, k, r.width);
    assert a.Ok? && a.value.id == IdFor(r.types, k);
    GetTypeIdPreservesValid(r.types, k, r.width);
    assert RemoveComponentGuarded(r, e, k) == Detach(r, a.value.types, a.value.id, e);
  }

  /** The finding in `remove_component` as written: for an entity whose
      type's pool is non-empty but does not hold it, the call goes through
      and leaves a pool that breaks the registry's invariants. */
  lemma RemoveComponentAbsentBreaksRegistry<V>(r: Registry<V>, e: Entity, k: ComponentKind)
    requires Valid(r)
    requires IdFor(r.types, k) < r.width && 0 <= e.id < |r.masks|
    requires IdFor(r.types, k) in r.pools
    requires r.pools[IdFor(r.types, k)].size > 0
    requires e.id !in r.pools[IdFor(r.types, k)].entityToIndex
    ensures RemoveComponent(r, e, k).Ok?
    ensures !Valid(RemoveComponent(r, e, k).value)
  {
    var id := IdFor(r.types, k);
    Pools.RemoveAbsentBreaksValid(r.pools[id], e.id);
    var r' := RemoveComponent(r, e, k).value;
    assert r'.pools[id] == Pools.Remove(r.pools[id], e.id).value;
  }

  /** A second `add_system` of a kind already registered is dropped. */
  lemma AddSystemKeepsFirst<V>(r: Registry<V>, kind: SystemKind, s1: System, s2: System)
    requires kind !in r.systems
    ensures GetSystem(AddSystem(AddSystem(r, kind, s1), kind, s2), kind) == Ok(s1)
  {
  }

  /** Adding a component never touches a system's list, the pending
      sets, the recycled ids or the groups. */
  lemma AddComponentLeavesSystems<V>(r: Registry<V>, e: Entity, k: ComponentKind, v: V)
    requires Valid(r)
    requires AddComponent(r, e, k, v).Ok?
    ensures Unrelated(r, AddComponent(r, e, k, v).value)
  {
    var a := GetTypeId(r.types, k, r.width).value;
    GetTypeIdPreservesValid(r.types, k, r.width);
    assert AddComponent(r, e, k, v) == Attach(r, a.types, a.id, e, v);
  }

  /** The guarded removal never touches a system's list, the pending
      sets, the recycled ids or the groups (RemoveComponent states the
      same of the removal as written). */
  lemma RemoveComponentLeavesSystems<V>(r: Registry<V>, e: Entity, k: ComponentKind)
    requires Valid(r)
    requires RemoveComponentGuarded(r, e, k).Ok?
    ensures Unrelated(r, RemoveComponentGuarded(r, e, k).value)
  {
    var a := GetTypeId(r.types, k, r.width).value;
    GetTypeIdPreservesValid(r.types, k, r.width);
    assert RemoveComponentGuarded(r, e, k) == Detach(r, a.types, a.id, e);
  }
}
