# ECS registry model

A Dafny model of the entity-component-system (ECS) core of the CV engine,
plus two small pure helpers from around it. The ECS covers:

- **Component masks.** One bit per component type id.
- **Type ids.** Each component type gets an id on first use.
- **Pools.** Dense component storage with two inverse index maps and
  swap-removal.
- **Systems.** Entity lists with a required mask.
- **The Registry.** Entity creation with FIFO id recycling, deferred
  kills, the once-per-frame `update` reconciliation, component
  add/remove/get, system storage and named groups.

The helpers are the validation of `Engine_Config` and the asset path
resolver.

The repository holds two copies of the ECS:

- `jbx` in `src/ecs/*`, with an 8-bit mask;
- `cv` in `src/2d_engine/ecs.*`, with a 16-bit mask.

The model builds one Registry whose mask width is a field (`JbxWidth = 8`,
`CvWidth = 16`). Everything is immutable datatypes and pure functions.
Fatal `ERROR_IF`/`EXPECT` guards and undefined behaviour become `Fail`
results with a named `Fault`. The guards exist only in a build with
`PROJECT_ENABLE_LOGS` set (src/base.pch.hpp:42-48); the model is that
build.

Files, one Dafny module each:

| file | module | models |
|---|---|---|
| faults.dfy | Faults | `Fault`, `Result`, `Option` |
| entity.dfy | Entities | `Entity` and its comparisons; the ascending order a `std::set<Entity>` is walked in |
| mask.dfy | ComponentMask | `Component_Mask` |
| type_ids.dfy | ComponentTypes | `Component<T>::get_type_id` |
| pool.dfy | Pools | `Pool<T>` / `Entity_Pool<T>` |
| system.dfy | Systems | `Base_System` |
| groups.dfy | Groups | `entities_per_group`, `groups_per_entity` and the group operations |
| registry.dfy | Ecs | Registry state, create, kill, component and system operations |
| update.dfy | Reconcile | `Registry::update` |
| config.dfy | EngineConfig | `Engine_Config` validation |
| assets.dfy | Assets | `image_path` … `model_path_glb` |

Modelling choices:

- Component payloads are one opaque type `V`. Component types are the enum
  `ComponentKind` and system types are the enum `SystemKind`. These stand
  in for `std::type_index` keys and `static_pointer_cast`.
- A pool's slots are `seq<Option<T>>`. `None` is a default-constructed
  slot.
- `component_pools` is a map from type id to pool. A missing key is a
  null pointer.
- The pending sets are `set<Entity>`. `update` visits them in ascending
  id order (`Entities.Sorted`), as `std::set` iteration does.
- `add_system` keeps the first registration: the code calls
  `unordered_map::insert`, which keeps the existing entry.

## Model

| member | source | states |
|---|---|---|
| Entities.Equal | src/ecs/Entity.cpp:6-9 | `operator==` holds exactly for the same entity |
| Entities.Less | src/ecs/Entity.cpp:11-14 | `operator<` never holds between an entity and itself |
| Entities.Greater | src/ecs/Entity.cpp:16-19 | `operator>` is `operator<` with the operands swapped |
| Entities.Trichotomy | src/ecs/Entity.cpp:6-19 | for any two entities exactly one of `<`, `==`, `>` holds, and `>` is `<` reversed, so sets of entities dedupe by id |
| Entities.LessIsStrictOrder | src/ecs/Entity.cpp:11-14 | `<` is irreflexive and transitive |
| Entities.LessIsIdOrder | src/ecs/Entity.cpp:11-19 | `operator<` holds exactly when the first id is smaller and `operator>` exactly when it is larger |
| Entities.Sorted | src/2d_engine/ecs.cpp:113 | the listing of a set of entities has the set's size and members, in strictly ascending id order |
| Entities.SortedFollowsLess | src/2d_engine/ecs.cpp:113 | in the listing of a set one entity comes before another exactly when it is `<` the other, the order a `std::set<Entity>` walk takes |
| ComponentMask.Empty | src/ecs/Component.hpp:15 | a default mask has the given width and no bit set |
| ComponentMask.Has | src/ecs/Component.hpp:61-66 | `has<T>`: never true for an id at or past the width, as the `u8`/`u16` truncation gives |
| ComponentMask.HasReadsValue | src/ecs/Component.hpp:61-66 | `has<T>` is binary digit `id` of `get_value()`: the value is the lower digits (below 2^id), plus 2^id exactly when `has<T>`, plus a multiple of 2^(id+1) |
| ComponentMask.GetValue | src/ecs/Component_Mask.cpp:7-10 | the stored value fits the mask's width, and no other mask of that width stores it |
| ComponentMask.ValueOfBound | src/ecs/Component.hpp:15 | a mask's value is below 2 to the width (256 for the `u8` mask) |
| ComponentMask.ValueOfInjective | src/ecs/Component_Mask.cpp:7-10 | masks of one width with the same value are the same mask |
| ComponentMask.Add | src/ecs/Component.hpp:68-73 | the result has exactly the original bits plus T's bit (an id at or past the width sets nothing); the width is kept |
| ComponentMask.Remove | src/ecs/Component.hpp:75-80 | the result has exactly the original bits minus T's bit |
| ComponentMask.Reset | src/ecs/Component_Mask.cpp:12-15 | after reset the value is 0 and no bit is set |
| ComponentMask.And | src/ecs/Component_Mask.cpp:17-20 | the bitwise `&` in `contains`: a bit is set in the result exactly when it is set in both masks |
| ComponentMask.Contains | src/ecs/Component_Mask.cpp:17-20 | `contains(other)` holds exactly when every bit set in `other` is set in the mask |
| ComponentMask.ContainsIsSubset | src/ecs/Component_Mask.cpp:17-20 | `a.contains(b)` holds exactly when b's set bits are a subset of a's |
| ComponentMask.ContainsReflexiveAndEmpty | src/ecs/Component_Mask.cpp:17-20 | every mask contains itself and the empty mask |
| ComponentMask.ResetContainsOnlyEmpty | src/ecs/Component_Mask.cpp:12-20 | a reset mask contains the empty mask and no other |
| ComponentMask.ContainsTransitive | src/ecs/Component.cpp:17-20 | if a contains b and b contains c then a contains c |
| ComponentMask.AddIdempotent | src/ecs/Component.hpp:68-73 | a second `add<T>` leaves the mask as the first left it |
| ComponentMask.AddRemoveRoundTrip | src/ecs/Component.hpp:68-80 | `remove<T>` undoes `add<T>` on a mask without T, and `has<T>` is false after `remove<T>` |
| ComponentMask.AddKeepsContains | src/ecs/Component.hpp:68-73 | adding a bit never loses containment of a required mask |
| ComponentTypes.GetTypeId | src/ecs/Component.hpp:110-117 | a type seen before gets its recorded id; a new type gets the counter, which then advances; it fails exactly when that id exceeds the cap |
| ComponentTypes.GetTypeIdPreservesValid | src/ecs/Component.hpp:90-117 | handing out an id keeps the ids distinct and consecutive from 0 |
| ComponentTypes.TypeIdIsStable | src/ecs/Component.hpp:113 | asking again for a type returns the same id and changes nothing |
| ComponentTypes.DistinctTypesDistinctIds | src/ecs/Component.hpp:110-117 | two different component types get different ids |
| ComponentTypes.IdsFollowFirstUse | src/ecs/Component.hpp:90-117 | asking for distinct new types in turn gives the i-th one the counter plus i (so 0, 1, … from an empty table) as long as the cap allows, keeps the ids already handed out, and advances the counter by the number of types |
| ComponentTypes.CapCheckAdmitsIdEqualToMax | src/ecs/Component.hpp:114 | the cap check is `id > MAX`, so the id equal to the cap is handed out and handed out again |
| Pools.New | src/ecs/Pool.hpp:62-65 | a new pool is well formed, holds no entity, has size 0 and `capacity` slots |
| Pools.NewPoolSlots | src/2d_engine/ecs.hpp:167-169 | the default pool has 128 default-constructed slots and size 0 |
| Pools.SizeCountsEntities | src/ecs/Pool.hpp:84-94 | in a well-formed pool `size` is the number of mapped entities |
| Pools.Append | src/ecs/Pool.hpp:67-71 | `add` appends a slot owned by no entity and leaves what the pool stores unchanged |
| Pools.Set | src/ecs/Pool.hpp:73-96 | refused exactly for a negative id; otherwise the stored map gains or overwrites the entity's value, a held entity keeps its slot and size, a new one takes slot `size` and size grows by 1 |
| Pools.SetExistingKeepsOthers | src/ecs/Pool.hpp:79-81 | overwriting a held entity in place keeps the pool well formed and changes only its value |
| Pools.SetNewKeepsOthers | src/ecs/Pool.hpp:83-95 | appending a new entity at slot `size`, with the backing vector grown, keeps the pool well formed and adds only its value |
| Pools.Get | src/ecs/Pool.hpp:127-131 | `get` of a held entity is the value the pool stores for it |
| Pools.SetGetRoundTrip | src/ecs/Pool.hpp:75-131 | `get(e)` after `set(e, v)` is `v`, and every other held entity keeps its value |
| Pools.Remove | src/ecs/Pool.hpp:98-117 | fatal exactly on an empty pool; otherwise size drops by 1, the entity is unmapped, and a held entity's value leaves while every other value stays |
| Pools.RemovePresentKeepsOthers | src/ecs/Pool.hpp:104-116 | swap-removing a held entity keeps both maps inverse over the smaller slot range |
| Pools.RemoveKeepsOtherValues | src/ecs/Pool.hpp:104-116 | after `remove(e)` every other held entity, the moved last one included, keeps its value under `get` |
| Pools.RemoveLastSlotIsSelfSwap | src/ecs/Pool.hpp:104-116 | removing the entity in the last slot leaves the data as is and drops only its map entries |
| Pools.SetThenRemoveRestores | src/ecs/Pool.hpp:75-116 | `set` of a new entity then `remove` of it restores what the pool stores and its size |
| Pools.RemoveEntityFromPool | src/ecs/Pool.hpp:119-125 | a no-op for an entity the pool does not hold, otherwise exactly `remove`; the entity is gone afterwards |
| Pools.RemoveAbsentCorruptsPool | src/ecs/Pool.hpp:104-115 | a concrete pool where `remove` of an absent entity goes through and loses another entity's value |
| Pools.RemoveAbsentBreaksValid | src/ecs/Pool.hpp:104-116 | on any non-empty pool, `remove` of an absent entity goes through and leaves a malformed pool |
| Pools.Slot | src/2d_engine/ecs.hpp:234-240 | `operator[]` is fatal exactly for an index below 0 or at least the backing length, and otherwise returns that slot |
| Pools.SlotJbx | src/ecs/Pool.hpp:133-138 | the jbx `operator[]` as written, reading `data.size` as `data.size()`: it succeeds exactly for 0 < index < length, so slot 0 is refused |
| Pools.SlotReadsGet | src/ecs/Pool.hpp:127-138 | for every held entity, `operator[]` at its slot reads the value `get` returns, and the jbx `operator[]` refuses exactly the entity held in slot 0 |
| Systems.AddEntity | src/ecs/Base_System.cpp:11-14 | `add_entity` appends at the end without deduplicating and keeps the mask |
| Systems.FirstIndex | src/ecs/Base_System.cpp:18-22 | the position the loop stops at holds the entity, and no earlier position does |
| Systems.RemoveFirst | src/ecs/Base_System.cpp:16-27 | the result is the list with its first element equal to the entity erased and everything before and after it kept in order (the list itself when the entity is absent); one copy leaves the multiset |
| Systems.ErasesFirstIsUnique | src/ecs/Base_System.cpp:16-27 | the erase is determined: only one list is the input with its first occurrence of the entity removed |
| Systems.EraseEach | src/2d_engine/ecs.cpp:127-131 | erasing each of a list of entities in turn removes exactly their multiset from the list |
| Systems.RemoveEntity | src/ecs/Base_System.cpp:16-27 | `remove_entity` keeps the mask and erases the first occurrence only, the rest keeping its order |
| Systems.MaskIsFixed | src/ecs/Base_System.cpp:29-32 | `get_component_mask` is unchanged by adding or removing entities |
| Systems.GetComponentMask | src/ecs/Base_System.cpp:29-32 | `get_component_mask` returns the required mask the system was built with; MaskIsFixed shows add/remove never change it |
| Systems.AddThenRemove | src/ecs/Base_System.cpp:11-27 | `remove_entity` undoes `add_entity` for an entity not yet listed |
| Systems.RemoveSoleCopy | src/ecs/Base_System.cpp:16-27 | an entity listed at most once is not listed after `remove_entity` |
| Groups.GroupEntity | src/2d_engine/ecs.cpp:154-162 | the entity joins the group's set; a new group's set is exactly that entity; other groups are unchanged; the reverse entry is written only if the entity had none |
| Groups.EntityBelongsToGroup | src/2d_engine/ecs.cpp:164-172 | false for a group that does not exist |
| Groups.BelongsAfterGroup | src/2d_engine/ecs.cpp:154-172 | after grouping e under a name, an entity belongs to a group exactly when it did before or it is e and the group is that name |
| Groups.BelongsIffListed | src/2d_engine/ecs.cpp:164-178 | an entity belongs to a group exactly when the group exists and `get_entities_by_group` lists it |
| Groups.GetEntitiesByGroup | src/2d_engine/ecs.cpp:174-178 | fails exactly for an unknown group; otherwise lists the group's members in ascending id order |
| Groups.UngroupEntity | src/2d_engine/ecs.cpp:180-197 | the entity loses its reverse entry and leaves its recorded group; group names are kept; a no-op for an ungrouped entity |
| Groups.UngroupEach | src/2d_engine/ecs.cpp:147-148 | ungrouping a list of entities in turn: each group loses exactly the listed entities recorded under it, group names are kept, and the listed ids lose their reverse entries |
| Groups.GroupThenUngroup | src/2d_engine/ecs.cpp:154-197 | grouping then ungrouping an ungrouped entity removes it from the group and restores the reverse map |
| Groups.RegroupLeavesStaleMember | src/2d_engine/ecs.cpp:154-162 | after regrouping from a to b, the reverse map still names a, the entity is a member of both, and ungrouping leaves it in b |
| Ecs.New | src/ecs/Registry.hpp:26-45 | a default registry is well formed and consistent, with no entity and no mask |
| Ecs.CreateEntity | src/2d_engine/ecs.cpp:79-103 | with no recycled id the new id is `num_entities`, which grows by 1 with the masks padded with empty ones; otherwise the front recycled id is reused and `num_entities` is kept; the entity is only queued as new, and systems and pools are untouched |
| Ecs.CreateEntityPreserves | src/2d_engine/ecs.cpp:79-103 | create keeps the registry well formed and consistent, and the new id has a mask |
| Ecs.KillEntity | src/2d_engine/ecs.cpp:105-108 | kill only queues the entity: pools, masks, systems, ids and groups are unchanged, and well-formedness and consistency are kept |
| Ecs.AddComponent | src/ecs/Registry.hpp:100-133 | fatal for a type id at or past the width, or for an entity id outside the mask array; otherwise the registry stays well formed, the type has its id and the entity's mask has the type's bit |
| Ecs.Attach | src/ecs/Registry.hpp:111-132 | the type's pool is created if missing and gains or overwrites the entity's value, other pools are untouched, only the type's bit is added to the entity's mask, and other masks are unchanged |
| Ecs.PoolFor | src/ecs/Registry.hpp:116-120 | the existing pool of the type, or a new empty well-formed one |
| Ecs.AddComponentConsistent | src/ecs/Registry.hpp:128-132 | add keeps every mask bit in step with pool membership |
| Ecs.AddGetRoundTrip | src/ecs/Registry.hpp:100-187 | after `add_component<T>(e, v)`, `get_component<T>(e)` returns `v` |
| Ecs.AddComponentLeavesSystems | src/ecs/Registry.hpp:100-133 | add never touches a system's list, the pending sets, the recycled ids or the groups |
| Ecs.RemoveComponent | src/ecs/Registry.hpp:139-163 | as written: succeeds exactly for a usable type id, an entity with a mask and an existing non-empty pool of the type; each failing case has its fault (capacity, entity range, missing pool, empty pool); on success the pool is `Pool::remove`d, only the type's bit is cleared, and systems, queues and groups are unchanged |
| Ecs.AsWrittenAgreesWhenHeld | src/ecs/Registry.hpp:139-163 | in a consistent registry, removing a component the entity has succeeds and gives exactly the guarded removal's result, so its facts carry over to the removal as written |
| Ecs.RemoveComponentAbsentBreaksRegistry | src/ecs/Registry.hpp:155-159 | removing a component the entity does not have, from a non-empty pool, goes through and leaves a malformed registry |
| Ecs.RemoveComponentGuarded | src/ecs/Registry.hpp:135-163 | removal as its comment intends: it succeeds exactly for a usable type id and an entity with a mask, the registry stays well formed and the bit is clear afterwards |
| Ecs.Detach | src/ecs/Registry.hpp:155-162 | the entity leaves the type's pool if there and only then; other pools and masks are unchanged; only the type's bit is cleared |
| Ecs.RemoveComponentGuardedConsistent | src/ecs/Registry.hpp:155-162 | the guarded removal keeps every mask bit in step with pool membership |
| Ecs.RemoveThenGetIsMissing | src/ecs/Registry.hpp:139-176 | after the guarded removal (and so, by AsWrittenAgreesWhenHeld, after the as-written one of a held component) `get_component` reports the component missing |
| Ecs.RemoveComponentLeavesSystems | src/ecs/Registry.hpp:139-163 | the guarded removal never touches a system's list, the pending sets, the recycled ids or the groups |
| Ecs.GetComponent | src/ecs/Registry.hpp:165-187 | fatal when the entity's mask lacks T's bit (or the entity has no mask); a returned value is the one T's pool stores for the entity |
| Ecs.GetComponentInConsistent | src/ecs/Registry.hpp:172-186 | in a consistent registry `get_component` succeeds exactly when the bit is set, and never fails on the pool lookups |
| Ecs.AddSystem | src/ecs/Registry.hpp:189-196 | the kind is registered; an existing instance of that kind stays, a new one is stored; other systems and every other field are unchanged; a system whose mask has the registry's width keeps the registry well formed, and consistency is kept |
| Ecs.AddSystemKeepsFirst | src/ecs/Registry.hpp:194-195 | a second `add_system` of a registered kind is dropped and `get_system` returns the first |
| Ecs.GetSystem | src/ecs/Registry.hpp:198-205 | succeeds exactly for a registered kind and returns the stored instance |
| Reconcile.Matching | src/2d_engine/ecs.cpp:113-122 | the entities a system gains are exactly the listed ones whose mask contains the system's mask; from an ascending listing they come out ascending |
| Reconcile.AdmitOne | src/2d_engine/ecs.cpp:117-122 | each system gains the entity at its end exactly when the entity's mask contains its mask |
| Reconcile.AdmitAll | src/2d_engine/ecs.cpp:113-123 | each system keeps its mask and its list becomes the old list followed by the matching new entities, in id order |
| Reconcile.AdmitNew | src/2d_engine/ecs.cpp:112-124 | phase one keeps the registry well formed, empties the pending-new set and touches no pool, mask or id |
| Reconcile.PurgeSystems | src/2d_engine/ecs.cpp:129-131 | every system keeps its mask and has the first occurrence of the dead entity erased, the rest in order |
| Reconcile.PurgePools | src/2d_engine/ecs.cpp:135-139 | every pool stays well formed and loses the dead id and only it |
| Reconcile.Purge | src/2d_engine/ecs.cpp:127-149 | one dead entity: fatal exactly when it has no mask; otherwise its first occurrence leaves every system list, it leaves every pool while every other entity keeps its values, its mask is cleared and others are kept, its id joins the back of the recycled ids, and it is ungrouped |
| Reconcile.PurgeValid | src/2d_engine/ecs.cpp:127-149 | retiring one entity keeps the registry well formed |
| Reconcile.PurgeConsistent | src/2d_engine/ecs.cpp:135-142 | retiring one entity keeps the masks in step with the pools |
| Reconcile.PurgeAll | src/2d_engine/ecs.cpp:127-149 | all dead entities in order: fatal exactly when one has no mask |
| Reconcile.PurgeAllValid | src/2d_engine/ecs.cpp:127-149 | phase two keeps the registry well formed |
| Reconcile.PurgeAllConsistent | src/2d_engine/ecs.cpp:127-149 | phase two keeps the masks in step with the pools |
| Reconcile.PurgeAllSystems | src/2d_engine/ecs.cpp:129-131 | each system list has the first remaining occurrence of each dead entity erased in turn, survivors in order |
| Reconcile.PurgeAllPools | src/2d_engine/ecs.cpp:135-139 | each pool loses the dead ids and only them; every other entity keeps its value |
| Reconcile.PurgeAllMasks | src/2d_engine/ecs.cpp:141-142 | dead ids' masks are empty and every other mask is unchanged |
| Reconcile.PurgeAllRecycles | src/2d_engine/ecs.cpp:144-145 | the dead ids join the back of the recycled ids, in order |
| Reconcile.PurgeAllUngroups | src/2d_engine/ecs.cpp:147-148 | the dead entities are ungrouped in turn |
| Reconcile.Update | src/2d_engine/ecs.cpp:110-152 | fatal exactly when a dead entity has no mask; otherwise the registry stays well formed, both pending sets are empty, and the systems, pool types, entity count and width are kept |
| Reconcile.UpdateConsistent | src/2d_engine/ecs.cpp:110-152 | update keeps the masks in step with the pools |
| Reconcile.UpdateSystems | src/2d_engine/ecs.cpp:110-152 | each system keeps its mask; as a multiset its list gains the matching new entities and loses one copy of each dead entity |
| Reconcile.UpdateSystemList | src/2d_engine/ecs.cpp:110-152 | each system list becomes the old list followed by the matching new entities in ascending order, with the first remaining occurrence of each dead entity then erased in ascending order |
| Reconcile.UpdateCount | src/2d_engine/ecs.cpp:110-152 | how often a system lists an entity afterwards: one more if the entity is new and its mask contains the system's mask, then one fewer, never below zero, if it was killed |
| Reconcile.UpdateListsNewEntity | src/2d_engine/ecs.cpp:113-124 | a new, not-killed entity is listed by every system whose mask its mask contains |
| Reconcile.UpdateDropsDeadEntity | src/2d_engine/ecs.cpp:113-151 | a killed entity a system did not list before is not listed after, even when it was created in the same frame |
| Reconcile.UpdatePools | src/2d_engine/ecs.cpp:135-139 | every pool loses exactly the dead ids, and every other entity keeps its component values |
| Reconcile.UpdateMasks | src/2d_engine/ecs.cpp:141-142 | dead ids' masks are empty; all other masks are unchanged |
| Reconcile.UpdateRecycles | src/2d_engine/ecs.cpp:144-145 | the recycled ids become the old ones followed by the dead ids in ascending order |
| Reconcile.UpdateUngroups | src/2d_engine/ecs.cpp:147-148 | dead ids lose their reverse entries; group names are kept and each group loses exactly the dead entities recorded under it |
| Reconcile.UpdateLeavesGroup | src/2d_engine/ecs.cpp:147-148 | a killed entity no longer belongs to the group recorded for it after update |
| Reconcile.GroupKillUpdate | src/2d_engine/ecs.cpp:105-197 | group an ungrouped entity, kill it, update: it belonged to the group before and does not after |
| Reconcile.KillThenUpdate | src/2d_engine/ecs.cpp:127-151 | with one kill and no recycled id, update leaves that id as the only recycled one, with an empty mask and in no pool |
| Reconcile.KillUpdateCreateReusesId | src/2d_engine/ecs.cpp:79-152 | kill, update, create hands the killed id out again, with an empty mask and in no pool |
| EngineConfig.ValidateConfig | src/2d_engine/2d_engine.cpp:17-49 | as written: the result has a title, positive size and frame rate; valid fields, the flags and the root directory are copied unchanged |
| EngineConfig.Default | src/2d_engine/2d_engine.hpp:27-34 | the member initialisers give a non-empty root directory and no flags, and are acceptable whenever PROJECT_INFO_STRING is non-empty |
| EngineConfig.ValidateFallbacks | src/2d_engine/2d_engine.cpp:22-44 | an empty title becomes PROJECT_INFO_STRING; one bad dimension resets both to 800×600; a non-positive frame rate becomes 60 |
| EngineConfig.ValidateIsIdempotent | src/2d_engine/2d_engine.cpp:17-44 | an acceptable configuration passes unchanged, and validating twice is validating once |
| EngineConfig.DefaultIsAcceptable | src/2d_engine/2d_engine.hpp:27-34 | the default member values pass validation unchanged |
| EngineConfig.EmptyRootDirSurvives | src/2d_engine/2d_engine.cpp:46-49 | an empty root directory is still empty after validation as written |
| EngineConfig.ValidateConfigIntended | src/2d_engine/2d_engine.cpp:46-49 | the corrected validation never leaves the root directory empty: an empty one becomes the working directory plus "/"; everything else is as in ValidateConfig |
| EngineConfig.IntendedIsIdempotent | src/2d_engine/2d_engine.cpp:17-49 | the corrected validation yields an acceptable configuration and is idempotent |
| Assets.AssetPath | src/engine/core/asset_resolver.hpp:6-29 | a path starts with the root, then the kind's directory, and ends with the kind's extension; its length is the sum of the parts |
| Assets.NameOf | src/engine/core/asset_resolver.hpp:6-29 | a name read back from a path rebuilds that path |
| Assets.NameOfPath | src/engine/core/asset_resolver.hpp:6-29 | reading the name back from a built path gives the name |
| Assets.PathIsInjective | src/engine/core/asset_resolver.hpp:6-29 | under one root and kind, distinct names give distinct paths |
| Assets.KindsDoNotCollide | src/engine/core/asset_resolver.hpp:6-29 | under one root, assets of different kinds never share a path |

## Left out

- I/O and globals are parameters. These are `PROJECT_INFO_STRING`, the
  working directory, and the configured root directory read through
  `get_context`. Logging and `terminate` become `Fail` results.
- Raylib/DirectX backends, Lua frontends and the feature systems' `update`
  bodies are not part of this model. They are I/O, foreign calls and
  floating point.
- System constructors are left out. Systems are given already built, with
  their required mask.
- The jbx Registry declares `get_component_mask` and the jbx `update`,
  create, kill and group operations in src/ecs/Registry.hpp. Their
  definitions are in neither src/ecs file, so the cv definitions in
  src/2d_engine/ecs.cpp are modelled for both.
- `std::vector` capacity is not modelled. `Pools.Set` grows the backing
  sequence whenever `size` reaches its length.
- Pools.New: requires a positive capacity. With capacity 0 the doubling
  `resize(size * 2)` stays at 0 and the first `set` writes out of bounds,
  which is not modelled.
- Pools.Get: requires the entity to be held. The source's
  `entity_id_to_index[e]` on a missing entity inserts a 0 entry and
  returns slot 0; `get_component` only reaches it after the mask check.
- ComponentMask.Add: shifts by 31 or more (`1 << id` on `int`) are not
  modelled. An id at or past the mask width sets no bit, as the
  truncation to `u8`/`u16` does.
- The 32-bit `int` fields are unbounded here. These are `num_entities`
  (`num_entities += 1`, src/2d_engine/ecs.cpp:86), entity ids, the type-id
  counter `next_id` (src/ecs/Component.hpp:92) and `Pool::size`. Signed
  overflow after 2^31 entity creations or type ids is undefined behaviour
  in the source and is not modelled.
- ComponentTypes.GetTypeId: the source's `static` id is fixed for the
  life of the program even when the capacity check then fails. In the
  model a failed lookup hands out no id.
- Ecs.AddComponent: a failed add does not record the type's id. In the
  source the id is assigned before the width check.
- Ecs.KillEntity: an entity killed twice before one update is queued
  once, since the queue is a set. Recycling the same id twice through
  repeated kill/update cycles without a create in between is allowed, as
  in the source.
- Reconcile.Update: visits all systems at once. The source walks an
  `unordered_map`, but each system is only touched through its own list,
  so the order does not matter.
- Builds without `PROJECT_ENABLE_LOGS`: `ERROR_IF` and `EXPECT` expand to
  nothing there, so every guard is skipped and the guarded case runs on
  into undefined behaviour. Every `Fail` in the model stands for the
  logs build's `terminate`; the other build is not modelled.
- Ecs.AddSystem: no width check. A C++ `Component_Mask` always has the
  registry's width, so well-formedness is promised only for a system
  whose mask has the registry's width.
- Ecs.GetComponent: does not return a reference. Writes through the
  returned `T&` are not modelled.

## Findings

| source | as written | input that shows it | evidently intended | confidence | as-written member | corrected member |
|---|---|---|---|---|---|---|
| src/ecs/Pool.hpp:136 | `EXPECT(index > 0 && index < data.size)` refuses slot 0; `data.size` is read as the call `data.size()`, without which the line does not compile in a logs build | any pool, index 0, logs build: the cv copy returns slot 0, the jbx copy fails | `index >= 0`, as the cv copy checks (src/2d_engine/ecs.hpp:236-237) | medium, not executed | Pools.SlotJbx | Pools.Slot |
| src/ecs/Registry.hpp:155-159 | `remove_component` calls `Pool::remove` without checking the entity is held | pool {1→slot 0, 2→slot 1}, remove entity 3: slot 0 is overwritten by the last value and entity 1 reads entity 2's component | only clear the bit when the entity lacks the component, as the comment above it says; the guarded `remove_entity_from_pool` | high, not executed | Ecs.RemoveComponentAbsentBreaksRegistry | Ecs.RemoveComponentGuarded |
| src/2d_engine/2d_engine.cpp:46-49 | the root_dir fallback is assigned to the by-value parameter `config`, not to `validated_config` | a config with `root_dir == ""`: the validated root_dir stays empty | assign the fallback to `validated_config->root_dir` | high, not executed | EngineConfig.EmptyRootDirSurvives | EngineConfig.ValidateConfigIntended |
