# A verified model of the misk ECS core

This project models the entity–component–system core of a small Rust flight
simulator in Dafny and proves what it promises. Five parts are modelled:

- **Entities** (`ecs/src/entity.rs`). An entity is a copyable handle wrapping
  a generational slot-map key. Keys come from an allocator modelled slot by
  slot, with versions and a free list. Because of that, a removed handle is
  provably never issued again.
- **Typed component storage** (`ecs/src/lib.rs`). `TypedComponentStorage` is a
  class holding one value per entity. It supports `insert`, `get`, `get_mut`,
  the typed and type-erased `remove`, and `iter`. `EcsError` has its three
  variants and `EcsResult` is Rust's `Result`.
- **The World** (`ecs/src/world.rs`). Module `EcsWorldSpec` gives every
  operation as a function of an abstract state: the live-entity allocator,
  one storage per registered component type, and the per-entity type mask.
  Its lemmas state what each operation guarantees. Every mutator keeps the
  invariant that masks and storages agree, masks have no duplicates, and the
  masked entities are exactly the live ones. Module `EcsWorld` holds the
  `World` class. It owns real storage objects and updates them in place.
  Each mutator and reader is proved equal to the spec function of the same
  name. The two listings are specified on their own: `QueryEntities` returns
  exactly `QueryMatches`, and `Entities` returns exactly the live entities.
- **Systems** (`ecs/src/system.rs`):
  - A system is a value; the `System` trait becomes a record of functions.
  - `SystemDispatcher` is a class. Its `add_system` and `run_systems` are
    proved against the functions `AddSystemOutcome` and `Tick`.
  - `Tick` is fail-fast: it stops at the first error, and on error it rolls
    nothing back.
  - `run_systems` records every `run` call in a ghost trace.
- **RL data types** (`rl_interface/src/lib.rs`). `Observation` and `Action`,
  with their vector encodings.

Component types are identified by an abstract `Tag`, which plays the role of
`TypeId`. The component values of all types share one value type `V`. Each
type's name, used in `ComponentNotRegistered`, comes from a function the World
is built with.

## Model

| member | source | states |
|---|---|---|
| Wrappers.Without | ecs/src/world.rs:243-247 | `retain(t != type_id)` keeps exactly the other elements, keeps a duplicate-free mask duplicate-free, and is the identity when the type is absent |
| Wrappers.PushKeepsNoDup | ecs/src/world.rs:167-172 | pushing a type only when `contains` is false keeps the mask duplicate-free |
| SlotMap.New | ecs/src/world.rs:45 | a new allocator is consistent, holds no key and has never issued one |
| SlotMap.Contains | ecs/src/world.rs:80 | `contains_key` holds exactly for live keys |
| SlotMap.Len | ecs/src/world.rs:301 | reference definition of `len()`: the number of live keys (`Insert` and `Remove` state how it moves) |
| SlotMap.Insert | ecs/src/world.rs:60 | insertion yields a key that was never issued before; the map grows by exactly that key, `len` grows by one, and every key issued earlier stays recorded as issued |
| SlotMap.Remove | ecs/src/world.rs:94 | removal takes exactly that key out, `len` drops by one, and the history of issued keys is kept |
| SlotMap.ReuseKeepsValid | ecs/src/world.rs:60 | reusing a freed slot with the next version keeps the allocator consistent and yields a key not live before |
| SlotMap.RemovedKeyNotReissued | ecs/src/world.rs:17-21 | after a key is removed, the next insertion returns a different key and the removed key stays dead (no dangling handle comes back) |
| EcsEntity.Entity.Id | ecs/src/entity.rs:17-19 | `id()` returns the key the entity wraps |
| EcsEntity.New | ecs/src/entity.rs:12-14 | `Entity::new(id).id() == id` |
| EcsEntity.FromId | ecs/src/entity.rs:22-26 | `From<EntityId>` builds the entity whose `id()` is the given key |
| EcsEntity.IntoId | ecs/src/entity.rs:28-32 | `From<Entity>` is `id()` |
| EcsEntity.ConversionsRoundTrip | ecs/src/entity.rs:39-47 | the two `From` conversions are inverse to each other |
| EcsEntity.EqualIffSameId | ecs/src/entity.rs:5-8 | derived equality: two entities are equal iff their ids are |
| EcsCore.TypedComponentStorage.constructor | ecs/src/lib.rs:46-50 | a new storage is empty |
| EcsCore.TypedComponentStorage.Insert | ecs/src/lib.rs:52-54 | `insert` stores or overwrites the entity's value; `get` then returns it, and every other entity reads as before |
| EcsCore.TypedComponentStorage.Get | ecs/src/lib.rs:56-58 | `get` is `Some` exactly when the entity has an entry, and then returns that entry |
| EcsCore.TypedComponentStorage.GetMut | ecs/src/lib.rs:60-62 | a mutable reference exists exactly when `get` finds a value; a write through it is what `get` then returns, and a miss changes nothing |
| EcsCore.TypedComponentStorage.Remove | ecs/src/lib.rs:64-66 | typed `remove` hands back what `get` returned before and leaves no entry |
| EcsCore.TypedComponentStorage.RemoveErased | ecs/src/lib.rs:86-88 | erased `remove` returns true iff an entry existed, and removes it |
| EcsCore.TypedComponentStorage.Iter | ecs/src/lib.rs:68-70 | `iter` yields every stored pair exactly once with its value, and nothing else |
| EcsWorldSpec.EntityExists | ecs/src/world.rs:106-108 | `entity_exists` holds exactly for live keys |
| EcsWorldSpec.EntityCount | ecs/src/world.rs:300-302 | reference definition of `entity_count`: the allocator's `len()`; `CreateEntityCorrect` and `RemoveEntityPurges` state how it moves |
| EcsWorldSpec.HasComponent | ecs/src/world.rs:255-267 | reference definition of `has_component`: a mask lookup that reads false for an entity without a mask; `HasIffStored` ties it to the storages |
| EcsWorldSpec.GetComponent | ecs/src/world.rs:183-197 | reference definition of `get_component`: the value in the type's storage, absent for an unregistered type or a missing entry; `HasIffStored` ties it to the masks |
| EcsWorldSpec.GetComponentStorage | ecs/src/world.rs:309-315 | reference definition of `get_component_storage`: the storage of a registered type, if any; `ComponentStorageMatchesMasks` states which entities it holds |
| EcsWorldSpec.QueryMatches | ecs/src/world.rs:274-283 | reference definition of the set `query_entities` returns: the masked entities whose mask contains every requested type; `QueryExact` states its meaning |
| EcsWorldSpec.CreateEntity | ecs/src/world.rs:56-68 | the returned key was not live and is live afterwards, the live set grows by exactly it, its mask is empty and storages are untouched |
| EcsWorldSpec.RemoveEntity | ecs/src/world.rs:76-100 | fails with `EntityNotFound(entity)` and no change exactly for a dead entity; otherwise the key leaves the live set and its mask is dropped |
| EcsWorldSpec.RegisterComponent | ecs/src/world.rs:115-129 | the type is registered afterwards and no other is added; existing storages keep their contents, a new one is empty, and entities and masks are untouched |
| EcsWorldSpec.MaskWith | ecs/src/world.rs:166-172 | the entity's mask afterwards holds its old types plus the new one and nothing else; other masks and the set of masked entities are unchanged |
| EcsWorldSpec.Store | ecs/src/world.rs:163-172 | the type's storage gets the entity's value (overwriting), no storage is added or dropped, entities are untouched and the mask is updated by `MaskWith` |
| EcsWorldSpec.AddComponent | ecs/src/world.rs:136-175 | fails with `EntityNotFound(entity)` and no change exactly for a dead entity; otherwise the type is registered, the value is readable and live entities are unchanged |
| EcsWorldSpec.MaskWithout | ecs/src/world.rs:242-247 | the entity's mask afterwards lacks the type and keeps every other type; other masks and the set of masked entities are unchanged |
| EcsWorldSpec.RemoveComponent | ecs/src/world.rs:222-250 | `EntityNotFound` for a dead entity, then `ComponentNotRegistered(type name)` for an unregistered type, each with no change; `Ok` exactly otherwise, carrying the previous value, after which the component is absent |
| EcsWorldSpec.GetComponentMut | ecs/src/world.rs:204-214 | a reference is found exactly when the component is present; the written value is what `get_component` then returns, and a miss changes nothing |
| EcsWorldSpec.NewWorld | ecs/src/world.rs:43-49 | a new world satisfies the invariant and has no entities |
| EcsWorldSpec.PurgeAll | ecs/src/world.rs:89-91 | the removal loop keeps every registered type and takes the entity's entry out of each storage |
| EcsWorldSpec.NoDupOccursOnce | ecs/src/world.rs:167-172 | a duplicate-free mask holds each present type exactly once |
| EcsWorldSpec.HasIffStored | ecs/src/world.rs:255-267 | under the invariant, `has_component` (a mask lookup) agrees with `get_component` (a storage lookup); a present component implies a live entity and a registered type |
| EcsWorldSpec.FreshEntityKeepsInv | ecs/src/world.rs:56-68 | adding a fresh key with an empty mask keeps the invariant and gives the entity no component |
| EcsWorldSpec.CreateEntityCorrect | ecs/src/world.rs:56-68 | `create_entity` returns an entity that was not live and had never been issued, that is now live, with an empty mask and no components; the count grows by one and storages are untouched |
| EcsWorldSpec.RemoveEntityNotFound | ecs/src/world.rs:76-84 | removing a dead entity fails with `EntityNotFound(entity)` and changes nothing |
| EcsWorldSpec.PurgeKeepsInv | ecs/src/world.rs:86-96 | removing the key, its mask and its entries keeps the invariant, leaves the entity with no component, and changes no other entity |
| EcsWorldSpec.RemoveEntityPurges | ecs/src/world.rs:76-100 | removing a live entity succeeds; it is dead afterwards with no component, the count drops by one, registered types and all other entities are unchanged, and a second removal fails with `EntityNotFound` |
| EcsWorldSpec.RegisterComponentKeeps | ecs/src/world.rs:115-129 | registration creates an empty storage only when none exists, keeps every existing storage and every component, keeps the invariant, and is idempotent |
| EcsWorldSpec.AddComponentNotFound | ecs/src/world.rs:136-142 | adding to a dead entity fails with `EntityNotFound(entity)` and changes nothing |
| EcsWorldSpec.StoreKeepsInv | ecs/src/world.rs:163-172 | storing the value and pushing the type only if absent keeps the invariant; the type appears exactly once in the mask |
| EcsWorldSpec.AddComponentStores | ecs/src/world.rs:136-175 | adding to a live entity succeeds and registers the type; the component is present and readable with the given value; the type appears once in the mask; live entities are unchanged, as is every other (entity, type) pair |
| EcsWorldSpec.AddComponentOverwrites | ecs/src/world.rs:163-164 | adding the same type twice keeps the second value |
| EcsWorldSpec.RemoveComponentErrors | ecs/src/world.rs:222-237 | a dead entity gives `EntityNotFound` and, for a live one, an unregistered type gives `ComponentNotRegistered(type name)`; neither changes the world |
| EcsWorldSpec.RemoveComponentTakesOut | ecs/src/world.rs:239-249 | removal returns `Ok` of the previous value (`Some` iff the component was present), leaves the component absent from storage and mask, keeps the invariant and every other (entity, type) pair |
| EcsWorldSpec.GetComponentMutWritesThrough | ecs/src/world.rs:204-214 | a mutable reference exists iff the entity has the component; the written value is what `get_component` returns afterwards; masks, entities and every other pair are unchanged |
| EcsWorldSpec.CreateEntityKeepsInv | ecs/src/world.rs:56-68 | `create_entity` keeps the invariant |
| EcsWorldSpec.RemoveEntityKeepsInv | ecs/src/world.rs:76-100 | `remove_entity` keeps the invariant on both paths |
| EcsWorldSpec.RegisterComponentKeepsInv | ecs/src/world.rs:115-129 | `register_component` keeps the invariant |
| EcsWorldSpec.AddComponentKeepsInv | ecs/src/world.rs:136-175 | `add_component` keeps the invariant on both paths |
| EcsWorldSpec.GetComponentMutKeepsInv | ecs/src/world.rs:204-214 | a write through `get_component_mut` keeps the invariant |
| EcsWorldSpec.RemoveComponentKeepsInv | ecs/src/world.rs:222-250 | `remove_component` keeps the invariant on all three paths |
| EcsWorldSpec.ComponentStorageMatchesMasks | ecs/src/world.rs:309-315 | a type's storage exists iff the type is registered, and holds an entry exactly for the entities whose mask lists the type |
| EcsWorldSpec.QueryExact | ecs/src/world.rs:274-283 | `query_entities(ts)` matches exactly the live entities that have every type in `ts`, and each of them has a readable value of each type |
| EcsWorldSpec.QueryNothingRequired | ecs/src/world.rs:274-283 | a query for no types returns every live entity |
| EcsWorldSpec.QueryOrderIrrelevant | ecs/src/world.rs:274-283 | the query depends only on the set of requested types, not their order or repetition |
| EcsWorldSpec.WorldScenario | ecs/src/world.rs:359-397 | the world tests hold for any two distinct types and any value: count 0, then 1 after creation; the added type is present and readable while another is absent; after removal the entity is dead and the count is 0 |
| EcsWorld.World.constructor | ecs/src/world.rs:43-49 | `World::new` is the empty world state and satisfies the invariant |
| EcsWorld.World.CreateEntity | ecs/src/world.rs:56-68 | the new state and entity are those of `EcsWorldSpec.CreateEntity`; the key was never issued before |
| EcsWorld.World.RemoveEntity | ecs/src/world.rs:76-100 | the new state and result are those of `EcsWorldSpec.RemoveEntity`, including the purge of every storage object |
| EcsWorld.World.EntityExists | ecs/src/world.rs:106-108 | `entity_exists` agrees with the spec's liveness |
| EcsWorld.World.EntityCount | ecs/src/world.rs:300-302 | `entity_count` agrees with the spec's count |
| EcsWorld.World.RegisterComponent | ecs/src/world.rs:115-129 | the new state is that of `EcsWorldSpec.RegisterComponent`; an existing storage object is kept, not replaced |
| EcsWorld.World.AddComponent | ecs/src/world.rs:136-175 | the new state and result are those of `EcsWorldSpec.AddComponent` |
| EcsWorld.World.Store | ecs/src/world.rs:163-172 | storing into the registered storage object and updating the mask yields `EcsWorldSpec.Store` |
| EcsWorld.World.GetComponent | ecs/src/world.rs:183-197 | `get_component` through the storage object agrees with the spec's lookup |
| EcsWorld.World.GetComponentMut | ecs/src/world.rs:204-214 | the write through the storage object yields the spec's new state and found flag |
| EcsWorld.World.RemoveComponent | ecs/src/world.rs:222-250 | the new state and result are those of `EcsWorldSpec.RemoveComponent`, error paths included |
| EcsWorld.World.HasComponent | ecs/src/world.rs:255-267 | the mask lookup agrees with the spec's `HasComponent` |
| EcsWorld.World.QueryEntities | ecs/src/world.rs:274-283 | the scan over all masks returns each matching entity exactly once: those that are live and have every requested type |
| EcsWorld.World.Entities | ecs/src/world.rs:292-297 | `entities()` yields every live entity exactly once, `entity_count` of them |
| EcsWorld.World.GetComponentStorage | ecs/src/world.rs:309-326 | the storage object exists iff the type is registered; its entries are exactly the entities that have the type |
| EcsWorld.PurgeStorages | ecs/src/world.rs:89-91 | the loop over all distinct storage objects removes the entity's entry from each of them |
| EcsSystem.DefaultInitialize | ecs/src/system.rs:12-14 | the default `initialize` succeeds and changes neither the system nor the world |
| EcsSystem.DefaultCleanup | ecs/src/system.rs:17-19 | the default `cleanup` succeeds and changes neither the system nor the world |
| EcsSystem.Tick | ecs/src/system.rs:43-48 | a tick neither adds nor drops a system |
| EcsSystem.TickCallsInOrder | ecs/src/system.rs:43-48 | the systems are run in order from the start, at most once each, each with the tick's `delta_time` |
| EcsSystem.TickFailFast | ecs/src/system.rs:43-48 | `run_systems` returns `Ok` iff every system was run and every run returned `Ok` |
| EcsSystem.TickErrorIsLast | ecs/src/system.rs:43-48 | on an error the last run made is the failing one, its error is returned unchanged, and every earlier run succeeded |
| EcsSystem.TickLeavesOthers | ecs/src/system.rs:43-48 | systems that were not run keep their state |
| EcsSystem.TickKeepsEffectsOnError | ecs/src/system.rs:43-48 | a failing run ends the tick with the world it left, so the effects of earlier systems are not rolled back |
| EcsSystem.TickStep | ecs/src/system.rs:44-46 | one loop step: running the next system either ends the tick on its error or continues from the next position with the call recorded |
| EcsSystem.AddSystemOutcome | ecs/src/system.rs:36-40 | the list grows by one exactly on success and always keeps the earlier systems in place as a prefix; the world is the one `initialize` left |
| EcsSystem.TestBehaviour | ecs/src/system.rs:81-90 | the test system keeps the default `initialize` |
| EcsSystem.TestRunCounts | ecs/src/system.rs:86-89 | the test system's `run` succeeds, keeps its name, raises its run count by one and leaves the world alone |
| EcsSystem.AddSystemTransactional | ecs/src/system.rs:36-40 | `add_system` succeeds iff `initialize` does; on success the initialized system is appended and the count grows by one, and on failure the hook's error is returned and the list is unchanged; the world keeps the hook's effects either way |
| EcsSystem.AddSystemWithDefaultInitialize | ecs/src/system.rs:36-40 | with the default `initialize`, `add_system` always succeeds, appends the system as given and leaves the world alone |
| EcsSystem.TestSystemsTick | ecs/src/system.rs:81-90 | a tick over test systems succeeds, runs every system once, raises each run count by one and leaves the world alone |
| EcsSystem.DispatcherScenario | ecs/src/system.rs:92-103 | the dispatcher test holds: one added system gives a count of one, and the following tick succeeds |
| EcsSystem.SystemDispatcher.constructor | ecs/src/system.rs:29-33 | a new dispatcher has no systems |
| EcsSystem.SystemDispatcher.SystemCount | ecs/src/system.rs:51-53 | reference definition of `system_count`: the length of the list; `AddSystem` and `RunSystems` state how it moves |
| EcsSystem.SystemDispatcher.AddSystem | ecs/src/system.rs:36-40 | the new list, world and result are those of `AddSystemOutcome`; the count grows by one exactly on success |
| EcsSystem.SystemDispatcher.RunSystems | ecs/src/system.rs:43-48 | the loop yields the systems, world and result of `Tick`, and the trace grows by exactly the tick's calls |
| RlInterface.NewObservation | rl_interface/src/lib.rs:18-27 | a new observation encodes as six zeros |
| RlInterface.ToVec | rl_interface/src/lib.rs:30-39 | `to_vec` has six entries, in field order: position x and y, velocity x and y, rotation, angular velocity |
| RlInterface.ToVecInjective | rl_interface/src/lib.rs:30-39 | `to_vec` loses nothing: two observations encode alike iff they are equal |
| RlInterface.Neutral | rl_interface/src/lib.rs:51-57 | the neutral action has zero thrust, elevator and rudder |
| RlInterface.FromVec | rl_interface/src/lib.rs:59-69 | `from_vec` returns `None` exactly for slices shorter than three |
| RlInterface.FromVecRoundTrip | rl_interface/src/lib.rs:59-69 | decoding an action's three fields gives the action back |
| RlInterface.FromVecIgnoresExtra | rl_interface/src/lib.rs:59-69 | only the first three values matter |
| RlInterface.FromVecPositions | rl_interface/src/lib.rs:59-69 | thrust, elevator and rudder are taken from positions 0, 1 and 2 |

## Left out

- `TypedComponentStorage::iter_mut` (ecs/src/lib.rs:72-74): mutation through the iterator is not modelled. A single write through a reference is modelled by `get_mut`.
- `get_component_storage_mut` (ecs/src/world.rs:321-326) hands the storage object out for writing. `EcsWorld.World.GetComponentStorage` returns the same object, but only for reading. A caller that inserted or removed through it would bypass the masks, and the invariant cannot follow such writes.
- The downcasts in world.rs always succeed: a storage is always created for its own type. So does the storage lookup in `add_component` right after registration. The model has no branch for these failures.
- The `if let Some(mask)` guards in `add_component` and `remove_component` can never miss under the invariant, because every live entity has a mask. They are modelled as written, and the invariant makes their other branch unreachable.
- The slot-map crate itself is not part of this model. `SlotMap` stands in for it: slot versions, a free list reused most recent first, and odd versions marking occupied slots. It does not model the 32-bit version wrap-around after about two billion reuses of one slot, or the value stored with each key, which is always `Entity::new(key)`.
- Hash-map iteration order is not modelled. `query_entities`, `entities()` and `iter` are specified up to order.
- `TypeId` and `Component::type_name` (ecs/src/component.rs) are compiler-supplied. A type is an abstract `Tag` and its name comes from a function given to the World. All component types share one value type `V` instead of one Rust type each.
- `System::name` and `cleanup` are never called by the dispatcher. `name` is not modelled. `cleanup` is given as its default only, since there is no `remove_system`.
- Systems in the model act on an abstract world value threaded through each call, not on the `World` object itself. The system and the world are single values, so the borrow checker's exclusive `&mut` access is implicit.
- `delta_time` is an opaque value. `f32` fields are their IEEE 754 bit patterns; no float is ever computed on.
- The `Default` impls only call `new` and are not modelled separately. The serde derives, the `RLEnvironment` trait (declared but not implemented) and the `python` module (empty) are not modelled.
- The simulator, physics and aerodynamics crates are callers of the core and are not part of this model.
- EcsSystem.Tick: its own contract states only that the number of systems is kept. The order of calls, fail-fast and the frame time are proved in the lemmas next to it.
