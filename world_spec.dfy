/** The World's behaviour as functions of its abstract state (ecs/src/world.rs).
    The state holds the three maps the World keeps: the live-entity allocator,
    one storage per registered component type, keyed by its type tag, and the
    per-entity list of present types (the mask). The `World` class in module
    EcsWorld implements each operation in place and is proved against these
    functions; the lemmas here state what the operations promise. */
module EcsWorldSpec {
  import opened Wrappers
  import SlotMap
  import opened EcsEntity
  import opened EcsCore

  datatype WorldState<Tag, V> = WorldState(
    entities: SlotMap.SlotMap,
    storages: map<Tag, map<EntityId, V>>,
    masks: map<EntityId, seq<Tag>>)

  /** The mask lists exactly the types whose storage holds an entry for the
      entity, and every storage entry belongs to a masked entity. */
  ghost predicate MaskMatchesStorage<Tag, V>(w: WorldState<Tag, V>)
  {
    && (forall id, t :: id in w.masks && t in w.masks[id] ==> t in w.storages && id in w.storages[t])
    && (forall t, id :: t in w.storages && id in w.storages[t] ==> id in w.masks && t in w.masks[id])
  }

  /** The consistency every mutator keeps: the masked entities are exactly the
      live ones, no mask lists a type twice, and masks agree with storages. */
  ghost predicate Inv<Tag, V>(w: WorldState<Tag, V>)
  {
    && SlotMap.Valid(w.entities)
    && w.masks.Keys == w.entities.live
    && (forall id :: id in w.masks ==> NoDup(w.masks[id]))
    && MaskMatchesStorage(w)
  }

  // ---------------------------------------------------------------- readers

  /** `entity_exists`. */
  function EntityExists<Tag, V>(w: WorldState<Tag, V>, e: Entity): (b: bool)
    requires SlotMap.Valid(w.entities)
    ensures b <==> e.id in w.entities.live
  {
    SlotMap.Contains(w.entities, e.id)
  }

  /** `entity_count`. */
  function EntityCount<Tag, V>(w: WorldState<Tag, V>): nat
  {
    SlotMap.Len(w.entities)
  }

  /** `has_component`: a mask lookup; an unknown entity has no component. */
  function HasComponent<Tag(==), V>(w: WorldState<Tag, V>, e: Entity, t: Tag): bool
  {
    e.id in w.masks && t in w.masks[e.id]
  }

  /** `get_component`: absence, never an error, for an unregistered type or an
      entity without the component. */
  function GetComponent<Tag, V>(w: WorldState<Tag, V>, e: Entity, t: Tag): Option<V>
  {
    if t in w.storages && e.id in w.storages[t] then Some(w.storages[t][e.id]) else None
  }

  /** `get_component_storage`: the whole storage of a registered type. */
  function GetComponentStorage<Tag, V>(w: WorldState<Tag, V>, t: Tag): Option<map<EntityId, V>>
  {
    if t in w.storages then Some(w.storages[t]) else None
  }

  /** `component_types.iter().all(|t| mask.contains(t))`. */
  predicate ContainsAll<Tag(==)>(mask: seq<Tag>, ts: seq<Tag>)
  {
    forall t :: t in ts ==> t in mask
  }

  /** The ids `query_entities(ts)` returns (as a set: the order is that of a hash map). */
  function QueryMatches<Tag(==), V>(w: WorldState<Tag, V>, ts: seq<Tag>): set<EntityId>
  {
    set id | id in w.masks && ContainsAll(w.masks[id], ts)
  }

  // --------------------------------------------------------------- mutators

  /** `World::new`. */
  function NewWorld<Tag, V>(): (w: WorldState<Tag, V>)
    ensures Inv(w) && EntityCount(w) == 0
  {
    WorldState(SlotMap.New(), map[], map[])
  }

  /** `create_entity`: allocate a key and give it an empty mask. */
  function CreateEntity<Tag, V>(w: WorldState<Tag, V>): (r: (WorldState<Tag, V>, Entity))
    requires SlotMap.Valid(w.entities)
    ensures r.1.id !in w.entities.live && r.0.entities.live == w.entities.live + {r.1.id}
    ensures r.0.masks == w.masks[r.1.id := []] && r.0.storages == w.storages
  {
    var (m, id) := SlotMap.Insert(w.entities);
    (w.(entities := m, masks := w.masks[id := []]), New(id))
  }

  /** `remove_entity`. */
  function RemoveEntity<Tag, V>(w: WorldState<Tag, V>, e: Entity): (r: (WorldState<Tag, V>, EcsResult<()>))
    requires SlotMap.Valid(w.entities)
    ensures r.1.Err? <==> e.id !in w.entities.live
    ensures r.1.Err? ==> r == (w, Err(EntityNotFound(e)))
    ensures r.1.Ok? ==> r.0.entities.live == w.entities.live - {e.id} && r.0.masks == w.masks - {e.id}
  {
    if !SlotMap.Contains(w.entities, e.id) then
      (w, Err(EntityNotFound(e)))
    else
      (WorldState(SlotMap.Remove(w.entities, e.id), PurgeAll(w.storages, e.id), w.masks - {e.id}), Ok(()))
  }

  /** Every storage with the entry for `id` taken out (the loop over all storages). */
  function PurgeAll<Tag, V>(storages: map<Tag, map<EntityId, V>>, id: EntityId): (r: map<Tag, map<EntityId, V>>)
    ensures r.Keys == storages.Keys
    ensures forall t :: t in r ==> r[t] == storages[t] - {id}
  {
    map t | t in storages :: storages[t] - {id}
  }

  /** `register_component`: create an empty storage only if none exists. */
  function RegisterComponent<Tag, V>(w: WorldState<Tag, V>, t: Tag): (r: WorldState<Tag, V>)
    ensures t in r.storages && r.storages.Keys == w.storages.Keys + {t}
    ensures forall u :: u in w.storages ==> r.storages[u] == w.storages[u]
    ensures t !in w.storages ==> r.storages[t] == map[]
    ensures r.entities == w.entities && r.masks == w.masks
  {
    if t in w.storages then w else w.(storages := w.storages[t := map[]])
  }

  /** The mask after `add_component`: push `t` unless it is already there. */
  function MaskWith<Tag(==)>(masks: map<EntityId, seq<Tag>>, id: EntityId, t: Tag): (r: map<EntityId, seq<Tag>>)
    ensures r.Keys == masks.Keys
    ensures id in masks ==> t in r[id] && forall u :: u in r[id] ==> u in masks[id] || u == t
    ensures id in masks ==> forall u :: u in masks[id] ==> u in r[id]
    ensures forall other :: other in masks && other != id ==> r[other] == masks[other]
  {
    if id in masks && t !in masks[id] then masks[id := masks[id] + [t]] else masks
  }

  /** The body of a successful `add_component` once the type is registered:
      store (or overwrite) the value and record the type in the mask. */
  function Store<Tag(==), V>(w: WorldState<Tag, V>, id: EntityId, t: Tag, v: V): (r: WorldState<Tag, V>)
    requires t in w.storages
    ensures r.storages.Keys == w.storages.Keys && r.storages[t] == w.storages[t][id := v]
    ensures r.entities == w.entities && r.masks == MaskWith(w.masks, id, t)
  {
    w.(storages := w.storages[t := w.storages[t][id := v]], masks := MaskWith(w.masks, id, t))
  }

  /** `add_component`: fail on a dead handle, otherwise register the type,
      store (or overwrite) the value and record the type in the mask. */
  function AddComponent<Tag(==), V>(w: WorldState<Tag, V>, e: Entity, t: Tag, v: V): (r: (WorldState<Tag, V>, EcsResult<()>))
    requires SlotMap.Valid(w.entities)
    ensures r.1.Err? <==> e.id !in w.entities.live
    ensures r.1.Err? ==> r == (w, Err(EntityNotFound(e)))
    ensures r.1.Ok? ==> t in r.0.storages && GetComponent(r.0, e, t) == Some(v) && r.0.entities == w.entities
  {
    if !SlotMap.Contains(w.entities, e.id) then
      (w, Err(EntityNotFound(e)))
    else
      (Store(RegisterComponent(w, t), e.id, t, v), Ok(()))
  }

  /** The mask after `remove_component`: `retain` every type other than `t`. */
  function MaskWithout<Tag(==)>(masks: map<EntityId, seq<Tag>>, id: EntityId, t: Tag): (r: map<EntityId, seq<Tag>>)
    ensures r.Keys == masks.Keys
    ensures id in masks ==> t !in r[id] && forall u :: u in r[id] ==> u in masks[id]
    ensures id in masks ==> forall u :: u in masks[id] && u != t ==> u in r[id]
    ensures forall other :: other in masks && other != id ==> r[other] == masks[other]
  {
    if id in masks then masks[id := Without(masks[id], t)] else masks
  }

  /** `remove_component`: fail on a dead handle or an unregistered type,
      otherwise take out the value (if any) and drop the type from the mask. */
  function RemoveComponent<Tag(==), V>(w: WorldState<Tag, V>, e: Entity, t: Tag, typeName: Tag -> string)
    : (r: (WorldState<Tag, V>, EcsResult<Option<V>>))
    requires SlotMap.Valid(w.entities)
    ensures e.id !in w.entities.live ==> r == (w, Err(EntityNotFound(e)))
    ensures e.id in w.entities.live && t !in w.storages ==> r == (w, Err(ComponentNotRegistered(typeName(t))))
    ensures r.1.Ok? <==> e.id in w.entities.live && t in w.storages
    ensures r.1.Ok? ==> r.1.value == GetComponent(w, e, t) && GetComponent(r.0, e, t) == None
  {
    if !SlotMap.Contains(w.entities, e.id) then
      (w, Err(EntityNotFound(e)))
    else if t !in w.storages then
      (w, Err(ComponentNotRegistered(typeName(t))))
    else
      var removed := GetComponent(w, e, t);
      (w.(storages := w.storages[t := w.storages[t] - {e.id}], masks := MaskWithout(w.masks, e.id, t)), Ok(removed))
  }

  /** `get_component_mut` with a write through the returned reference. */
  function GetComponentMut<Tag, V>(w: WorldState<Tag, V>, e: Entity, t: Tag, update: V -> V): (r: (WorldState<Tag, V>, bool))
    ensures r.1 <==> GetComponent(w, e, t).Some?
    ensures r.1 ==> GetComponent(r.0, e, t) == Some(update(GetComponent(w, e, t).value))
    ensures !r.1 ==> r.0 == w
  {
    if t in w.storages && e.id in w.storages[t] then
      (w.(storages := w.storages[t := w.storages[t][e.id := update(w.storages[t][e.id])]]), true)
    else
      (w, false)
  }

  // ----------------------------------------------------------------- lemmas

  /** A duplicate-free sequence holds each of its elements exactly once. */
  lemma {:induction false} NoDupOccursOnce<T>(s: seq<T>, x: T)
    requires NoDup(s) && x in s
    ensures multiset(s)[x] == 1
  {
    if s[0] == x {
      assert x !in s[1..];
      assert s == [s[0]] + s[1..];
    } else {
      assert NoDup(s[1..]);
      NoDupOccursOnce(s[1..], x);
      assert s == [s[0]] + s[1..];
    }
  }

  /** The mask is a cache of the storages: `has_component` and `get_component`
      agree, and a type that is not registered is simply absent. */
  lemma HasIffStored<Tag, V>(w: WorldState<Tag, V>, e: Entity, t: Tag)
    requires Inv(w)
    ensures HasComponent(w, e, t) <==> GetComponent(w, e, t).Some?
    ensures HasComponent(w, e, t) ==> t in w.storages && EntityExists(w, e)
  {
  }

  /** Giving a key that was not live an empty mask keeps the invariant, and
      the new entity has no component. */
  lemma FreshEntityKeepsInv<Tag, V>(w: WorldState<Tag, V>, m: SlotMap.SlotMap, id: EntityId)
    requires Inv(w) && SlotMap.Valid(m)
    requires id !in w.entities.live && m.live == w.entities.live + {id}
    ensures var w' := WorldState(m, w.storages, w.masks[id := []]);
      && Inv(w')
      && (forall t :: !HasComponent(w', Entity(id), t) && GetComponent(w', Entity(id), t) == None)
  {
    var w' := WorldState(m, w.storages, w.masks[id := []]);
    forall t | t in w.storages
      ensures id !in w.storages[t]
    {
    }
    assert MaskMatchesStorage(w');
  }

  /** `create_entity`: the handle is live afterwards, is one no earlier state
      could have issued, has an empty mask and no component; one more entity. */
  lemma CreateEntityCorrect<Tag, V>(w: WorldState<Tag, V>)
    requires Inv(w)
    ensures var (w', e) := CreateEntity(w);
      && Inv(w')
      && EntityExists(w', e) && !EntityExists(w, e)
      && EntityCount(w') == EntityCount(w) + 1
      && w'.masks[e.id] == []
      && w'.storages == w.storages
      && (forall t :: !HasComponent(w', e, t) && GetComponent(w', e, t) == None)
      && !SlotMap.Covers(w.entities, e.id)
      && (forall k :: SlotMap.Covers(w.entities, k) ==> SlotMap.Covers(w'.entities, k))
  {
    var (m, id) := SlotMap.Insert(w.entities);
    FreshEntityKeepsInv(w, m, id);
  }

  /** `remove_entity` on a handle that is not live fails and changes nothing. */
  lemma RemoveEntityNotFound<Tag, V>(w: WorldState<Tag, V>, e: Entity)
    requires Inv(w) && !EntityExists(w, e)
    ensures RemoveEntity(w, e) == (w, Err(EntityNotFound(e)))
  {
  }

  /** Dropping a live key from the allocator, from every storage and from the
      masks keeps the invariant and leaves other entities' components alone. */
  lemma PurgeKeepsInv<Tag, V>(w: WorldState<Tag, V>, m: SlotMap.SlotMap, id: EntityId)
    requires Inv(w) && SlotMap.Valid(m)
    requires id in w.entities.live && m.live == w.entities.live - {id}
    ensures var w' := WorldState(m, PurgeAll(w.storages, id), w.masks - {id});
      && Inv(w')
      && (forall t :: !HasComponent(w', Entity(id), t) && GetComponent(w', Entity(id), t) == None)
      && (forall d: Entity, t :: d.id != id ==>
            GetComponent(w', d, t) == GetComponent(w, d, t) && HasComponent(w', d, t) == HasComponent(w, d, t))
  {
    var w' := WorldState(m, PurgeAll(w.storages, id), w.masks - {id});
    forall x, t | x in w'.masks && t in w'.masks[x]
      ensures t in w'.storages && x in w'.storages[t]
    {
      assert x in w.masks && t in w.masks[x];
    }
    forall t, x | t in w'.storages && x in w'.storages[t]
      ensures x in w'.masks && t in w'.masks[x]
    {
      assert x in w.storages[t] && x != id;
    }
  }

  /** A successful `remove_entity` purges the entity from the allocator, every
      storage and the masks, and touches nothing that belongs to other entities;
      removing it a second time fails. */
  lemma RemoveEntityPurges<Tag, V>(w: WorldState<Tag, V>, e: Entity)
    requires Inv(w) && EntityExists(w, e)
    ensures var (w', r) := RemoveEntity(w, e);
      && r == Ok(())
      && Inv(w')
      && !EntityExists(w', e)
      && EntityCount(w') == EntityCount(w) - 1
      && e.id !in w'.masks
      && (forall t :: !HasComponent(w', e, t) && GetComponent(w', e, t) == None)
      && (forall t :: t in w'.storages <==> t in w.storages)
      && (forall d: Entity, t :: d.id != e.id ==>
            GetComponent(w', d, t) == GetComponent(w, d, t) && HasComponent(w', d, t) == HasComponent(w, d, t))
      && RemoveEntity(w', e) == (w', Err(EntityNotFound(e)))
  {
    var m := SlotMap.Remove(w.entities, e.id);
    PurgeKeepsInv(w, m, e.id);
  }

  /** `register_component` never replaces or clears an existing storage,
      creates an empty one otherwise, and is idempotent. */
  lemma RegisterComponentKeeps<Tag, V>(w: WorldState<Tag, V>, t: Tag)
    requires Inv(w)
    ensures var w' := RegisterComponent(w, t);
      && Inv(w')
      && t in w'.storages
      && (t !in w.storages ==> w'.storages[t] == map[])
      && (forall u :: u in w.storages ==> u in w'.storages && w'.storages[u] == w.storages[u])
      && w'.entities == w.entities && w'.masks == w.masks
      && (forall e, u :: GetComponent(w', e, u) == GetComponent(w, e, u))
      && RegisterComponent(w', t) == w'
  {
  }

  /** `add_component` on a handle that is not live fails and changes nothing. */
  lemma AddComponentNotFound<Tag, V>(w: WorldState<Tag, V>, e: Entity, t: Tag, v: V)
    requires Inv(w) && !EntityExists(w, e)
    ensures AddComponent(w, e, t, v) == (w, Err(EntityNotFound(e)))
  {
  }

  /** Storing a value for a live entity under a registered type and pushing
      the type on its mask keeps the invariant; the type is then listed once. */
  lemma StoreKeepsInv<Tag, V>(w: WorldState<Tag, V>, id: EntityId, t: Tag, v: V)
    requires Inv(w) && id in w.entities.live && t in w.storages
    ensures var w' := Store(w, id, t, v);
      && Inv(w')
      && multiset(w'.masks[id])[t] == 1
  {
    var w' := Store(w, id, t, v);
    var mask := w.masks[id];
    if t !in mask {
      PushKeepsNoDup(mask, t);
    }
    assert forall u :: u in w'.masks[id] <==> u in mask || u == t;
    assert forall x :: x in w'.masks ==> NoDup(w'.masks[x]);
    NoDupOccursOnce(w'.masks[id], t);
  }

  /** A successful `add_component` registers the type, makes `v` the value
      `get_component` returns, lists the type in the mask exactly once, and
      leaves every other (entity, type) pair and the live set alone. */
  lemma AddComponentStores<Tag, V>(w: WorldState<Tag, V>, e: Entity, t: Tag, v: V)
    requires Inv(w) && EntityExists(w, e)
    ensures var (w', r) := AddComponent(w, e, t, v);
      && r == Ok(())
      && Inv(w')
      && t in w'.storages
      && GetComponent(w', e, t) == Some(v)
      && HasComponent(w', e, t)
      && multiset(w'.masks[e.id])[t] == 1
      && w'.entities == w.entities
      && (forall d: Entity, u :: (d.id != e.id || u != t) ==>
            GetComponent(w', d, u) == GetComponent(w, d, u) && HasComponent(w', d, u) == HasComponent(w, d, u))
  {
    RegisterComponentKeeps(w, t);
    StoreKeepsInv(RegisterComponent(w, t), e.id, t, v);
  }

  /** Overwrite semantics: of two `add_component` calls for the same entity and
      type, the later value is the one `get_component` returns. */
  lemma AddComponentOverwrites<Tag, V>(w: WorldState<Tag, V>, e: Entity, t: Tag, v1: V, v2: V)
    requires Inv(w) && EntityExists(w, e)
    ensures var w1 := AddComponent(w, e, t, v1).0;
      GetComponent(AddComponent(w1, e, t, v2).0, e, t) == Some(v2)
  {
    AddComponentStores(w, e, t, v1);
    var w1 := AddComponent(w, e, t, v1).0;
    AddComponentStores(w1, e, t, v2);
  }

  /** `remove_component` on a handle that is not live fails with EntityNotFound,
      and for a live entity and an unregistered type with ComponentNotRegistered;
      neither changes anything. */
  lemma RemoveComponentErrors<Tag, V>(w: WorldState<Tag, V>, e: Entity, t: Tag, typeName: Tag -> string)
    requires Inv(w)
    ensures !EntityExists(w, e) ==> RemoveComponent(w, e, t, typeName) == (w, Err(EntityNotFound(e)))
    ensures EntityExists(w, e) && t !in w.storages ==>
      RemoveComponent(w, e, t, typeName) == (w, Err(ComponentNotRegistered(typeName(t))))
  {
  }

  /** A successful `remove_component` hands back the value iff there was one,
      and afterwards the entity neither has nor gets that type; every other
      (entity, type) pair, the registrations and the live set are unchanged. */
  lemma RemoveComponentTakesOut<Tag, V>(w: WorldState<Tag, V>, e: Entity, t: Tag, typeName: Tag -> string)
    requires Inv(w) && EntityExists(w, e) && t in w.storages
    ensures var (w', r) := RemoveComponent(w, e, t, typeName);
      && r == Ok(GetComponent(w, e, t))
      && (r.value.Some? <==> HasComponent(w, e, t))
      && Inv(w')
      && GetComponent(w', e, t) == None && !HasComponent(w', e, t)
      && w'.entities == w.entities && w'.storages.Keys == w.storages.Keys
      && (forall d: Entity, u :: (d.id != e.id || u != t) ==>
            GetComponent(w', d, u) == GetComponent(w, d, u) && HasComponent(w', d, u) == HasComponent(w, d, u))
  {
  }

  /** A write through `get_component_mut` is possible exactly when the entity
      has the component, and is what `get_component` returns afterwards;
      masks and every other value are unchanged. */
  lemma GetComponentMutWritesThrough<Tag, V>(w: WorldState<Tag, V>, e: Entity, t: Tag, update: V -> V)
    requires Inv(w)
    ensures var (w', found) := GetComponentMut(w, e, t, update);
      && (found <==> HasComponent(w, e, t))
      && (found ==> GetComponent(w', e, t) == Some(update(GetComponent(w, e, t).value)))
      && (!found ==> w' == w)
      && Inv(w')
      && w'.masks == w.masks && w'.entities == w.entities
      && (forall d: Entity, u :: (d.id != e.id || u != t) ==> GetComponent(w', d, u) == GetComponent(w, d, u))
  {
  }

  // Each operation keeps the invariant (the part of the lemmas above that
  // the in-place World needs).

  lemma CreateEntityKeepsInv<Tag, V>(w: WorldState<Tag, V>)
    requires Inv(w)
    ensures Inv(CreateEntity(w).0)
  {
    var (m, id) := SlotMap.Insert(w.entities);
    FreshEntityKeepsInv(w, m, id);
  }

  lemma RemoveEntityKeepsInv<Tag, V>(w: WorldState<Tag, V>, e: Entity)
    requires Inv(w)
    ensures Inv(RemoveEntity(w, e).0)
  {
    if EntityExists(w, e) {
      PurgeKeepsInv(w, SlotMap.Remove(w.entities, e.id), e.id);
    }
  }

  lemma RegisterComponentKeepsInv<Tag, V>(w: WorldState<Tag, V>, t: Tag)
    requires Inv(w)
    ensures Inv(RegisterComponent(w, t))
  {
  }

  lemma AddComponentKeepsInv<Tag, V>(w: WorldState<Tag, V>, e: Entity, t: Tag, v: V)
    requires Inv(w)
    ensures Inv(AddComponent(w, e, t, v).0)
  {
    if EntityExists(w, e) {
      StoreKeepsInv(RegisterComponent(w, t), e.id, t, v);
    }
  }

  lemma GetComponentMutKeepsInv<Tag, V>(w: WorldState<Tag, V>, e: Entity, t: Tag, update: V -> V)
    requires Inv(w)
    ensures Inv(GetComponentMut(w, e, t, update).0)
  {
  }

  lemma RemoveComponentKeepsInv<Tag, V>(w: WorldState<Tag, V>, e: Entity, t: Tag, typeName: Tag -> string)
    requires Inv(w)
    ensures Inv(RemoveComponent(w, e, t, typeName).0)
  {
    if EntityExists(w, e) && t in w.storages {
      RemoveComponentTakesOut(w, e, t, typeName);
    }
  }

  /** `get_component_storage`: present exactly for registered types, and its
      entries are exactly the entities whose mask lists the type. */
  lemma ComponentStorageMatchesMasks<Tag, V>(w: WorldState<Tag, V>, t: Tag)
    requires Inv(w)
    ensures GetComponentStorage(w, t).Some? <==> t in w.storages
    ensures GetComponentStorage(w, t).Some? ==>
      forall id :: id in GetComponentStorage(w, t).value <==> HasComponent(w, Entity(id), t)
  {
  }

  /** `query_entities(ts)` is exact: it yields the live entities that have
      every type in `ts`, and no other. */
  lemma QueryExact<Tag, V>(w: WorldState<Tag, V>, ts: seq<Tag>)
    requires Inv(w)
    ensures forall id :: id in QueryMatches(w, ts) <==>
      EntityExists(w, Entity(id)) && forall t :: t in ts ==> HasComponent(w, Entity(id), t)
    ensures forall id :: id in QueryMatches(w, ts) ==>
      forall t :: t in ts ==> GetComponent(w, Entity(id), t).Some?
  {
  }

  /** With no required types, every masked (that is, every live) entity matches. */
  lemma QueryNothingRequired<Tag, V>(w: WorldState<Tag, V>)
    requires Inv(w)
    ensures QueryMatches(w, []) == w.masks.Keys == w.entities.live
  {
  }

  /** The result depends only on which types are required, not on their order
      or repetition. */
  lemma QueryOrderIrrelevant<Tag, V>(w: WorldState<Tag, V>, ts1: seq<Tag>, ts2: seq<Tag>)
    requires forall t :: t in ts1 <==> t in ts2
    ensures QueryMatches(w, ts1) == QueryMatches(w, ts2)
  {
  }

  /** The scenario of the world tests: a fresh world has no entity; creating
      one gives a live entity and a count of one; adding a component of one
      type makes exactly that type present and readable; removing the entity
      leaves it dead and the count back at zero. */
  lemma WorldScenario<Tag, V>(position: Tag, velocity: Tag, v: V)
    requires position != velocity
    ensures var w0 := NewWorld<Tag, V>();
      var (w1, e) := CreateEntity(w0);
      var (w2, r2) := AddComponent(w1, e, position, v);
      var (w3, r3) := RemoveEntity(w2, e);
      && EntityCount(w0) == 0
      && EntityCount(w1) == 1 && EntityExists(w1, e)
      && r2 == Ok(())
      && HasComponent(w2, e, position) && !HasComponent(w2, e, velocity)
      && GetComponent(w2, e, position) == Some(v)
      && r3 == Ok(()) && !EntityExists(w3, e) && EntityCount(w3) == 0
  {
    var w0 := NewWorld<Tag, V>();
    CreateEntityCorrect(w0);
    var (w1, e) := CreateEntity(w0);
    AddComponentStores(w1, e, position, v);
    var (w2, r2) := AddComponent(w1, e, position, v);
    RemoveEntityPurges(w2, e);
  }
}
