/** `World` (ecs/src/world.rs): the component store, updated in place. It keeps
    the allocator of live entities, one typed storage object per registered
    component type (keyed by the type's tag) and the per-entity list of present
    types. Every mutator and reader is proved to act on the abstract state
    `State()` exactly as the function of the same name in EcsWorldSpec, and the
    mutators keep `Valid()`, which includes the consistency invariant
    `EcsWorldSpec.Inv`. The two listings are specified separately:
    `QueryEntities` against `QueryMatches`, and `Entities` against liveness. */
module EcsWorld {
  import opened Wrappers
  import SlotMap
  import opened EcsEntity
  import opened EcsCore
  import opened EcsWorldSpec

  class World<Tag(==), V> {
    /** `T::type_name()`, which the compiler supplies for each component type. */
    const typeName: Tag -> string
    var entities: SlotMap.SlotMap
    var componentStorages: map<Tag, TypedComponentStorage<V>>
    var entityComponentMasks: map<EntityId, seq<Tag>>

    /** The contents of every storage, as plain maps. */
    ghost var contents: map<Tag, map<EntityId, V>>
    /** Every key this world has ever handed out. */
    ghost var issued: set<EntityId>
    ghost var Repr: set<object>

    /** The abstract state. */
    ghost function State(): WorldState<Tag, V>
      reads this
    {
      WorldState(entities, contents, entityComponentMasks)
    }

    /** Each tag owns its own storage object, whose entries `contents` mirrors. */
    ghost predicate Linked()
      reads this`componentStorages, this`contents, componentStorages.Values
    {
      && componentStorages.Keys == contents.Keys
      && (forall t :: t in componentStorages ==> componentStorages[t].components == contents[t])
      && (forall t, u :: t in componentStorages && u in componentStorages && t != u ==>
            componentStorages[t] != componentStorages[u])
    }

    /** The storages are linked and the state is consistent. No key ever
        issued is one the allocator could hand out again. */
    ghost predicate Valid()
      reads this, Repr
      ensures Valid() ==> this in Repr
    {
      && this in Repr
      && componentStorages.Values <= Repr
      && Linked()
      && Inv(State())
      && entities.live <= issued
      && (forall k :: k in issued ==> SlotMap.Covers(entities, k))
    }

    /** `World::new`. */
    constructor (typeName: Tag -> string)
      ensures Valid() && fresh(Repr)
      ensures State() == NewWorld() && issued == {}
      ensures this.typeName == typeName
    {
      this.typeName := typeName;
      entities := SlotMap.New();
      componentStorages := map[];
      entityComponentMasks := map[];
      contents := map[];
      issued := {};
      Repr := {this};
    }

    /** `create_entity`. The new handle was never issued before, so no stale
        handle can alias it. */
    method CreateEntity() returns (e: Entity)
      requires Valid()
      modifies this
      ensures Valid() && Repr == old(Repr)
      ensures (State(), e) == EcsWorldSpec.CreateEntity(old(State()))
      ensures e.id !in old(issued) && issued == old(issued) + {e.id}
    {
      ghost var before := State();
      var (m, id) := SlotMap.Insert(entities);
      entities := m;
      entityComponentMasks := entityComponentMasks[id := []];
      issued := issued + {id};
      e := New(id);
      assert State() == WorldState(m, before.storages, before.masks[id := []]);
      FreshEntityKeepsInv(before, m, id);
    }

    /** `remove_entity`: visit every storage and take the entity out, then free
        the key and drop the mask. */
    method RemoveEntity(e: Entity) returns (r: EcsResult<()>)
      requires Valid()
      modifies Repr
      ensures Valid() && Repr == old(Repr) && issued == old(issued)
      ensures (State(), r) == EcsWorldSpec.RemoveEntity(old(State()), e)
    {
      var id := e.id;
      if !SlotMap.Contains(entities, id) {
        return Err(EntityNotFound(e));
      }
      ghost var before := State();
      PurgeStorages(componentStorages, id);
      var m := SlotMap.Remove(entities, id);
      entities := m;
      entityComponentMasks := entityComponentMasks - {id};
      contents := PurgeAll(contents, id);
      r := Ok(());
      assert State() == WorldState(m, PurgeAll(before.storages, id), before.masks - {id});
      PurgeKeepsInv(before, m, id);
    }

    /** `entity_exists`. */
    function EntityExists(e: Entity): (b: bool)
      requires Valid()
      reads Repr
      ensures b == EcsWorldSpec.EntityExists(State(), e)
    {
      SlotMap.Contains(entities, e.id)
    }

    /** `entity_count`. */
    function EntityCount(): (n: nat)
      reads this
      ensures n == EcsWorldSpec.EntityCount(State())
    {
      SlotMap.Len(entities)
    }

    /** `register_component`: create a storage only when the type has none. */
    method RegisterComponent(t: Tag)
      requires Valid()
      modifies this
      ensures Valid() && fresh(Repr - old(Repr)) && issued == old(issued)
      ensures State() == EcsWorldSpec.RegisterComponent(old(State()), t)
      ensures t in old(componentStorages) ==> componentStorages == old(componentStorages)
    {
      ghost var before := State();
      if t !in componentStorages {
        var storage := new TypedComponentStorage<V>();
        componentStorages := componentStorages[t := storage];
        contents := contents[t := map[]];
        Repr := Repr + {storage};
      }
      assert State() == EcsWorldSpec.RegisterComponent(before, t);
      RegisterComponentKeepsInv(before, t);
    }

    /** `add_component`. */
    method AddComponent(e: Entity, t: Tag, v: V) returns (r: EcsResult<()>)
      requires Valid()
      modifies Repr
      ensures Valid() && fresh(Repr - old(Repr)) && issued == old(issued)
      ensures (State(), r) == EcsWorldSpec.AddComponent(old(State()), e, t, v)
    {
      if !SlotMap.Contains(entities, e.id) {
        return Err(EntityNotFound(e));
      }
      RegisterComponent(t);
      Store(e.id, t, v);
      r := Ok(());
    }

    /** The rest of `add_component` once the type is registered: insert into
        its storage, then push the type on the mask unless already listed. */
    method Store(id: EntityId, t: Tag, v: V)
      requires Valid() && id in entities.live && t in componentStorages
      modifies Repr
      ensures Valid() && Repr == old(Repr) && issued == old(issued)
      ensures State() == EcsWorldSpec.Store(old(State()), id, t, v)
    {
      ghost var before := State();
      componentStorages[t].Insert(id, v);
      contents := contents[t := contents[t][id := v]];
      if id in entityComponentMasks {
        var mask := entityComponentMasks[id];
        if t !in mask {
          entityComponentMasks := entityComponentMasks[id := mask + [t]];
        }
      }
      assert State() == EcsWorldSpec.Store(before, id, t, v);
      StoreKeepsInv(before, id, t, v);
    }

    /** `get_component`: absence for an unregistered type or a missing entry. */
    function GetComponent(e: Entity, t: Tag): (r: Option<V>)
      requires Valid()
      reads Repr
      ensures r == EcsWorldSpec.GetComponent(State(), e, t)
    {
      if t in componentStorages then componentStorages[t].Get(e.id) else None
    }

    /** `get_component_mut`, followed by the write `update` through the
        returned reference. */
    method GetComponentMut(e: Entity, t: Tag, update: V -> V) returns (found: bool)
      requires Valid()
      modifies Repr
      ensures Valid() && Repr == old(Repr) && issued == old(issued)
      ensures (State(), found) == EcsWorldSpec.GetComponentMut(old(State()), e, t, update)
    {
      if t !in componentStorages {
        return false;
      }
      ghost var before := State();
      found := componentStorages[t].GetMut(e.id, update);
      if found {
        contents := contents[t := componentStorages[t].components];
      }
      assert (State(), found) == EcsWorldSpec.GetComponentMut(before, e, t, update);
      GetComponentMutKeepsInv(before, e, t, update);
    }

    /** `remove_component`. */
    method RemoveComponent(e: Entity, t: Tag) returns (r: EcsResult<Option<V>>)
      requires Valid()
      modifies Repr
      ensures Valid() && Repr == old(Repr) && issued == old(issued)
      ensures (State(), r) == EcsWorldSpec.RemoveComponent(old(State()), e, t, typeName)
    {
      var id := e.id;
      if !SlotMap.Contains(entities, id) {
        return Err(EntityNotFound(e));
      }
      if t !in componentStorages {
        return Err(ComponentNotRegistered(typeName(t)));
      }
      ghost var before := State();
      var component := componentStorages[t].Remove(id);
      contents := contents[t := contents[t] - {id}];
      if id in entityComponentMasks {
        entityComponentMasks := entityComponentMasks[id := Without(entityComponentMasks[id], t)];
      }
      r := Ok(component);
      assert (State(), r) == EcsWorldSpec.RemoveComponent(before, e, t, typeName);
      RemoveComponentKeepsInv(before, e, t, typeName);
    }

    /** `has_component`: a mask lookup, so an unknown entity or type is absent. */
    function HasComponent(e: Entity, t: Tag): (b: bool)
      reads this
      ensures b == EcsWorldSpec.HasComponent(State(), e, t)
    {
      e.id in entityComponentMasks && t in entityComponentMasks[e.id]
    }

    /** `query_entities`: scan every mask and keep the entities that list all
        of `ts`; each matching entity exactly once, in no promised order. */
    method QueryEntities(ts: seq<Tag>) returns (r: seq<Entity>)
      requires Valid()
      ensures forall i, j :: 0 <= i < j < |r| ==> r[i] != r[j]
      ensures forall e :: e in r <==> e.id in QueryMatches(State(), ts)
      ensures forall e :: e in r <==> (EntityExists(e) && forall t :: t in ts ==> HasComponent(e, t))
    {
      r := [];
      var pending := entityComponentMasks.Keys;
      while pending != {}
        invariant pending <= entityComponentMasks.Keys
        invariant forall i, j :: 0 <= i < j < |r| ==> r[i] != r[j]
        invariant forall e :: e in r <==> e.id !in pending && e.id in QueryMatches(State(), ts)
        decreases pending
      {
        var id :| id in pending;
        if ContainsAll(entityComponentMasks[id], ts) {
          r := r + [New(id)];
        }
        pending := pending - {id};
      }
      QueryExact(State(), ts);
    }

    /** `entities()`: every live entity exactly once, in no promised order. */
    method Entities() returns (r: seq<Entity>)
      requires Valid()
      ensures |r| == EntityCount()
      ensures forall i, j :: 0 <= i < j < |r| ==> r[i] != r[j]
      ensures forall e :: e in r <==> EntityExists(e)
    {
      r := [];
      var pending := entities.live;
      while pending != {}
        invariant pending <= entities.live
        invariant |r| + |pending| == |entities.live|
        invariant forall i, j :: 0 <= i < j < |r| ==> r[i] != r[j]
        invariant forall e :: e in r <==> e.id in entities.live && e.id !in pending
        decreases pending
      {
        var id :| id in pending;
        r := r + [New(id)];
        pending := pending - {id};
      }
    }

    /** `get_component_storage` (and `get_component_storage_mut`, which hands
        out the same object for writing): the storage registered for `t`,
        whose entries are exactly the entities whose mask lists `t`. */
    function GetComponentStorage(t: Tag): (r: Option<TypedComponentStorage<V>>)
      requires Valid()
      reads Repr
      ensures r.Some? <==> t in componentStorages
      ensures r.Some? ==> r.value == componentStorages[t] && r.value.components == contents[t]
      ensures r.Some? ==> forall id :: id in r.value.components <==> HasComponent(Entity(id), t)
    {
      ComponentStorageMatchesMasks(State(), t);
      if t in componentStorages then Some(componentStorages[t]) else None
    }
  }

  /** The loop of `remove_entity` over every storage: each distinct storage
      object loses its entry for `id` (`remove_entity` through the erased
      interface), and nothing else changes. */
  method PurgeStorages<Tag, V>(storages: map<Tag, TypedComponentStorage<V>>, id: EntityId)
    requires forall t, u :: t in storages && u in storages && t != u ==> storages[t] != storages[u]
    modifies storages.Values
    ensures forall t :: t in storages ==> storages[t].components == old(storages[t].components) - {id}
  {
    var pending := storages.Values;
    while pending != {}
      invariant pending <= storages.Values
      invariant forall t :: t in storages ==>
        storages[t].components == if storages[t] in pending then old(storages[t].components) else old(storages[t].components) - {id}
      decreases pending
    {
      var storage :| storage in pending;
      var existed := storage.RemoveErased(id);
      pending := pending - {storage};
    }
  }
}
