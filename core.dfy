/** The crate root (ecs/src/lib.rs): the error taxonomy and the typed component
    storage that backs one component type. */
module EcsCore {
  import opened Wrappers
  import opened EcsEntity

  /** `EcsError`: exactly three kinds of failure. */
  datatype EcsError =
    | EntityNotFound(entity: Entity)
    | ComponentNotRegistered(typeName: string)
    | SystemError(message: string)

  /** `EcsResult<T> = Result<T, EcsError>`. */
  datatype EcsResult<+T> = Ok(value: T) | Err(error: EcsError)

  /** `TypedComponentStorage<T>`: one value of the component type per entity. */
  class TypedComponentStorage<V> {
    var components: map<EntityId, V>

    /** `new`: an empty storage. */
    constructor ()
      ensures components == map[]
    {
      components := map[];
    }

    /** `insert`: stores `v` for `entity`, replacing any previous value. */
    method Insert(entity: EntityId, v: V)
      modifies this
      ensures components == old(components)[entity := v]
      ensures Get(entity) == Some(v)
      ensures forall other :: other != entity ==> Get(other) == old(Get(other))
    {
      components := components[entity := v];
    }

    /** `get`: the value stored for `entity`, if any. */
    function Get(entity: EntityId): (r: Option<V>)
      reads this
      ensures r.Some? <==> entity in components
      ensures r.Some? ==> components[entity] == r.value
    {
      if entity in components then Some(components[entity]) else None
    }

    /** `get_mut` followed by a write through the returned reference: the
        reference exists exactly when `get` would find a value, and the written
        value is what `get` returns afterwards. `update` stands for what the
        caller does with the reference. */
    method GetMut(entity: EntityId, update: V -> V) returns (found: bool)
      modifies this
      ensures found == old(Get(entity)).Some?
      ensures found ==> components == old(components)[entity := update(old(components)[entity])]
      ensures !found ==> components == old(components)
      ensures found ==> Get(entity) == Some(update(old(Get(entity)).value))
    {
      found := entity in components;
      if found {
        components := components[entity := update(components[entity])];
      }
    }

    /** Typed `remove`: hands back the previous value, if any. */
    method Remove(entity: EntityId) returns (r: Option<V>)
      modifies this
      ensures r == old(Get(entity))
      ensures components == old(components) - {entity}
      ensures Get(entity) == None
    {
      r := Get(entity);
      components := components - {entity};
    }

    /** Type-erased `ComponentStorage::remove`: reports whether an entry existed. */
    method RemoveErased(entity: EntityId) returns (existed: bool)
      modifies this
      ensures existed <==> entity in old(components)
      ensures components == old(components) - {entity}
    {
      var removed := Remove(entity);
      existed := removed.Some?;
    }

    /** `iter`: every stored (entity, value) pair exactly once, in an order the
        model leaves unspecified. */
    method Iter() returns (pairs: seq<(EntityId, V)>)
      ensures |pairs| == |components|
      ensures forall i :: 0 <= i < |pairs| ==> pairs[i].0 in components && components[pairs[i].0] == pairs[i].1
      ensures forall e :: e in components ==> exists i :: 0 <= i < |pairs| && pairs[i].0 == e
      ensures forall i, j :: 0 <= i < j < |pairs| ==> pairs[i].0 != pairs[j].0
    {
      pairs := [];
      var rest := components.Keys;
      while rest != {}
        invariant rest <= components.Keys
        invariant |pairs| + |rest| == |components|
        invariant forall i :: 0 <= i < |pairs| ==> pairs[i].0 in components && pairs[i].0 !in rest && components[pairs[i].0] == pairs[i].1
        invariant forall e :: e in components && e !in rest ==> exists i :: 0 <= i < |pairs| && pairs[i].0 == e
        invariant forall i, j :: 0 <= i < j < |pairs| ==> pairs[i].0 != pairs[j].0
        decreases rest
      {
        var e :| e in rest;
        ghost var before := pairs;
        pairs := pairs + [(e, components[e])];
        rest := rest - {e};
        forall d | d in components && d !in rest
          ensures exists i :: 0 <= i < |pairs| && pairs[i].0 == d
        {
          if d == e {
            assert pairs[|before|].0 == d;
          } else {
            var i :| 0 <= i < |before| && before[i].0 == d;
            assert pairs[i].0 == d;
          }
        }
      }
    }
  }
}
