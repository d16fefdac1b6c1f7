/** `Entity` (ecs/src/entity.rs): an opaque handle that is nothing but the
    allocator key it wraps. */
module EcsEntity {
  import opened SlotMap

  /** `pub type EntityId = DefaultKey`. */
  type EntityId = DefaultKey

  /** Equality of entities is structural, so two entities are equal exactly
      when their ids are. */
  datatype Entity = Entity(id: EntityId)
  {
    /** `Entity::id`. */
    function Id(): (r: EntityId)
      ensures Entity(r) == this
    {
      id
    }
  }

  /** `Entity::new`. */
  function New(id: EntityId): (e: Entity)
    ensures e.Id() == id
  {
    Entity(id)
  }

  /** `impl From<EntityId> for Entity`. */
  function FromId(id: EntityId): (e: Entity)
    ensures e.Id() == id
  {
    New(id)
  }

  /** `impl From<Entity> for EntityId`. */
  function IntoId(e: Entity): (id: EntityId)
    ensures id == e.Id()
  {
    e.id
  }

  /** The two conversions are inverse to each other. */
  lemma ConversionsRoundTrip(id: EntityId, e: Entity)
    ensures IntoId(FromId(id)) == id
    ensures FromId(IntoId(e)) == e
  {
  }

  /** Derived `PartialEq`: entities are equal iff their ids are. */
  lemma EqualIffSameId(a: Entity, b: Entity)
    ensures a == b <==> a.Id() == b.Id()
  {
  }
}
