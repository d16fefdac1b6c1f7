/** The generational key allocator that the World uses for its live-entity set
    (the `slotmap` crate's SlotMap with DefaultKey). A key is a slot index plus the
    version the slot had when the key was issued. A slot's version is odd while
    the slot is occupied and even while it is vacant; removing a key bumps the
    version and pushes the slot on the free list, and inserting pops the free list
    (or appends a new slot) and bumps the version again. Hence a key, once removed,
    is never issued again. Every key is paired with the value `Entity::new(key)`,
    so the values are not stored. */
module SlotMap {

  /** The crate's DefaultKey: slot index and version. */
  datatype DefaultKey = DefaultKey(idx: nat, version: nat)

  /** `versions[i]` is the current version of slot i; `freeList` holds the vacant
      slots, the next one to reuse first; `live` is the set of keys present. */
  datatype SlotMap = SlotMap(versions: seq<nat>, freeList: seq<nat>, live: set<DefaultKey>)

  predicate Odd(n: nat)
  {
    n % 2 == 1
  }

  /** A key that `m` may have issued in the past: its slot exists and the slot's
      version has reached the key's version. Every issued key stays covered. */
  ghost predicate Covers(m: SlotMap, k: DefaultKey)
  {
    k.idx < |m.versions| && k.version <= m.versions[k.idx]
  }

  ghost predicate Valid(m: SlotMap)
  {
    && (forall k :: k in m.live ==> k.idx < |m.versions| && m.versions[k.idx] == k.version && Odd(k.version))
    && (forall i :: 0 <= i < |m.versions| && Odd(m.versions[i]) ==> DefaultKey(i, m.versions[i]) in m.live)
    && (forall j :: 0 <= j < |m.freeList| ==> m.freeList[j] < |m.versions| && !Odd(m.versions[m.freeList[j]]))
    && (forall i, j :: 0 <= i < j < |m.freeList| ==> m.freeList[i] != m.freeList[j])
  }

  /** `SlotMap::new()`. */
  function New(): (m: SlotMap)
    ensures Valid(m) && m.live == {}
    ensures forall k :: !Covers(m, k)
  {
    SlotMap([], [], {})
  }

  /** `contains_key`: the slot exists, is occupied and carries the key's version. */
  function Contains(m: SlotMap, k: DefaultKey): (b: bool)
    requires Valid(m)
    ensures b <==> k in m.live
  {
    k.idx < |m.versions| && m.versions[k.idx] == k.version && Odd(k.version)
  }

  /** `len()`. */
  function Len(m: SlotMap): nat
  {
    |m.live|
  }

  /** `insert_with_key`: reuse the most recently freed slot, or append a new one. */
  function Insert(m: SlotMap): (r: (SlotMap, DefaultKey))
    requires Valid(m)
    ensures Valid(r.0)
    ensures r.1 !in m.live && r.0.live == m.live + {r.1}
    ensures Len(r.0) == Len(m) + 1
    ensures !Covers(m, r.1) && Covers(r.0, r.1)
    ensures forall k :: Covers(m, k) ==> Covers(r.0, k)
  {
    if |m.freeList| > 0 then
      var s := m.freeList[0];
      var k := DefaultKey(s, m.versions[s] + 1);
      var m' := SlotMap(m.versions[s := k.version], m.freeList[1..], m.live + {k});
      ReuseKeepsValid(m, m', k);
      (m', k)
    else
      var k := DefaultKey(|m.versions|, 1);
      (SlotMap(m.versions + [1], [], m.live + {k}), k)
  }

  /** Occupying the head of the free list with the next (odd) version. */
  lemma ReuseKeepsValid(m: SlotMap, m': SlotMap, k: DefaultKey)
    requires Valid(m) && |m.freeList| > 0
    requires k == DefaultKey(m.freeList[0], m.versions[m.freeList[0]] + 1)
    requires m' == SlotMap(m.versions[k.idx := k.version], m.freeList[1..], m.live + {k})
    ensures Valid(m') && k !in m.live
  {
    var s := k.idx;
    assert forall j :: 0 <= j < |m'.freeList| ==> m'.freeList[j] == m.freeList[j + 1];
    assert forall j :: 0 <= j < |m'.freeList| ==> m'.freeList[j] != s;
    forall c | c in m'.live
      ensures c.idx < |m'.versions| && m'.versions[c.idx] == c.version && Odd(c.version)
    {
      if c != k {
        assert c in m.live;
      }
    }
  }

  /** `remove` of a present key: the slot's version is bumped to even and the
      slot is pushed on the free list. */
  function Remove(m: SlotMap, k: DefaultKey): (m': SlotMap)
    requires Valid(m) && k in m.live
    ensures Valid(m')
    ensures m'.live == m.live - {k}
    ensures Len(m') == Len(m) - 1
    ensures forall c :: Covers(m, c) ==> Covers(m', c)
  {
    var m' := SlotMap(m.versions[k.idx := k.version + 1], [k.idx] + m.freeList, m.live - {k});
    assert forall j :: 1 <= j < |m'.freeList| ==> m'.freeList[j] == m.freeList[j - 1];
    m'
  }

  /** A removed key can never come back: after removing `k`, inserting yields a
      different key, and `k` stays absent. */
  lemma {:induction false} RemovedKeyNotReissued(m: SlotMap, k: DefaultKey)
    requires Valid(m) && k in m.live
    ensures Insert(Remove(m, k)).1 != k
    ensures k !in Insert(Remove(m, k)).0.live
  {
    var m' := Remove(m, k);
    assert Covers(m, k);
    assert Covers(m', k);
  }
}
