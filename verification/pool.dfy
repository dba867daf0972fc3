/** Pool<T> / Entity_Pool<T>: dense component storage with swap-removal
    (src/ecs/Pool.hpp, src/ecs/ecs.inl, src/2d_engine/ecs.hpp).

    `data` is the backing vector; a slot holding `None` is a
    default-constructed `T` that no entity has written. Slots `[0, size)`
    are occupied, and the two index maps are inverse to each other over
    exactly those slots. */
module Pools {
  import opened Faults

  /** The constructor's default capacity. */
  const DefaultCapacity: nat := 128

  datatype Pool<T> = Pool(
    data: seq<Option<T>>,
    size: nat,
    entityToIndex: map<int, int>,
    indexToEntity: map<int, int>)

  /** The bookkeeping every pool built by New/Set/Remove keeps. */
  ghost predicate Valid<T>(p: Pool<T>)
  {
    && 0 < |p.data|
    && p.size <= |p.data|
    && (forall e :: e in p.entityToIndex ==>
          && 0 <= e
          && 0 <= p.entityToIndex[e] < p.size
          && p.entityToIndex[e] in p.indexToEntity
          && p.indexToEntity[p.entityToIndex[e]] == e)
    && (forall i :: i in p.indexToEntity ==>
          && 0 <= i < p.size
          && p.indexToEntity[i] in p.entityToIndex
          && p.entityToIndex[p.indexToEntity[i]] == i)
    && (forall i :: 0 <= i < p.size ==> i in p.indexToEntity && p.data[i].Some?)
  }

  /** What the pool stores, seen from outside: each entity's component. */
  ghost function Contents<T>(p: Pool<T>): map<int, T>
    requires Valid(p)
  {
    map e | e in p.entityToIndex :: p.data[p.entityToIndex[e]].value
  }

  /** The entities with a stored component are exactly the mapped ones. */
  lemma ContentsKeys<T>(p: Pool<T>)
    requires Valid(p)
    ensures forall e :: e in Contents(p) <==> e in p.entityToIndex
  {
  }

  /** The slot numbers 0 .. n - 1. */
  function SlotRange(n: nat): (r: set<int>)
    ensures forall i :: i in r <==> 0 <= i < n
    ensures |r| == n
  {
    if n == 0 then {} else SlotRange(n - 1) + {n - 1}
  }

  /** The occupied slots are exactly as many as the stored entities. */
  lemma SizeCountsEntities<T>(p: Pool<T>)
    requires Valid(p)
    ensures |p.entityToIndex.Keys| == p.size
  {
    assert p.indexToEntity.Keys == SlotRange(p.size);
    MapBijection(p.entityToIndex, p.indexToEntity);
  }

  lemma {:induction false} MapBijection(f: map<int, int>, g: map<int, int>)
    requires forall x :: x in f ==> f[x] in g && g[f[x]] == x
    requires forall y :: y in g ==> g[y] in f && f[g[y]] == y
    ensures |f.Keys| == |g.Keys|
    decreases |f.Keys|
  {
    if |f.Keys| == 0 {
      assert f.Keys == {};
      assert forall y :: y in g ==> g[y] in f.Keys;
      assert g.Keys == {};
    } else {
      assert (forall k :: k !in f.Keys) ==> f.Keys == {};
      var x :| x in f.Keys;
      var y := f[x];
      var f', g' := f - {x}, g - {y};
      assert f'.Keys == f.Keys - {x};
      assert g'.Keys == g.Keys - {y};
      MapBijection(f', g');
    }
  }

  /** `Pool(capacity)`: no entity, and `capacity` default-constructed slots. */
  function New<T>(capacity: nat): (p: Pool<T>)
    requires 0 < capacity
    ensures Valid(p)
    ensures p.size == 0 && |p.data| == capacity
    ensures Contents(p) == map[]
  {
    Pool(seq(capacity, _ => None), 0, map[], map[])
  }

  /** `add`: appends a value past the backing vector, owned by no entity. */
  function Append<T>(p: Pool<T>, v: T): (r: Pool<T>)
    requires Valid(p)
    ensures Valid(r) && r.size == p.size
    ensures Contents(r) == Contents(p)
    ensures r.data[|r.data| - 1] == Some(v)
  {
    var r := p.(data := p.data + [Some(v)]);
    assert forall e :: e in r.entityToIndex ==> r.data[r.entityToIndex[e]] == p.data[p.entityToIndex[e]];
    r
  }

  /** `set`: upsert of the entity's component. An entity already present
      is overwritten in its slot; a new one takes slot `size`, both maps
      record it, and the backing vector doubles when that slot lies past
      its end. */
  function Set<T>(p: Pool<T>, e: int, v: T): (r: Result<Pool<T>>)
    requires Valid(p)
    ensures r.Fail? <==> e < 0
    ensures r.Fail? ==> r.fault == NegativeEntityId
    ensures r.Ok? ==> Valid(r.value) && Contents(r.value) == Contents(p)[e := v]
    ensures r.Ok? ==> r.value.entityToIndex.Keys == p.entityToIndex.Keys + {e}
    ensures r.Ok? && e in p.entityToIndex ==>
      && r.value.size == p.size
      && r.value.entityToIndex == p.entityToIndex
      && r.value.indexToEntity == p.indexToEntity
    ensures r.Ok? && e !in p.entityToIndex ==>
      && r.value.size == p.size + 1
      && r.value.entityToIndex == p.entityToIndex[e := p.size]
      && r.value.indexToEntity == p.indexToEntity[p.size := e]
      && r.value.data[p.size] == Some(v)
  {
    if e < 0 then Fail(NegativeEntityId)
    else if e in p.entityToIndex then
      var r := p.(data := p.data[p.entityToIndex[e] := Some(v)]);
      SetExistingKeepsOthers(p, e, v, r);
      Ok(r)
    else
      var index := p.size;
      var grown := if index >= |p.data| then p.data + seq(p.size * 2 - |p.data|, _ => None) else p.data;
      var r := Pool(grown[index := Some(v)], p.size + 1,
                    p.entityToIndex[e := index], p.indexToEntity[index := e]);
      SetNewKeepsOthers(p, e, v, grown, r);
      Ok(r)
  }

  lemma SetExistingKeepsOthers<T>(p: Pool<T>, e: int, v: T, r: Pool<T>)
    requires Valid(p) && e in p.entityToIndex
    requires r == p.(data := p.data[p.entityToIndex[e] := Some(v)])
    ensures Valid(r) && Contents(r) == Contents(p)[e := v]
  {
    forall x | x in p.entityToIndex && x != e
      ensures r.data[r.entityToIndex[x]] == p.data[p.entityToIndex[x]]
    {
      assert p.entityToIndex[x] != p.entityToIndex[e];
    }
  }

  lemma SetNewKeepsOthers<T>(p: Pool<T>, e: int, v: T, grown: seq<Option<T>>, r: Pool<T>)
    requires Valid(p) && e !in p.entityToIndex && 0 <= e
    requires p.size < |grown| && |p.data| <= |grown| && grown[..|p.data|] == p.data
    requires r == Pool(grown[p.size := Some(v)], p.size + 1,
                       p.entityToIndex[e := p.size], p.indexToEntity[p.size := e])
    ensures Valid(r) && Contents(r) == Contents(p)[e := v]
  {
    assert p.size !in p.indexToEntity;
    forall x | x in p.entityToIndex
      ensures r.data[r.entityToIndex[x]] == p.data[p.entityToIndex[x]]
    {
      assert grown[p.entityToIndex[x]] == grown[..|p.data|][p.entityToIndex[x]];
    }
    forall i | 0 <= i < r.size ensures i in r.indexToEntity && r.data[i].Some? {
      if i < p.size {
        assert grown[i] == grown[..|p.data|][i];
      }
    }
  }

  /** `get`: the component stored for an entity the pool holds. Looking up
      an absent entity is left undefined here as in the source. */
  function Get<T>(p: Pool<T>, e: int): (v: T)
    requires Valid(p)
    requires e in p.entityToIndex
    ensures e in Contents(p) && Contents(p)[e] == v
  {
    p.data[p.entityToIndex[e]].value
  }

  /** `remove`, as written: fatal on an empty pool; otherwise the last
      occupied slot is copied into the removed one and both maps follow.
      The removed slot is read with `unordered_map::operator[]`, which for
      an entity the pool does not hold yields slot 0. */
  function Remove<T>(p: Pool<T>, e: int): (r: Result<Pool<T>>)
    requires Valid(p)
    ensures r.Fail? <==> p.size == 0
    ensures r.Fail? ==> r.fault == PoolEmpty
    ensures r.Ok? ==> r.value.size == p.size - 1 && e !in r.value.entityToIndex
    ensures r.Ok? && e in p.entityToIndex ==>
      Valid(r.value) && Contents(r.value) == Contents(p) - {e}
    ensures r.Ok? && e in p.entityToIndex ==>
      r.value.entityToIndex.Keys == p.entityToIndex.Keys - {e}
  {
    if p.size == 0 then Fail(PoolEmpty)
    else
      var removed := if e in p.entityToIndex then p.entityToIndex[e] else 0;
      var last := p.size - 1;
      var lastEntity := p.indexToEntity[last];
      var r := Pool(
        p.data[removed := p.data[last]],
        p.size - 1,
        p.entityToIndex[lastEntity := removed] - {e},
        p.indexToEntity[removed := lastEntity] - {last});
      if e in p.entityToIndex then
        RemovePresentKeepsOthers(p, e, r);
        Ok(r)
      else
        Ok(r)
  }

  lemma RemovePresentKeepsOthers<T>(p: Pool<T>, e: int, r: Pool<T>)
    requires Valid(p) && e in p.entityToIndex
    requires var removed := p.entityToIndex[e];
      var last := p.size - 1;
      var lastEntity := p.indexToEntity[last];
      r == Pool(p.data[removed := p.data[last]], p.size - 1,
                p.entityToIndex[lastEntity := removed] - {e},
                p.indexToEntity[removed := lastEntity] - {last})
    ensures Valid(r) && Contents(r) == Contents(p) - {e}
    ensures r.entityToIndex.Keys == p.entityToIndex.Keys - {e}
  {
    var removed := p.entityToIndex[e];
    var last := p.size - 1;
    var lastEntity := p.indexToEntity[last];
    assert lastEntity in p.entityToIndex && p.entityToIndex[lastEntity] == last;
    forall x | x in r.entityToIndex
      ensures 0 <= x && 0 <= r.entityToIndex[x] < r.size
      ensures r.entityToIndex[x] in r.indexToEntity && r.indexToEntity[r.entityToIndex[x]] == x
      ensures r.data[r.entityToIndex[x]] == p.data[p.entityToIndex[x]]
    {
      if x == lastEntity {
        assert removed != last;
      } else {
        assert p.entityToIndex[x] != removed && p.entityToIndex[x] != last;
      }
    }
    forall i | i in r.indexToEntity
      ensures 0 <= i < r.size
      ensures r.indexToEntity[i] in r.entityToIndex && r.entityToIndex[r.indexToEntity[i]] == i
    {
      if i == removed {
        assert removed != last;
      } else {
        assert p.indexToEntity[i] != e && p.indexToEntity[i] != lastEntity;
      }
    }
    forall i | 0 <= i < r.size ensures i in r.indexToEntity && r.data[i].Some? {
    }
    assert r.entityToIndex.Keys == p.entityToIndex.Keys - {e};
  }

  /** `remove_entity_from_pool`: `remove` guarded by a presence check, so an
      absent entity leaves the pool untouched. */
  function RemoveEntityFromPool<T>(p: Pool<T>, e: int): (r: Pool<T>)
    requires Valid(p)
    ensures Valid(r)
    ensures Contents(r) == Contents(p) - {e}
    ensures e !in r.entityToIndex
    ensures r.entityToIndex.Keys == p.entityToIndex.Keys - {e}
    ensures e !in p.entityToIndex ==> r == p
    ensures e in p.entityToIndex ==> Remove(p, e) == Ok(r)
  {
    if e in p.entityToIndex then
      assert p.entityToIndex[e] < p.size;
      Remove(p, e).value
    else
      assert p.entityToIndex.Keys - {e} == p.entityToIndex.Keys;
      p
  }

  /** `Entity_Pool::operator[]` (cv copy): a raw slot of the backing
      vector, fatal below 0 or at or past its length. */
  function Slot<T>(p: Pool<T>, index: int): (r: Result<Option<T>>)
    ensures r.Ok? <==> 0 <= index < |p.data|
    ensures r.Ok? ==> r.value == p.data[index]
    ensures r.Fail? ==> r.fault == SlotOutOfRange
  {
    if index < 0 then Fail(SlotOutOfRange)
    else if index >= |p.data| then Fail(SlotOutOfRange)
    else Ok(p.data[index])
  }

  /** `Pool::operator[]` (jbx copy) as written: `EXPECT(index > 0 && ...)`
      refuses slot 0 along with the negative ones. */
  function SlotJbx<T>(p: Pool<T>, index: int): (r: Result<Option<T>>)
    ensures r.Ok? <==> 0 < index < |p.data|
    ensures r.Ok? ==> r.value == p.data[index]
  {
    if index > 0 && index < |p.data| then Ok(p.data[index]) else Fail(SlotOutOfRange)
  }

  /** `operator[]` at a held entity's slot reads what `get` returns; the
      jbx `operator[]` refuses exactly the entity held in slot 0. */
  lemma SlotReadsGet<T>(p: Pool<T>, e: int)
    requires Valid(p) && e in p.entityToIndex
    ensures Slot(p, p.entityToIndex[e]) == Ok(Some(Get(p, e)))
    ensures SlotJbx(p, p.entityToIndex[e]).Fail? <==> p.entityToIndex[e] == 0
    ensures SlotJbx(p, p.entityToIndex[e]).Fail? <==> 0 in p.indexToEntity && p.indexToEntity[0] == e
  {
  }

  /** `get(e)` after `set(e, v)` returns `v`, and every other entity keeps
      the value it had. */
  lemma SetGetRoundTrip<T>(p: Pool<T>, e: int, v: T, x: int)
    requires Valid(p) && 0 <= e
    ensures Set(p, e, v).Ok?
    ensures e in Set(p, e, v).value.entityToIndex && Get(Set(p, e, v).value, e) == v
    ensures x != e && x in p.entityToIndex ==>
      x in Set(p, e, v).value.entityToIndex && Get(Set(p, e, v).value, x) == Get(p, x)
  {
    var r := Set(p, e, v).value;
    assert e in Contents(r);
    if x != e && x in p.entityToIndex {
      assert x in Contents(r);
    }
  }

  /** After `remove(e)` of a held entity, every other entity - the one moved
      out of the last slot included - still reads its own value. */
  lemma RemoveKeepsOtherValues<T>(p: Pool<T>, e: int, x: int)
    requires Valid(p) && e in p.entityToIndex
    requires x in p.entityToIndex && x != e
    ensures Remove(p, e).Ok?
    ensures x in Remove(p, e).value.entityToIndex
    ensures Get(Remove(p, e).value, x) == Get(p, x)
  {
    assert p.entityToIndex[e] < p.size;
    var r := Remove(p, e).value;
    assert x in Contents(r);
  }

  /** Removing the entity in the last occupied slot copies that slot onto
      itself: the backing vector is unchanged and only that entity leaves. */
  lemma RemoveLastSlotIsSelfSwap<T>(p: Pool<T>, e: int)
    requires Valid(p) && e in p.entityToIndex
    requires p.entityToIndex[e] == p.size - 1
    ensures Remove(p, e).Ok?
    ensures Remove(p, e).value.data == p.data
    ensures Remove(p, e).value.entityToIndex == p.entityToIndex - {e}
    ensures Remove(p, e).value.indexToEntity == p.indexToEntity - {p.size - 1}
  {
  }

  /** `set` then `remove` of a new entity restores what the pool stores. */
  lemma SetThenRemoveRestores<T>(p: Pool<T>, e: int, v: T)
    requires Valid(p) && 0 <= e && e !in p.entityToIndex
    ensures Set(p, e, v).Ok?
    ensures Remove(Set(p, e, v).value, e).Ok?
    ensures Contents(Remove(Set(p, e, v).value, e).value) == Contents(p)
    ensures Remove(Set(p, e, v).value, e).value.size == p.size
  {
    var r := Set(p, e, v).value;
    assert e in r.entityToIndex;
    assert Contents(r) - {e} == Contents(p);
  }

  /** `remove` of an entity the pool does not hold, on a non-empty pool,
      is not harmless: slot 0 is overwritten by the last slot while its
      owner keeps pointing at it, so entity 1 afterwards reads entity 2's
      value and the maps are no longer inverse. */
  lemma RemoveAbsentCorruptsPool()
    ensures var p := Pool([Some(10), Some(20)], 2, map[1 := 0, 2 := 1], map[0 := 1, 1 := 2]);
      && Valid(p)
      && 3 !in p.entityToIndex
      && Remove(p, 3).Ok?
      && Remove(p, 3).value.entityToIndex == map[1 := 0, 2 := 0]
      && Remove(p, 3).value.data[0] == Some(20)
      && !Valid(Remove(p, 3).value)
  {
    var p := Pool([Some(10), Some(20)], 2, map[1 := 0, 2 := 1], map[0 := 1, 1 := 2]);
    var r := Remove(p, 3).value;
    assert r.entityToIndex == map[1 := 0, 2 := 0];
    assert r.indexToEntity == map[0 := 2];
    assert r.indexToEntity[r.entityToIndex[1]] != 1;
  }

  /** A new pool has no entity, size 0 and the default 128 slots, all
      default-constructed, and slot 0 is readable through the cv operator
      but refused by the jbx one. */
  lemma NewPoolSlots<T>()
    ensures var p: Pool<T> := New(DefaultCapacity);
      && p.size == 0 && |p.data| == 128
      && Slot(p, 0) == Ok(None)
      && SlotJbx(p, 0).Fail?
      && Slot(p, 128).Fail?
  {
  }

  /** Whatever the pool holds, `remove` of an entity it does not hold
      leaves the index maps inconsistent: the owner of slot 0 keeps
      pointing at a slot that is now free or holds another entity. */
  lemma RemoveAbsentBreaksValid<T>(p: Pool<T>, e: int)
    requires Valid(p) && 0 < p.size && e !in p.entityToIndex
    ensures Remove(p, e).Ok?
    ensures !Valid(Remove(p, e).value)
  {
    var r := Remove(p, e).value;
    var owner := p.indexToEntity[0];
    var lastEntity := p.indexToEntity[p.size - 1];
    assert owner in p.entityToIndex && p.entityToIndex[owner] == 0;
    assert owner != e;
    if p.size == 1 {
      assert owner == lastEntity;
      assert owner in r.entityToIndex && r.entityToIndex[owner] == 0 && r.size == 0;
    } else {
      assert owner != lastEntity;
      assert owner in r.entityToIndex && r.entityToIndex[owner] == 0;
      assert r.indexToEntity[0] == lastEntity;
    }
  }
}
