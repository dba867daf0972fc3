/** Base_System: a required component mask and the ordered list of the
    entities currently matched to it (src/ecs/Base_System.cpp,
    src/2d_engine/ecs.cpp). */
module Systems {
  import opened Entities
  import opened ComponentMask

  datatype System = System(mask: Mask, entities: seq<Entity>)

  /** `add_entity`: `push_back`, duplicates included. */
  function AddEntity(s: System, e: Entity): (r: System)
    ensures r.mask == s.mask
    ensures |r.entities| == |s.entities| + 1
    ensures r.entities[..|s.entities|] == s.entities && r.entities[|s.entities|] == e
  {
    s.(entities := s.entities + [e])
  }

  /** Position of the first element equal to `e`. */
  function FirstIndex(xs: seq<Entity>, e: Entity): (i: nat)
    requires e in xs
    ensures i < |xs| && xs[i] == e && e !in xs[..i]
  {
    if xs[0] == e then 0
    else
      var i := FirstIndex(xs[1..], e);
      assert xs[..i + 1] == [xs[0]] + xs[1..][..i];
      i + 1
  }

  /** `r` is `xs` with its first element equal to `e` erased, everything
      before and after that element kept in order; `xs` itself when no
      element equals `e`. */
  predicate ErasesFirst(xs: seq<Entity>, e: Entity, r: seq<Entity>)
  {
    if e in xs then
      exists i :: 0 <= i < |xs| && xs[i] == e && e !in xs[..i] && r == xs[..i] + xs[i + 1..]
    else r == xs
  }

  /** Erase of the first element equal to `e`, as the iterator loop of
      `remove_entity` does before it breaks out. */
  function RemoveFirst(xs: seq<Entity>, e: Entity): (r: seq<Entity>)
    ensures ErasesFirst(xs, e, r)
    ensures |r| == if e in xs then |xs| - 1 else |xs|
    ensures multiset(r) == multiset(xs) - multiset{e}
  {
    if e in xs then
      var i := FirstIndex(xs, e);
      assert xs == xs[..i] + [e] + xs[i + 1..];
      xs[..i] + xs[i + 1..]
    else
      assert multiset(xs)[e] == 0;
      xs
  }

  /** The erase is determined: one list satisfies ErasesFirst. */
  lemma ErasesFirstIsUnique(xs: seq<Entity>, e: Entity, r1: seq<Entity>, r2: seq<Entity>)
    requires ErasesFirst(xs, e, r1) && ErasesFirst(xs, e, r2)
    ensures r1 == r2
  {
    if e in xs {
      var i :| 0 <= i < |xs| && xs[i] == e && e !in xs[..i] && r1 == xs[..i] + xs[i + 1..];
      var j :| 0 <= j < |xs| && xs[j] == e && e !in xs[..j] && r2 == xs[..j] + xs[j + 1..];
      assert forall k :: 0 <= k < j ==> xs[..j][k] == xs[k];
      assert forall k :: 0 <= k < i ==> xs[..i][k] == xs[k];
    }
  }

  /** Erases, in turn, the first remaining occurrence of each element of
      `ds`: a multiset difference that keeps the survivors' order. */
  function EraseEach(xs: seq<Entity>, ds: seq<Entity>): (r: seq<Entity>)
    ensures multiset(r) == multiset(xs) - multiset(ds)
    decreases |ds|
  {
    if |ds| == 0 then xs
    else
      var r := EraseEach(RemoveFirst(xs, ds[0]), ds[1..]);
      EraseStep(multiset(xs), ds);
      r
  }

  lemma EraseStep(m: multiset<Entity>, ds: seq<Entity>)
    requires |ds| > 0
    ensures (m - multiset{ds[0]}) - multiset(ds[1..]) == m - multiset(ds)
  {
    assert ds == [ds[0]] + ds[1..];
  }

  /** `remove_entity`: drops the first occurrence only; the mask is kept. */
  function RemoveEntity(s: System, e: Entity): (r: System)
    ensures r.mask == s.mask
    ensures ErasesFirst(s.entities, e, r.entities)
    ensures multiset(r.entities) == multiset(s.entities) - multiset{e}
  {
    s.(entities := RemoveFirst(s.entities, e))
  }

  /** `get_component_mask`. */
  function GetComponentMask(s: System): (m: Mask)
    ensures m == s.mask
  {
    s.mask
  }

  /** The required mask, fixed at construction, is what `get_component_mask`
      reports however the entity list changes. */
  lemma MaskIsFixed(s: System, e: Entity)
    ensures GetComponentMask(AddEntity(s, e)) == GetComponentMask(s)
    ensures GetComponentMask(RemoveEntity(s, e)) == GetComponentMask(s)
  {
  }

  /** `remove_entity` undoes `add_entity` on a list without the entity, and
      an entity listed at most once is gone after one `remove_entity`. */
  lemma {:induction false} AddThenRemove(s: System, e: Entity)
    requires e !in s.entities
    ensures RemoveEntity(AddEntity(s, e), e) == s
  {
    var xs := s.entities + [e];
    var i := FirstIndex(xs, e);
    assert forall j :: 0 <= j < |s.entities| ==> xs[j] == s.entities[j];
    assert i == |s.entities|;
    assert xs[..i] == s.entities;
  }

  /** Once the last copy is removed the entity is not listed at all. */
  lemma RemoveSoleCopy(xs: seq<Entity>, e: Entity)
    requires multiset(xs)[e] <= 1
    ensures e !in RemoveFirst(xs, e)
  {
    var r := RemoveFirst(xs, e);
    assert multiset(r)[e] == 0;
  }
}
