/** Named entity groups of the Registry (src/2d_engine/ecs.cpp): a forward
    map from group name to its entities and a reverse map from entity id
    to the group recorded for it. */
module Groups {
  import opened Faults
  import opened Entities

  datatype GroupIndex = GroupIndex(
    entitiesPerGroup: map<string, set<Entity>>,
    groupsPerEntity: map<int, string>)

  const NoGroups: GroupIndex := GroupIndex(map[], map[])

  /** `group_entity`: the entity joins the group's set (created on demand).
      The reverse map is filled with `emplace`, so an entity that already
      has a recorded group keeps that first group there. */
  function GroupEntity(g: GroupIndex, e: Entity, name: string): (r: GroupIndex)
    ensures name in r.entitiesPerGroup && e in r.entitiesPerGroup[name]
    ensures forall n :: n in r.entitiesPerGroup <==> n in g.entitiesPerGroup || n == name
    ensures forall n :: n in g.entitiesPerGroup && n != name ==>
      r.entitiesPerGroup[n] == g.entitiesPerGroup[n]
    ensures name in g.entitiesPerGroup ==>
      r.entitiesPerGroup[name] == g.entitiesPerGroup[name] + {e}
    ensures name !in g.entitiesPerGroup ==> r.entitiesPerGroup[name] == {e}
    ensures e.id in r.groupsPerEntity
    ensures e.id in g.groupsPerEntity ==> r.groupsPerEntity == g.groupsPerEntity
    ensures e.id !in g.groupsPerEntity ==> r.groupsPerEntity == g.groupsPerEntity[e.id := name]
  {
    var members := if name in g.entitiesPerGroup then g.entitiesPerGroup[name] else {};
    GroupIndex(g.entitiesPerGroup[name := members + {e}],
           if e.id in g.groupsPerEntity then g.groupsPerEntity
           else g.groupsPerEntity[e.id := name])
  }

  /** `entity_belongs_to_group`: false for an unknown group. */
  function EntityBelongsToGroup(g: GroupIndex, e: Entity, name: string): (b: bool)
    ensures name !in g.entitiesPerGroup ==> !b
  {
    name in g.entitiesPerGroup && e in g.entitiesPerGroup[name]
  }

  /** After `group_entity(e, name)` an entity belongs to a group exactly
      when it did before or it is `e` and the group is `name`. */
  lemma BelongsAfterGroup(g: GroupIndex, e: Entity, name: string, x: Entity, m: string)
    ensures EntityBelongsToGroup(GroupEntity(g, e, name), x, m) <==>
      EntityBelongsToGroup(g, x, m) || (x == e && m == name)
  {
  }

  /** `entity_belongs_to_group` agrees with the listing of
      `get_entities_by_group`. */
  lemma BelongsIffListed(g: GroupIndex, e: Entity, name: string)
    ensures EntityBelongsToGroup(g, e, name) <==>
      GetEntitiesByGroup(g, name).Ok? && e in GetEntitiesByGroup(g, name).value
  {
  }

  /** `get_entities_by_group`: the group's entities in ascending id order;
      `at` throws for an unknown group. */
  function GetEntitiesByGroup(g: GroupIndex, name: string): (r: Result<seq<Entity>>)
    ensures r.Fail? <==> name !in g.entitiesPerGroup
    ensures r.Fail? ==> r.fault == GroupMissing
    ensures r.Ok? ==> Ascending(r.value)
    ensures r.Ok? ==> forall e :: e in r.value <==> EntityBelongsToGroup(g, e, name)
  {
    if name in g.entitiesPerGroup then Ok(Sorted(g.entitiesPerGroup[name])) else Fail(GroupMissing)
  }

  /** `ungroup_entity`: removes the entity from the group its reverse
      entry names, then drops the reverse entry; a no-op for an entity
      without one. Other groups' sets are not looked at. */
  function UngroupEntity(g: GroupIndex, e: Entity): (r: GroupIndex)
    ensures e.id !in r.groupsPerEntity
    ensures r.groupsPerEntity == g.groupsPerEntity - {e.id}
    ensures r.entitiesPerGroup.Keys == g.entitiesPerGroup.Keys
    ensures forall n :: n in g.entitiesPerGroup ==> r.entitiesPerGroup[n] <= g.entitiesPerGroup[n]
    ensures e.id !in g.groupsPerEntity ==> r == g
    ensures e.id in g.groupsPerEntity ==>
      var n := g.groupsPerEntity[e.id];
      (n in g.entitiesPerGroup ==> r.entitiesPerGroup[n] == g.entitiesPerGroup[n] - {e})
      && forall m :: m in g.entitiesPerGroup && m != n ==> r.entitiesPerGroup[m] == g.entitiesPerGroup[m]
  {
    if e.id in g.groupsPerEntity then
      var n := g.groupsPerEntity[e.id];
      var forward := if n in g.entitiesPerGroup
        then g.entitiesPerGroup[n := g.entitiesPerGroup[n] - {e}]
        else g.entitiesPerGroup;
      GroupIndex(forward, g.groupsPerEntity - {e.id})
    else g
  }

  /** The entities of `xs` whose recorded group is `n`: those that
      ungrouping takes out of `n`'s set. */
  function Departing(g: GroupIndex, xs: seq<Entity>, n: string): set<Entity>
  {
    set x | x in xs && x.id in g.groupsPerEntity && g.groupsPerEntity[x.id] == n
  }

  /** `ungroup_entity` on each entity of `xs` in turn: every group loses
      exactly the entities of `xs` recorded under it, and those entities
      lose their reverse entries. */
  function UngroupEach(g: GroupIndex, xs: seq<Entity>): (r: GroupIndex)
    ensures r.entitiesPerGroup.Keys == g.entitiesPerGroup.Keys
    ensures forall n :: n in g.entitiesPerGroup ==>
      r.entitiesPerGroup[n] == g.entitiesPerGroup[n] - Departing(g, xs, n)
    ensures r.groupsPerEntity == g.groupsPerEntity - (set x | x in xs :: x.id)
    decreases |xs|
  {
    if |xs| == 0 then g
    else
      var g1 := UngroupEntity(g, xs[0]);
      var r := UngroupEach(g1, xs[1..]);
      UngroupStep(g, xs, g1, r);
      r
  }

  /** One step of UngroupEach: ungrouping the head, then the tail, is
      ungrouping the whole list. */
  lemma UngroupStep(g: GroupIndex, xs: seq<Entity>, g1: GroupIndex, r: GroupIndex)
    requires |xs| > 0 && g1 == UngroupEntity(g, xs[0])
    requires r.entitiesPerGroup.Keys == g1.entitiesPerGroup.Keys
    requires forall n :: n in g1.entitiesPerGroup ==>
      r.entitiesPerGroup[n] == g1.entitiesPerGroup[n] - Departing(g1, xs[1..], n)
    requires r.groupsPerEntity == g1.groupsPerEntity - (set x | x in xs[1..] :: x.id)
    ensures r.entitiesPerGroup.Keys == g.entitiesPerGroup.Keys
    ensures forall n :: n in g.entitiesPerGroup ==>
      r.entitiesPerGroup[n] == g.entitiesPerGroup[n] - Departing(g, xs, n)
    ensures r.groupsPerEntity == g.groupsPerEntity - (set x | x in xs :: x.id)
  {
    var x0 := xs[0];
    assert forall x :: x in xs <==> x == x0 || x in xs[1..];
    assert (set x | x in xs :: x.id) == {x0.id} + (set x | x in xs[1..] :: x.id);
    forall n | n in g.entitiesPerGroup
      ensures r.entitiesPerGroup[n] == g.entitiesPerGroup[n] - Departing(g, xs, n)
    {
      var d0 := if x0.id in g.groupsPerEntity && g.groupsPerEntity[x0.id] == n then {x0} else {};
      assert g1.entitiesPerGroup[n] == g.entitiesPerGroup[n] - d0;
      assert Departing(g1, xs[1..], n) == Departing(g, xs[1..], n) - {x0};
      assert Departing(g, xs, n) == d0 + Departing(g, xs[1..], n);
    }
  }

  /** Grouping then ungrouping an entity that had no group: it no longer
      belongs to the group and no reverse entry remains. */
  lemma GroupThenUngroup(g: GroupIndex, e: Entity, name: string)
    requires e.id !in g.groupsPerEntity
    ensures EntityBelongsToGroup(GroupEntity(g, e, name), e, name)
    ensures !EntityBelongsToGroup(UngroupEntity(GroupEntity(g, e, name), e), e, name)
    ensures UngroupEntity(GroupEntity(g, e, name), e).groupsPerEntity == g.groupsPerEntity
  {
  }

  /** Regrouping is not guarded: after grouping under `a` and then `b` the
      entity sits in both forward sets while the reverse map still names
      `a`, so ungrouping leaves it behind in `b`. */
  lemma RegroupLeavesStaleMember(g: GroupIndex, e: Entity, a: string, b: string)
    requires e.id !in g.groupsPerEntity
    requires a != b
    ensures var g2 := GroupEntity(GroupEntity(g, e, a), e, b);
      && EntityBelongsToGroup(g2, e, a)
      && EntityBelongsToGroup(g2, e, b)
      && g2.groupsPerEntity[e.id] == a
      && !EntityBelongsToGroup(UngroupEntity(g2, e), e, a)
      && EntityBelongsToGroup(UngroupEntity(g2, e), e, b)
  {
  }
}
