/** Component type ids (src/ecs/Component.hpp, src/2d_engine/ecs.hpp).

    The source hands out ids from one counter shared by all component
    types: the first call of `Component<T>::get_type_id()` for a type stores
    `next_id++` in a function-local static. Here the component types are an
    enum and the counter with its assignments is explicit state. */
module ComponentTypes {
  import opened Faults

  /** The engine's component record types (Rect, Color, Velocity, Texture,
      Text, Sound, Font). Their payloads are not modelled. */
  datatype ComponentKind = Rect | Color | Velocity | Texture | Text | Sound | Font

  /** The ids handed out so far and the next free id. */
  datatype TypeIds = TypeIds(ids: map<ComponentKind, nat>, next: nat)

  /** No type has been used yet. */
  const Unassigned: TypeIds := TypeIds(map[], 0)

  /** Ids are below the counter, distinct, and exactly `next` of them
      exist, so they are 0, 1, ..., next - 1. */
  ghost predicate Valid(t: TypeIds)
  {
    && (forall k :: k in t.ids ==> t.ids[k] < t.next)
    && (forall k1, k2 :: k1 in t.ids && k2 in t.ids && t.ids[k1] == t.ids[k2] ==> k1 == k2)
    && |t.ids.Keys| == t.next
  }

  datatype Assigned = Assigned(id: nat, types: TypeIds)

  /** `get_type_id` against a cap of `max` types. A type seen before gets
      its stored id back; a new type takes the counter's value and the
      counter moves on. The capacity check is `id > max`, so an id equal to
      `max` is handed out here. */
  function GetTypeId(t: TypeIds, k: ComponentKind, max: nat): (r: Result<Assigned>)
    ensures r.Fail? ==> r.fault == TypeCapacityExceeded
    ensures k in t.ids ==> (r.Ok? <==> t.ids[k] <= max)
    ensures k in t.ids && r.Ok? ==> r.value == Assigned(t.ids[k], t)
    ensures k !in t.ids ==> (r.Ok? <==> t.next <= max)
    ensures k !in t.ids && r.Ok? ==>
      r.value == Assigned(t.next, TypeIds(t.ids[k := t.next], t.next + 1))
    ensures r.Ok? ==> r.value.id <= max && r.value.types.ids[k] == r.value.id
  {
    var id := if k in t.ids then t.ids[k] else t.next;
    var t' := if k in t.ids then t else TypeIds(t.ids[k := t.next], t.next + 1);
    if id > max then Fail(TypeCapacityExceeded) else Ok(Assigned(id, t'))
  }

  /** Assigning an id keeps the ids distinct and consecutive from 0. */
  lemma GetTypeIdPreservesValid(t: TypeIds, k: ComponentKind, max: nat)
    requires Valid(t)
    requires GetTypeId(t, k, max).Ok?
    ensures Valid(GetTypeId(t, k, max).value.types)
  {
    if k !in t.ids {
      var t' := GetTypeId(t, k, max).value.types;
      assert t'.ids.Keys == t.ids.Keys + {k};
    }
  }

  /** The id of a type never changes: asking again returns the same id
      and leaves the assignments alone. */
  lemma TypeIdIsStable(t: TypeIds, k: ComponentKind, max: nat)
    requires GetTypeId(t, k, max).Ok?
    ensures var a := GetTypeId(t, k, max).value;
      GetTypeId(a.types, k, max) == Ok(Assigned(a.id, a.types))
  {
  }

  /** Distinct component types receive distinct ids, whichever is asked for first. */
  lemma DistinctTypesDistinctIds(t: TypeIds, k1: ComponentKind, k2: ComponentKind, max: nat)
    requires Valid(t)
    requires k1 != k2
    requires GetTypeId(t, k1, max).Ok?
    requires GetTypeId(GetTypeId(t, k1, max).value.types, k2, max).Ok?
    ensures GetTypeId(t, k1, max).value.id
         != GetTypeId(GetTypeId(t, k1, max).value.types, k2, max).value.id
  {
  }

  /** `get_type_id` for each kind of `ks` in turn, stopping at the first
      failure. */
  function AssignAll(t: TypeIds, ks: seq<ComponentKind>, max: nat): Result<TypeIds>
    decreases |ks|
  {
    if |ks| == 0 then Ok(t)
    else
      match GetTypeId(t, ks[0], max)
      case Fail(f) => Fail(f)
      case Ok(a) => AssignAll(a.types, ks[1..], max)
  }

  /** New types get consecutive ids in order of first use: the i-th of
      `ks` gets `t.next + i` (so `i` from Unassigned), ids already handed
      out stay, and the counter ends `|ks|` further on. */
  lemma {:induction false} IdsFollowFirstUse(t: TypeIds, ks: seq<ComponentKind>, max: nat)
    requires forall i, j :: 0 <= i < j < |ks| ==> ks[i] != ks[j]
    requires forall i :: 0 <= i < |ks| ==> ks[i] !in t.ids
    requires t.next + |ks| <= max + 1
    ensures AssignAll(t, ks, max).Ok?
    ensures var t2 := AssignAll(t, ks, max).value;
      && t2.next == t.next + |ks|
      && (forall k :: k in t.ids ==> k in t2.ids && t2.ids[k] == t.ids[k])
      && (forall i :: 0 <= i < |ks| ==> ks[i] in t2.ids && t2.ids[ks[i]] == t.next + i)
    decreases |ks|
  {
    if |ks| > 0 {
      var t1 := GetTypeId(t, ks[0], max).value.types;
      assert t1 == TypeIds(t.ids[ks[0] := t.next], t.next + 1);
      var rest := ks[1..];
      assert forall i :: 0 <= i < |rest| ==> rest[i] == ks[i + 1];
      IdsFollowFirstUse(t1, rest, max);
      assert AssignAll(t, ks, max) == AssignAll(t1, rest, max);
      var t2 := AssignAll(t1, rest, max).value;
      forall i | 0 <= i < |ks| ensures ks[i] in t2.ids && t2.ids[ks[i]] == t.next + i {
        if i > 0 {
          assert ks[i] == rest[i - 1];
        }
      }
    }
  }

  /** The cap check is off by one: with `max` ids already handed out the
      next new type receives id `max` and no error is raised. Only the
      `>=` checks of add_component/remove_component catch it. */
  lemma CapCheckAdmitsIdEqualToMax(t: TypeIds, k: ComponentKind, max: nat)
    requires t.next == max
    requires k !in t.ids
    ensures GetTypeId(t, k, max) == Ok(Assigned(max, TypeIds(t.ids[k := max], max + 1)))
    ensures GetTypeId(TypeIds(t.ids[k := max], max + 1), k, max).Ok?
  {
  }
}
