/** Entities: a bare integer identity, compared and ordered by that id
    (src/ecs/Entity.cpp, src/2d_engine/ecs.hpp). */
module Entities {

  datatype Entity = Entity(id: int)

  /** `operator==`: equal ids. */
  function Equal(a: Entity, b: Entity): (r: bool)
    ensures r <==> a == b
  {
    a.id == b.id
  }

  /** `operator<`: smaller id. */
  function Less(a: Entity, b: Entity): (r: bool)
    ensures r ==> a != b
  {
    a.id < b.id
  }

  /** `operator>`: larger id, which is `<` with the operands swapped. */
  function Greater(a: Entity, b: Entity): (r: bool)
    ensures r <==> Less(b, a)
  {
    a.id > b.id
  }

  /** Exactly one of `<`, `==`, `>` holds for any two entities. */
  lemma Trichotomy(a: Entity, b: Entity)
    ensures Less(a, b) || Equal(a, b) || Greater(a, b)
    ensures !(Less(a, b) && Equal(a, b))
    ensures !(Less(a, b) && Greater(a, b))
    ensures !(Equal(a, b) && Greater(a, b))
    ensures Greater(a, b) <==> Less(b, a)
  {
  }

  /** `<` is a strict order: irreflexive and transitive. */
  lemma LessIsStrictOrder(a: Entity, b: Entity, c: Entity)
    ensures !Less(a, a)
    ensures Less(a, b) && Less(b, c) ==> Less(a, c)
  {
  }

  /** `<` orders entities by ascending id, and `>` by descending id. */
  lemma LessIsIdOrder(a: Entity, b: Entity)
    ensures Less(a, b) <==> a.id < b.id
    ensures Greater(a, b) <==> a.id > b.id
  {
  }

  /** Strictly ascending ids: the iteration order of a `std::set<Entity>`. */
  predicate Ascending(xs: seq<Entity>)
  {
    forall i, j :: 0 <= i < j < |xs| ==> xs[i].id < xs[j].id
  }

  lemma {:induction false} MinimumExists(s: set<Entity>)
    requires s != {}
    ensures exists m :: m in s && forall x :: x in s ==> m.id <= x.id
    decreases |s|
  {
    var y :| y in s;
    if s == {y} {
      assert forall x :: x in s ==> y.id <= x.id;
    } else {
      MinimumExists(s - {y});
      var m :| m in s - {y} && forall x :: x in s - {y} ==> m.id <= x.id;
      if y.id < m.id {
        assert forall x :: x in s ==> y.id <= x.id;
      } else {
        assert forall x :: x in s ==> m.id <= x.id;
      }
    }
  }

  /** The entity with the smallest id. */
  function Minimum(s: set<Entity>): (m: Entity)
    requires s != {}
    ensures m in s
    ensures forall x :: x in s ==> m.id <= x.id
  {
    MinimumExists(s);
    var m :| m in s && forall x :: x in s ==> m.id <= x.id;
    m
  }

  /** The elements of a set in the order a `std::set<Entity>` visits them. */
  function Sorted(s: set<Entity>): (xs: seq<Entity>)
    ensures |xs| == |s|
    ensures forall x :: x in xs <==> x in s
    ensures Ascending(xs)
    decreases |s|
  {
    if s == {} then []
    else
      var m := Minimum(s);
      var rest := Sorted(s - {m});
      assert forall i :: 0 <= i < |rest| ==> m.id < rest[i].id by {
        forall i | 0 <= i < |rest| ensures m.id < rest[i].id {
          assert rest[i] in s - {m};
        }
      }
      AscendingCons(m, rest);
      [m] + rest
  }

  /** An entity below every element of an ascending list can lead it. */
  lemma AscendingCons(m: Entity, rest: seq<Entity>)
    requires Ascending(rest)
    requires forall i :: 0 <= i < |rest| ==> m.id < rest[i].id
    ensures Ascending([m] + rest)
  {
    var xs := [m] + rest;
    forall i, j | 0 <= i < j < |xs| ensures xs[i].id < xs[j].id {
      assert xs[j] == rest[j - 1];
    }
  }

  /** A `std::set<Entity>` ordered by `operator<` visits its elements in
      the order Sorted lists them: one entity comes before another in the
      listing exactly when it is `<` the other. */
  lemma SortedFollowsLess(s: set<Entity>)
    ensures forall i, j :: 0 <= i < |Sorted(s)| && 0 <= j < |Sorted(s)| ==>
      (Less(Sorted(s)[i], Sorted(s)[j]) <==> i < j)
  {
    var xs := Sorted(s);
    forall i, j | 0 <= i < |xs| && 0 <= j < |xs| ensures Less(xs[i], xs[j]) <==> i < j {
      if j < i {
        assert xs[j].id < xs[i].id;
      }
    }
  }
}
