/** The component vectors by group, the index of component types and the index of entities. */
module Indexes {
  import opened Values
  import opened CompVecs
  import opened UserComponents

  /** A group and an id in its vector. */
  type CompStoreId = (nat, nat)
  type ComponentSet = set<CompStoreId>

  const UINT32 := 0x1_0000_0000

  /** util::setIntersection. */
  method SetIntersection<T(==)>(a: set<T>, b: set<T>) returns (newSet: set<T>)
    ensures newSet == a * b
  {
    newSet := {};
    var todo := a;
    while todo != {}
      invariant todo <= a && newSet == (a - todo) * b
      decreases todo
    {
      var e :| e in todo;
      if e in b {
        newSet := newSet + {e};
      }
      todo := todo - {e};
    }
  }

  class ComponentStore {
    var groups: map<nat, CompVec<UserComponent>>

    /** Groups have vectors of their own, from which nothing was ever removed. */
    ghost predicate Valid()
      reads this, groups.Values
    {
      (forall g, h :: g in groups && h in groups && groups[g] == groups[h] ==> g == h) &&
      forall g :: g in groups ==> groups[g].Valid() && groups[g].Model().Keys == UpTo(groups[g].lastId)
    }

    ghost predicate Has(g: nat, i: nat)
      requires Valid()
      reads this, groups.Values
    {
      g in groups && i in groups[g].Model()
    }

    ghost function Get(g: nat, i: nat): UserComponent
      requires Valid() && Has(g, i)
      reads this, groups.Values
    {
      groups[g].Model()[i]
    }

    constructor ()
      ensures Valid() && groups == map[]
    {
      groups := map[];
    }

    /** Adds to a group, creating its vector when it has none. No other component moves. */
    method AddComponent(c: UserComponent, group: nat) returns (id: CompStoreId)
      requires Valid()
      modifies this, groups.Values
      ensures Valid() && fresh(groups.Values - old(groups.Values))
      ensures id.0 == group && !old(Has(group, id.1)) && Has(group, id.1) && Get(group, id.1) == c
      ensures forall g: nat, i: nat :: (g, i) != id ==> (Has(g, i) <==> old(Has(g, i)))
      ensures forall g: nat, i: nat :: old(Has(g, i)) ==> Has(g, i) && Get(g, i) == old(Get(g, i))
    {
      hide *;
      if group !in groups {
        CreateCompVec(group);
      }
      id := AddTo(c, group);
    }

    method AddTo(c: UserComponent, group: nat) returns (id: CompStoreId)
      requires Valid() && group in groups
      modifies groups.Values
      ensures Valid()
      ensures id.0 == group && !old(Has(group, id.1)) && Has(group, id.1) && Get(group, id.1) == c
      ensures forall g: nat, i: nat :: (g, i) != id ==> (Has(g, i) <==> old(Has(g, i)))
      ensures forall g: nat, i: nat :: old(Has(g, i)) ==> Has(g, i) && Get(g, i) == old(Get(g, i))
    {
      ghost var before := groups[group].Model();
      var i := groups[group].Add(c);
      assert groups[group].Model().Keys == before.Keys + {i};
      assert UpTo(groups[group].lastId) == UpTo(groups[group].lastId - 1) + {i};
      id := (group, i);
    }

    /** createCompVec: an empty vector for a group. */
    method CreateCompVec(group: nat)
      requires Valid() && group !in groups
      modifies this
      ensures Valid() && group in groups && fresh(groups[group]) && groups == old(groups)[group := groups[group]]
      ensures forall g: nat, i: nat :: Has(g, i) <==> old(Has(g, i))
      ensures forall g: nat, i: nat :: old(Has(g, i)) ==> Get(g, i) == old(Get(g, i))
    {
      var v := new CompVec<UserComponent>();
      groups := groups[group := v];
    }

    /** Reads by id; an unknown group or id is an error. */
    method GetComponent(id: CompStoreId) returns (r: Result<UserComponent>)
      requires Valid()
      ensures r == if Has(id.0, id.1) then Ok(Get(id.0, id.1)) else Throws
    {
      if id.0 !in groups {
        return Throws;
      }
      r := groups[id.0].At(id.1);
    }

    /** All ids: the program counts from 1 to each vector's size, which finds the live ids because nothing was
        removed. */
    method AsCompSet() returns (ids: ComponentSet)
      requires Valid()
      ensures forall g: nat, i: nat :: (g, i) in ids <==> Has(g, i)
    {
      ids := {};
      var todo := groups.Keys;
      while todo != {}
        invariant todo <= groups.Keys
        invariant forall g: nat, i: nat :: (g, i) in ids <==> Has(g, i) && g !in todo
        decreases todo
      {
        var g :| g in todo;
        var size := groups[g].Size();
        LiveIds(groups[g]);
        ids := Enumerate(ids, g, size);
        todo := todo - {g};
      }
    }

    static method Enumerate(ids: ComponentSet, g: nat, size: nat) returns (all: ComponentSet)
      ensures forall h: nat, i: nat :: (h, i) in all <==> (h, i) in ids || (h == g && 1 <= i <= size)
    {
      all := ids;
      var i := 1;
      while i <= size
        invariant 1 <= i <= size + 1
        invariant forall h: nat, j: nat :: (h, j) in all <==> (h, j) in ids || (h == g && 1 <= j < i)
      {
        all := all + {(g, i)};
        i := i + 1;
      }
    }

    lemma LiveIds(v: CompVec<UserComponent>)
      requires v.Valid() && v.Model().Keys == UpTo(v.lastId)
      ensures forall i :: i in v.Model() <==> 1 <= i <= v.Size()
    {
      UpToSize(v.lastId);
      assert v.Model().Keys == v.idToIndex.Keys;
      assert |v.idToIndex| == |v.idToIndex.Keys|;
    }
  }

  lemma {:induction false} UpToSize(n: nat)
    ensures |UpTo(n)| == n
  {
    if n > 0 { UpToSize(n - 1); }
  }

  class ComponentTypeIndex {
    var typeNameGroupMap: map<string, nat>
    var compGroup: nat

    ghost predicate Valid()
      reads this
    {
      (forall n :: n in typeNameGroupMap ==> typeNameGroupMap[n] < compGroup) &&
      forall m, n :: m in typeNameGroupMap && n in typeNameGroupMap && typeNameGroupMap[m] == typeNameGroupMap[n] ==>
          m == n
    }

    constructor ()
      ensures Valid() && typeNameGroupMap == map[]
    {
      typeNameGroupMap, compGroup := map[], 0;
    }

    /** The group of a type: distinct types get distinct groups, and a type keeps its group. */
    method AddComponentType(name: string) returns (group: nat)
      requires Valid()
      modifies this
      ensures Valid() && name in typeNameGroupMap && typeNameGroupMap[name] == group
      ensures typeNameGroupMap == old(typeNameGroupMap)[name := group]
      ensures name in old(typeNameGroupMap) ==> typeNameGroupMap == old(typeNameGroupMap)
    {
      if name !in typeNameGroupMap {
        typeNameGroupMap := typeNameGroupMap[name := compGroup];
        group := compGroup;
        compGroup := compGroup + 1;
        return;
      }
      return typeNameGroupMap[name];
    }

    /** The ids of a set whose component has the type; an unknown type is an error. */
    method FilterCompType(name: string, ids: ComponentSet) returns (r: Result<ComponentSet>)
      ensures name !in typeNameGroupMap ==> r == Throws
      ensures name in typeNameGroupMap ==> r == Ok(set id | id in ids && id.0 == typeNameGroupMap[name])
    {
      if name !in typeNameGroupMap {
        return Throws;
      }
      var compIndex, newSet, todo := typeNameGroupMap[name], {}, ids;
      while todo != {}
        invariant todo <= ids && newSet == set id | id in ids - todo && id.0 == compIndex
        decreases todo
      {
        var e :| e in todo;
        if e.0 == compIndex {
          newSet := newSet + {e};
        }
        todo := todo - {e};
      }
      assert ids - todo == ids;
      return Ok(newSet);
    }
  }

  class EntityIndex {
    var nextEntityId: nat
    var entityCompMap: map<nat, ComponentSet>

    constructor ()
      ensures nextEntityId == 0 && entityCompMap == map[]
    {
      nextEntityId, entityCompMap := 0, map[];
    }

    /** The next id, counting modulo 2^32; the components of an id that is already known stay. */
    method AddEntityId() returns (id: nat)
      modifies this
      ensures id == old(nextEntityId) && nextEntityId == (id + 1) % UINT32
      ensures entityCompMap == if id in old(entityCompMap) then old(entityCompMap) else old(entityCompMap)[id := {}]
    {
      id := nextEntityId;
      nextEntityId := (nextEntityId + 1) % UINT32;
      if id !in entityCompMap {
        entityCompMap := entityCompMap[id := {}];
      }
    }

    /** Starts with the given ids; the next id is one after the largest. */
    method SetEntityIds(ids: seq<nat>)
      requires forall i :: 0 <= i < |ids| ==> ids[i] < UINT32
      modifies this
      ensures entityCompMap.Keys == old(entityCompMap.Keys) + (set id | id in ids)
      ensures forall id :: id in entityCompMap ==>
          entityCompMap[id] == if id in old(entityCompMap) then old(entityCompMap)[id] else {}
      ensures nextEntityId == (Largest(ids) + 1) % UINT32
    {
      var maxId, i := 0, 0;
      while i < |ids|
        invariant 0 <= i <= |ids| && maxId == Largest(ids[..i])
        invariant entityCompMap.Keys == old(entityCompMap.Keys) + (set id | id in ids[..i])
        invariant forall id :: id in entityCompMap ==>
            entityCompMap[id] == if id in old(entityCompMap) then old(entityCompMap)[id] else {}
      {
        assert ids[..i + 1] == ids[..i] + [ids[i]];
        if ids[i] > maxId {
          maxId := ids[i];
        }
        if ids[i] !in entityCompMap {
          entityCompMap := entityCompMap[ids[i] := {}];
        }
        i := i + 1;
      }
      assert ids[..|ids|] == ids;
      nextEntityId := (maxId + 1) % UINT32;
    }

    method AddComponent(entityId: nat, id: CompStoreId) returns (r: Result<()>)
      modifies this
      ensures r == if entityId in old(entityCompMap) then Ok(()) else Throws
      ensures nextEntityId == old(nextEntityId)
      ensures r.Throws? ==> entityCompMap == old(entityCompMap)
      ensures r.Ok? ==> entityCompMap == old(entityCompMap)[entityId := old(entityCompMap)[entityId] + {id}]
    {
      if entityId !in entityCompMap {
        return Throws;
      }
      entityCompMap := entityCompMap[entityId := entityCompMap[entityId] + {id}];
      return Ok(());
    }

    /** The ids of a set that belong to the entity; an unknown entity is an error. */
    method FilterEntityId(entityId: nat, ids: ComponentSet) returns (r: Result<ComponentSet>)
      ensures r == if entityId in entityCompMap then Ok(entityCompMap[entityId] * ids) else Throws
    {
      if entityId !in entityCompMap {
        return Throws;
      }
      var both := SetIntersection(entityCompMap[entityId], ids);
      return Ok(both);
    }
  }

  function Largest(ids: seq<nat>): (m: nat)
    ensures forall id :: id in ids ==> id <= m
    ensures m == 0 || m in ids
  {
    if ids == [] then 0
    else
      var m := Largest(ids[..|ids| - 1]);
      assert ids == ids[..|ids| - 1] + [ids[|ids| - 1]];
      if ids[|ids| - 1] > m then ids[|ids| - 1] else m
  }
}
