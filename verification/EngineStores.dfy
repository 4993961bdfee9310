/** The engine's store of components with its two indexes, and looking up a component through them. */
module EngineStores {
  import opened Values
  import opened Graph
  import opened CompVecs
  import opened UserComponents
  import opened Indexes
  import opened RunGraph
  import opened FlatStore

  /** A component that was listed: its entity, its type and its id in the store. */
  datatype Row = Row(entity: nat, name: string, id: CompStoreId)

  /** The two indexes know exactly the rows. */
  ghost predicate Indexed(rows: seq<Row>, groups: map<string, nat>, entities: map<nat, ComponentSet>) {
    (forall i, j :: 0 <= i < j < |rows| ==> rows[i].id != rows[j].id) &&
    (forall k :: 0 <= k < |rows| ==> InIndexes(rows[k], groups, entities)) &&
    (forall e, id :: e in entities && id in entities[e] ==> exists k :: IsRow(rows, k, e, id))
  }

  ghost predicate InIndexes(row: Row, groups: map<string, nat>, entities: map<nat, ComponentSet>) {
    row.name in groups && groups[row.name] == row.id.0 && row.entity in entities && row.id in entities[row.entity]
  }

  ghost predicate IsRow(rows: seq<Row>, k: int, e: nat, id: CompStoreId) {
    0 <= k < |rows| && rows[k].entity == e && rows[k].id == id
  }

  ghost predicate RowFor(rows: seq<Row>, k: int, e: nat, n: string) {
    0 <= k < |rows| && rows[k].entity == e && rows[k].name == n
  }

  /** The ids the program's filters leave are the ids of the rows for the entity and the type. */
  lemma FoundRows(rows: seq<Row>, groups: map<string, nat>, entities: map<nat, ComponentSet>, all: ComponentSet,
      e: nat, n: string, found: ComponentSet)
    requires Indexed(rows, groups, entities) && forall k :: 0 <= k < |rows| ==> rows[k].id in all
    requires forall m, m' :: m in groups && m' in groups && groups[m] == groups[m'] ==> m == m'
    requires e in entities && n in groups && found == entities[e] * (set id | id in all && id.0 == groups[n])
    ensures forall k :: RowFor(rows, k, e, n) ==> rows[k].id in found
    ensures forall id :: id in found ==> exists k :: RowFor(rows, k, e, n) && rows[k].id == id
  {
    forall k | RowFor(rows, k, e, n)
      ensures rows[k].id in found
    {
      assert InIndexes(rows[k], groups, entities);
    }
    forall id | id in found
      ensures exists k :: RowFor(rows, k, e, n) && rows[k].id == id
    {
      var k :| IsRow(rows, k, e, id);
      assert InIndexes(rows[k], groups, entities);
      assert RowFor(rows, k, e, n);
    }
  }

  lemma NoRows(rows: seq<Row>, groups: map<string, nat>, entities: map<nat, ComponentSet>, e: nat, n: string, k: int)
    requires Indexed(rows, groups, entities) && (e !in entities || n !in groups)
    ensures !RowFor(rows, k, e, n)
  {
    if 0 <= k < |rows| { assert InIndexes(rows[k], groups, entities); }
  }

  /** A new type keeps the indexes exact. */
  lemma AddType(rows: seq<Row>, groups: map<string, nat>, entities: map<nat, ComponentSet>, name: string, g: nat)
    requires Indexed(rows, groups, entities) && (name in groups ==> groups[name] == g)
    ensures Indexed(rows, groups[name := g], entities)
  {
    forall k | 0 <= k < |rows|
      ensures InIndexes(rows[k], groups[name := g], entities)
    {
      assert InIndexes(rows[k], groups, entities);
    }
  }

  /** A new entity keeps the indexes exact. */
  lemma AddEntity(rows: seq<Row>, groups: map<string, nat>, entities: map<nat, ComponentSet>, id: nat)
    requires Indexed(rows, groups, entities)
    ensures Indexed(rows, groups, if id in entities then entities else entities[id := {}])
  {
    if id !in entities {
      forall k | 0 <= k < |rows|
        ensures InIndexes(rows[k], groups, entities[id := {}])
      {
        assert InIndexes(rows[k], groups, entities);
      }
    }
  }

  /** A new row keeps the indexes exact. */
  lemma AddRow(rows: seq<Row>, groups: map<string, nat>, entities: map<nat, ComponentSet>, row: Row)
    requires Indexed(rows, groups, entities) && row.entity in entities
    requires forall k :: 0 <= k < |rows| ==> rows[k].id != row.id
    requires row.name in groups && groups[row.name] == row.id.0
    ensures Indexed(rows + [row], groups, entities[row.entity := entities[row.entity] + {row.id}])
  {
    var rows', entities' := rows + [row], entities[row.entity := entities[row.entity] + {row.id}];
    forall k | 0 <= k < |rows'|
      ensures InIndexes(rows'[k], groups, entities')
    {
      if k < |rows| { assert InIndexes(rows[k], groups, entities); }
    }
    forall e, id | e in entities' && id in entities'[e]
      ensures exists k :: IsRow(rows', k, e, id)
    {
      if e in entities && id in entities[e] {
        var k :| IsRow(rows, k, e, id);
        assert IsRow(rows', k, e, id);
      } else {
        assert IsRow(rows', |rows|, e, id);
      }
    }
  }

  ghost predicate OnlyRow(rows: seq<Row>, k: int, e: nat, n: string) {
    RowFor(rows, k, e, n) && forall j :: RowFor(rows, j, e, n) ==> j == k
  }

  /** With one id found there is exactly one row, with another number of ids there is not. */
  lemma OneFound(rows: seq<Row>, e: nat, n: string, found: ComponentSet)
    requires forall i, j :: 0 <= i < j < |rows| ==> rows[i].id != rows[j].id
    requires forall k :: RowFor(rows, k, e, n) ==> rows[k].id in found
    requires forall id :: id in found ==> exists k :: RowFor(rows, k, e, n) && rows[k].id == id
    ensures |found| != 1 ==> forall k :: !OnlyRow(rows, k, e, n)
    ensures |found| == 1 ==> forall id :: id in found ==> exists k :: OnlyRow(rows, k, e, n) && rows[k].id == id
  {
    if |found| == 0 {
      assert found == {};
    } else {
      var id :| id in found;
      var k :| RowFor(rows, k, e, n) && rows[k].id == id;
      assert |found - {id}| == |found| - 1;
      if |found| == 1 {
        forall j | RowFor(rows, j, e, n)
          ensures j == k
        {
          assert found - {id} == {};
          assert rows[j].id in found && rows[j].id !in found - {id};
        }
        assert OnlyRow(rows, k, e, n);
        assert found == {id} by { assert found - {id} == {}; }
      } else {
        var id2 :| id2 in found - {id};
        var k2 :| RowFor(rows, k2, e, n) && rows[k2].id == id2;
      }
    }
  }

  class EngineStore {
    const compStore: ComponentStore
    const componentType: ComponentTypeIndex
    const entity: EntityIndex
    // what was added, in order: the rows and the components in their places
    ghost var rows: seq<Row>
    ghost var comps: seq<UserComponent>
    // the rows with the components' schemas, and the components' attributes
    ghost var infos: seq<Info>
    ghost var vals: seq<Attributes>
    // the flat map the store stands for, and the attributes it has
    ghost var flat: Store
    ghost var types: Types

    ghost predicate Valid()
      reads this`rows, this`comps, this`infos, compStore, compStore.groups.Values, componentType, entity
    {
      compStore.Valid() && componentType.Valid() &&
      Indexed(rows, componentType.typeNameGroupMap, entity.entityCompMap) &&
      AllPlaced(rows, comps) && Described(rows, comps, infos)
    }

    static ghost predicate Described(rs: seq<Row>, cs: seq<UserComponent>, ds: seq<Info>) {
      |rs| == |cs| == |ds| && forall k :: 0 <= k < |rs| ==> ds[k] == Info(rs[k].entity, rs[k].name, cs[k].schema)
    }

    /** vals are the attributes of the components, flat what they stand for. */
    ghost predicate Linked()
      reads this`comps, this`infos, this`vals, this`flat, this`types, comps
    {
      |vals| == |comps| == |infos| && flat == Flat(infos, vals) && types == AllTypes(infos) &&
      (forall i, j :: 0 <= i < j < |comps| ==> comps[i] != comps[j]) &&
      forall k :: 0 <= k < |comps| ==> vals[k] == comps[k].values
    }

    /** Every component is at its row's id in the store, and no component is listed twice. */
    ghost predicate AllPlaced(rs: seq<Row>, cs: seq<UserComponent>)
      requires compStore.Valid()
      reads compStore, compStore.groups.Values
    {
      |rs| == |cs| && (forall i, j :: 0 <= i < j < |cs| ==> cs[i] != cs[j]) && forall k :: 0 <= k < |rs| ==>
          Placed(rs[k], cs[k])
    }

    ghost predicate Placed(row: Row, c: UserComponent)
      requires compStore.Valid()
      reads compStore, compStore.groups.Values
    {
      c.typeName == row.name && compStore.Has(row.id.0, row.id.1) && compStore.Get(row.id.0, row.id.1) == c
    }

    ghost function Repr(): set<object>
      reads this, compStore
    {
      {this, compStore, componentType, entity} + (set v | v in compStore.groups.Values)
    }

    /** No attribute was ever touched. */
    ghost predicate Empty()
      reads this`vals
    {
      forall k, a :: 0 <= k < |vals| ==> a !in vals[k]
    }

    /** Then the flat map is empty. */
    lemma EmptyFlat(r: Ref)
      requires Linked() && Empty()
      ensures r !in flat
    {
      if k :| Once(infos, k, r.entity, r.component) {
        FlatDenotes(infos, vals, r, k);
      } else {
        FlatMissing(infos, vals, |infos|, r);
      }
    }

    constructor ()
      ensures Valid() && Linked() && Empty() && fresh(Repr()) && rows == [] && comps == [] && infos == [] &&
          entity.entityCompMap == map[] && entity.nextEntityId == 0
    {
      hide Valid, Linked, Empty;
      compStore := new ComponentStore();
      componentType := new ComponentTypeIndex();
      entity := new EntityIndex();
      rows, comps, infos, vals, flat, types := [], [], [], [], map[], map[];
      new;
      NothingStored();
    }

    lemma NothingStored()
      requires rows == [] && comps == [] && infos == [] && vals == [] && flat == map[] && types == map[]
      requires compStore.Valid() && componentType.Valid() && entity.entityCompMap == map[]
      ensures Valid() && Linked() && Empty()
    {
      hide ComponentStore.Valid;
    }

    /** addComponent of the indexed store: the component's type gets a group, and the component a place in it. */
    method Store(c: UserComponent) returns (id: CompStoreId)
      requires Valid()
      modifies compStore, compStore.groups.Values, componentType
      ensures Valid() && fresh(compStore.groups.Values - old(compStore.groups.Values))
      ensures c.typeName in componentType.typeNameGroupMap && componentType.typeNameGroupMap[c.typeName] == id.0
      ensures compStore.Has(id.0, id.1) && compStore.Get(id.0, id.1) == c
      ensures forall k :: 0 <= k < |rows| ==> rows[k].id != id
    {
      hide Indexed, EngineStore.Described, ComponentStore.Valid;
      ghost var groups := componentType.typeNameGroupMap;
      var group := componentType.AddComponentType(c.typeName);
      AddType(rows, groups, entity.entityCompMap, c.typeName, group);
      label Typed:
      assert AllPlaced(rows, comps);
      id := compStore.AddComponent(c, group);
      forall k | 0 <= k < |rows|
        ensures Placed(rows[k], comps[k]) && rows[k].id != id
      {
        assert old@Typed(Placed(rows[k], comps[k]));
      }
    }

    lemma PlacedMore(row: Row, c: UserComponent)
      requires compStore.Valid() && AllPlaced(rows, comps) && Placed(row, c) && c !in comps
      ensures AllPlaced(rows + [row], comps + [c])
    {
    }

    /** Lists a stored component for an entity. */
    method Enter(e: nat, c: UserComponent, id: CompStoreId)
      requires Valid() && e in entity.entityCompMap && c !in comps
      requires c.typeName in componentType.typeNameGroupMap && componentType.typeNameGroupMap[c.typeName] == id.0
      requires compStore.Has(id.0, id.1) && compStore.Get(id.0, id.1) == c
      requires forall k :: 0 <= k < |rows| ==> rows[k].id != id
      modifies this`rows, this`comps, this`infos, entity
      ensures Valid() && rows == old(rows) + [Row(e, c.typeName, id)] && comps == old(comps) + [c]
      ensures infos == old(infos) + [Info(e, c.typeName, c.schema)]
      ensures entity.entityCompMap.Keys == old(entity.entityCompMap.Keys) &&
          entity.nextEntityId == old(entity.nextEntityId)
    {
      hide ComponentStore.Valid, Indexed, AllPlaced;
      ghost var row := Row(e, c.typeName, id);
      PlacedMore(row, c);
      IndexFor(e, id, row);
      rows, comps, infos := rows + [row], comps + [c], infos + [Info(e, c.typeName, c.schema)];
    }

    method IndexFor(e: nat, id: CompStoreId, ghost row: Row)
      requires Indexed(rows, componentType.typeNameGroupMap, entity.entityCompMap) && e in entity.entityCompMap
      requires row.entity == e && row.id == id && row.name in componentType.typeNameGroupMap
      requires componentType.typeNameGroupMap[row.name] == id.0 && forall k :: 0 <= k < |rows| ==> rows[k].id != id
      modifies entity
      ensures Indexed(rows + [row], componentType.typeNameGroupMap, entity.entityCompMap)
      ensures entity.entityCompMap.Keys == old(entity.entityCompMap.Keys) &&
          entity.nextEntityId == old(entity.nextEntityId)
    {
      AddRow(rows, componentType.typeNameGroupMap, entity.entityCompMap, row);
      var r := entity.AddComponent(e, id);
    }

    /** Adds a component to the store and lists it for an entity that the index knows. */
    method Place(e: nat, c: UserComponent)
      requires Valid() && e in entity.entityCompMap && c !in comps
      modifies Repr() - {this}, this`rows, this`comps, this`infos
      ensures Valid() && fresh(Repr() - old(Repr()))
      ensures comps == old(comps) + [c] && infos == old(infos) + [Info(e, c.typeName, c.schema)]
      ensures entity.entityCompMap.Keys == old(entity.entityCompMap.Keys) &&
          entity.nextEntityId == old(entity.nextEntityId)
    {
      hide Valid;
      var id := Store(c);
      Enter(e, c, id);
    }

    /** addComponent for an entity, with the flat map that the store stands for. */
    method AddComponent(e: nat, c: UserComponent)
      requires Valid() && Linked() && e in entity.entityCompMap && c !in comps
      modifies Repr()
      ensures Valid() && Linked() && fresh(Repr() - old(Repr()))
      ensures comps == old(comps) + [c] && infos == old(infos) + [Info(e, c.typeName, c.schema)]
      ensures vals == old(vals) + [c.values]
      ensures entity.entityCompMap.Keys == old(entity.entityCompMap.Keys) &&
          entity.nextEntityId == old(entity.nextEntityId)
    {
      hide Valid, Linked, Flat, AllTypes, Indexed;
      LinkedParts();
      ghost var cs, vs := comps, vals;
      Place(e, c);
      vals := vals + [c.values];
      flat, types := Flat(infos, vals), AllTypes(infos);
      LinkedFrom(cs, vs, c);
    }

    lemma LinkedParts()
      requires Linked()
      ensures |vals| == |comps| == |infos| && (forall i, j :: 0 <= i < j < |comps| ==> comps[i] != comps[j])
      ensures forall k :: 0 <= k < |comps| ==> vals[k] == comps[k].values
    {
      hide Flat, AllTypes;
    }

    lemma LinkedFrom(cs: seq<UserComponent>, vs: seq<Attributes>, c: UserComponent)
      requires comps == cs + [c] && vals == vs + [c.values] && |cs| == |vs| && |infos| == |comps| && c !in cs
      requires flat == Flat(infos, vals) && types == AllTypes(infos)
      requires forall i, j :: 0 <= i < j < |cs| ==> cs[i] != cs[j]
      requires forall k :: 0 <= k < |cs| ==> vs[k] == cs[k].values
      ensures Linked()
    {
      hide Flat, AllTypes;
    }

    /** Adds a component without attributes. */
    method AddEmpty(e: nat, c: UserComponent)
      requires Valid() && Linked() && Empty() && e in entity.entityCompMap && c !in comps && forall a :: a !in c.values
      modifies Repr()
      ensures Valid() && Linked() && Empty() && fresh(Repr() - old(Repr()))
      ensures comps == old(comps) + [c] && infos == old(infos) + [Info(e, c.typeName, c.schema)]
      ensures entity.entityCompMap.Keys == old(entity.entityCompMap.Keys) &&
          entity.nextEntityId == old(entity.nextEntityId)
    {
      hide Valid, Linked;
      AddComponent(e, c);
    }

    /** Infos and rows say the same about uniqueness. */
    lemma OnceIsOnlyRow(k: int, e: nat, n: string)
      requires Described(rows, comps, infos)
      ensures Once(infos, k, e, n) <==> OnlyRow(rows, k, e, n)
    {
      assert forall j :: Matches(infos, j, e, n) <==> RowFor(rows, j, e, n);
    }

    /** The ids of the components of a type that belong to an entity, through the program's filters. */
    method Find(typeName: string, e: nat) returns (r: Result<ComponentSet>)
      requires Valid()
      ensures !r.Ok? ==> r == Throws && forall k :: !RowFor(rows, k, e, typeName)
      ensures r.Ok? ==> forall k :: RowFor(rows, k, e, typeName) ==> rows[k].id in r.value
      ensures r.Ok? ==> forall id :: id in r.value ==> exists k :: RowFor(rows, k, e, typeName) && rows[k].id == id
    {
      var all := compStore.AsCompSet();
      assert forall k :: 0 <= k < |rows| ==> Placed(rows[k], comps[k]);
      var ofType := componentType.FilterCompType(typeName, all);
      if !ofType.Ok? {
        forall k ensures !RowFor(rows, k, e, typeName) {
          NoRows(rows, componentType.typeNameGroupMap, entity.entityCompMap, e, typeName, k);
        }
        return Throws;
      }
      r := entity.FilterEntityId(e, ofType.value);
      if !r.Ok? {
        forall k ensures !RowFor(rows, k, e, typeName) {
          NoRows(rows, componentType.typeNameGroupMap, entity.entityCompMap, e, typeName, k);
        }
        return;
      }
      FoundRows(rows, componentType.typeNameGroupMap, entity.entityCompMap, all, e, typeName, r.value);
    }

    /** Finding a component through the indexes: they give it when exactly one was listed for the entity and the
        type; none or several are an error. */
    method GetComponent(typeName: string, e: nat) returns (r: Result<UserComponent>)
      requires Valid()
      ensures forall k :: Once(infos, k, e, typeName) ==> r == Ok(comps[k])
      ensures (forall k :: !Once(infos, k, e, typeName)) ==> r == Throws
    {
      forall k
        ensures Once(infos, k, e, typeName) <==> OnlyRow(rows, k, e, typeName)
      {
        OnceIsOnlyRow(k, e, typeName);
      }
      r := GetOnly(typeName, e);
    }

    method GetOnly(typeName: string, e: nat) returns (r: Result<UserComponent>)
      requires Valid()
      ensures forall k :: OnlyRow(rows, k, e, typeName) ==> r == Ok(comps[k])
      ensures (forall k :: !OnlyRow(rows, k, e, typeName)) ==> r == Throws
    {
      var components := Find(typeName, e);
      if !components.Ok? {
        return Throws;
      }
      OneFound(rows, e, typeName, components.value);
      if |components.value| > 1 {
        return Throws;
      } else if components.value == {} {
        return Throws;
      }
      var id :| id in components.value;
      ghost var k :| OnlyRow(rows, k, e, typeName) && rows[k].id == id;
      assert Placed(rows[k], comps[k]);
      r := compStore.GetComponent(id);
    }
  }
}
