/** A simulation: its definition, its store and its lock. */
module Simulations {
  import opened Values
  import opened Graph
  import opened Components
  import opened UserComponents
  import opened Indexes
  import opened FlatStore
  import opened EngineStores
  import opened Ids
  import opened RunGraph
  import opened Calls
  import Interpreter

  class Simulation {
    var simDef: SimulationDef
    const store: EngineStore
    var locked: bool

    ghost function Repr(): (r: set<object>)
      reads this, store, store.compStore
      ensures {this, store, store.compStore} <= r && store.Repr() <= r && forall c :: c in store.comps ==> c in r
    {
      {this} + store.Repr() + (set c | c in store.comps)
    }

    ghost predicate Valid()
      reads this, store, store.compStore, Repr()
    {
      store.Valid() && store.Linked()
    }

    /** What the simulation stands for in the state machine. */
    ghost function State(): SimState
      reads this, store
    {
      SimState(simDef, locked, store.types, store.flat)
    }

    /** An unlocked simulation with an empty store; Fill is the rest of the program's constructor. */
    constructor (def: SimulationDef)
      ensures simDef == def && !locked && Blank() && fresh(store.Repr()) && Repr() == {this} + store.Repr()
    {
      simDef, locked := def, false;
      store := new EngineStore();
    }

    ghost predicate Blank()
      reads this, store, store.compStore, Repr()
    {
      Valid() && store.Empty() && store.rows == [] && store.infos == [] && store.comps == [] &&
          store.entity.entityCompMap == map[]
    }

    /** Lists the configured ids, fills the store, and gives ids to entities and systems that have none. Nothing is
        set yet. */
    method Fill()
      requires Blank()
      modifies this`simDef, store.Repr()
      ensures Valid() && fresh(Repr() - old(Repr())) && store.infos == ListedInfos(simDef.entities, simDef.components)
      ensures State() == SimState(Started(old(simDef)), old(locked), TypesOf(old(simDef)), NothingSet())
    {
      hide EngineStore.Valid, EngineStore.Linked, EngineStore.Empty, AssignIds, AssignSystemIds, ListedInfos, Largest,
          Configured;
      RegisterIds();
      AddEntities();
      SetSystemIds();
      Unset();
    }

    /** A new store has its components' attributes, and none of them is set. */
    lemma Unset()
      requires Valid() && store.Empty()
      ensures store.flat == NothingSet() && store.types == AllTypes(store.infos)
    {
      forall r | r in store.flat ensures false { store.EmptyFlat(r); }
    }

    /** Tells the entity index the configured ids. */
    method RegisterIds()
      requires store.Valid() && store.rows == [] && store.entity.entityCompMap == map[]
      modifies store.entity
      ensures store.Valid() && store.entity.nextEntityId == Succ(Largest(Configured(simDef.entities)))
      ensures forall i :: 0 <= i < |simDef.entities| && simDef.entities[i].id != UNSET ==>
          simDef.entities[i].id in store.entity.entityCompMap
    {
      var ids := ConfiguredIds(simDef.entities);
      store.entity.SetEntityIds(ids);
    }

    /** The ids of entities that have one, the last first. */
    static method ConfiguredIds(es: seq<EntityDef>) returns (ids: seq<U32>)
      ensures Largest(ids) == Largest(Configured(es))
      ensures forall i :: 0 <= i < |es| && es[i].id != UNSET ==> es[i].id in ids
    {
      ids := [];
      var i := 0;
      while i < |es|
        invariant 0 <= i <= |es|
        invariant forall j :: 0 <= j < i && es[j].id != UNSET ==> es[j].id in ids
        invariant forall id :: id in ids ==> id in Configured(es)
      {
        if es[i].id != UNSET {
          ConfiguredIn(es, i);
          ids := [es[i].id] + ids;
        }
        i := i + 1;
      }
      forall id | id in Configured(es)
        ensures id in ids
      {
        var j := ConfiguredFrom(es, id);
      }
      SameLargest(ids, Configured(es));
    }

    /** Gives the entity an id if it has none; passes over zero. */
    method EntityId(e: EntityDef) returns (id: U32)
      requires store.Valid() && store.entity.nextEntityId < UINT32
      requires e.id != UNSET ==> e.id in store.entity.entityCompMap
      modifies store.entity
      ensures store.Valid() && id in store.entity.entityCompMap && store.entity.nextEntityId < UINT32
      ensures old(store.entity.entityCompMap.Keys) <= store.entity.entityCompMap.Keys
      ensures id == if e.id != UNSET then e.id else NextId(old(store.entity.nextEntityId))
      ensures store.entity.nextEntityId == if e.id != UNSET then old(store.entity.nextEntityId) else Succ(id)
    {
      if e.id != UNSET {
        return e.id;
      }
      id := NewId();
      while id == UNSET
        invariant store.Valid() && id in store.entity.entityCompMap && store.entity.nextEntityId == Succ(id)
        invariant old(store.entity.entityCompMap.Keys) <= store.entity.entityCompMap.Keys
        invariant id == if id == UNSET then old(store.entity.nextEntityId) else NextId(old(store.entity.nextEntityId))
        decreases if id == UNSET then 1 else 0
      {
        id := NewId();
      }
    }

    /** A new id with no components yet. */
    method NewId() returns (id: U32)
      requires store.Valid() && store.entity.nextEntityId < UINT32
      modifies store.entity
      ensures store.Valid() && id in store.entity.entityCompMap && store.entity.nextEntityId < UINT32
      ensures old(store.entity.entityCompMap.Keys) <= store.entity.entityCompMap.Keys
      ensures id == old(store.entity.nextEntityId) && store.entity.nextEntityId == Succ(id)
    {
      hide Indexed, EngineStore.AllPlaced, EngineStore.Described, ComponentStore.Valid;
      ghost var rows, groups, entities := store.rows, store.componentType.typeNameGroupMap, store.entity.entityCompMap;
      id := store.entity.AddEntityId();
      AddEntity(rows, groups, entities, id);
    }

    /** Adds an entity's components. */
    method AddComponents(e: EntityDef)
      requires Valid() && e.id in store.entity.entityCompMap && store.Empty()
      modifies store.Repr()
      ensures Valid() && store.Empty() && fresh(store.Repr() - old(store.Repr()))
      ensures forall c :: c in store.comps ==> c in old(store.comps) || fresh(c)
      ensures store.infos == old(store.infos) + InfosOf(e, simDef.components)
      ensures store.entity.entityCompMap.Keys == old(store.entity.entityCompMap.Keys)
      ensures store.entity.nextEntityId == old(store.entity.nextEntityId)
    {
      hide EngineStore.Valid, EngineStore.Linked, EngineStore.Empty, SchemaOf;
      ghost var infos := store.infos;
      var j := 0;
      while j < |e.components|
        invariant 0 <= j <= |e.components| && store.Valid() && store.Linked() && store.Empty()
        invariant fresh(store.Repr() - old(store.Repr()))
        invariant forall c :: c in store.comps ==> c in old(store.comps) || fresh(c)
        invariant store.infos == infos + InfosOf(e, simDef.components)[..j]
        invariant store.entity.entityCompMap.Keys == old(store.entity.entityCompMap.Keys)
        invariant store.entity.nextEntityId == old(store.entity.nextEntityId)
      {
        var c := new UserComponent(e.components[j], SchemaOf(simDef.components, e.components[j]));
        assert InfosOf(e, simDef.components)[..j + 1] == InfosOf(e,
            simDef.components)[..j] + [InfosOf(e, simDef.components)[j]];
        store.AddEmpty(e.id, c);
        j := j + 1;
      }
      assert InfosOf(e, simDef.components)[..j] == InfosOf(e, simDef.components);
    }
  
    /** Gives entity i an id if it has none, and adds its components. */
    method PlaceEntity(i: nat)
      requires Valid() && store.Empty() && store.entity.nextEntityId < UINT32 && i < |simDef.entities|
      requires simDef.entities[i].id != UNSET ==> simDef.entities[i].id in store.entity.entityCompMap
      modifies this`simDef, store.Repr()
      ensures Valid() && store.Empty() && store.entity.nextEntityId < UINT32 && fresh(store.Repr() - old(store.Repr()))
      ensures forall c :: c in store.comps ==> c in old(store.comps) || fresh(c)
      ensures old(store.entity.entityCompMap.Keys) <= store.entity.entityCompMap.Keys
      ensures var e, next := old(simDef.entities[i]), old(store.entity.nextEntityId);
        var id := if e.id != UNSET then e.id else NextId(next);
        simDef == old(simDef).(entities := old(simDef).entities[i := e.(id := id)]) &&
        store.infos == old(store.infos) + InfosOf(e.(id := id), simDef.components) &&
        store.entity.nextEntityId == if e.id != UNSET then next else Succ(id)
    {
      hide EngineStore.Valid, EngineStore.Linked, EngineStore.Empty, SchemaOf, InfosOf;
      var e := simDef.entities[i];
      var id := EntityId(e);
      simDef := simDef.(entities := simDef.entities[i := e.(id := id)]);
      AddComponents(simDef.entities[i]);
    }

    /** Gives every entity an id, in order, and adds its components. */
    method AddEntities()
      requires Valid() && store.Empty() && store.infos == [] && store.entity.nextEntityId < UINT32
      requires forall i :: 0 <= i < |simDef.entities| && simDef.entities[i].id != UNSET ==>
          simDef.entities[i].id in store.entity.entityCompMap
      modifies this`simDef, store.Repr()
      ensures Valid() && store.Empty() && fresh(store.Repr() - old(store.Repr()))
      ensures forall c :: c in store.comps ==> c in old(store.comps) || fresh(c)
      ensures simDef == old(simDef).(entities := AssignIds(old(simDef).entities, old(store.entity.nextEntityId)))
      ensures store.infos == ListedInfos(simDef.entities, simDef.components)
    {
      hide EngineStore.Valid, EngineStore.Linked, EngineStore.Empty, SchemaOf, InfosOf, ListedInfos, GivenTo;
      ghost var es, start := simDef.entities, store.entity.nextEntityId;
      var i := 0;
      GivenNone(es, start, simDef.components);
      while i < |simDef.entities|
        invariant 0 <= i <= |es| == |simDef.entities| && simDef == old(simDef).(entities := simDef.entities)
        invariant store.Valid() && store.Linked() && store.Empty() && store.entity.nextEntityId < UINT32
        invariant fresh(store.Repr() - old(store.Repr()))
        invariant forall c :: c in store.comps ==> c in old(store.comps) || fresh(c)
        invariant GivenTo(es, start, simDef.entities, i, store.entity.nextEntityId)
        invariant forall j :: i <= j < |es| && es[j].id != UNSET ==> es[j].id in store.entity.entityCompMap
        invariant store.infos == ListedInfos(simDef.entities[..i], simDef.components)
      {
        GiveNext(es, start, simDef.entities, i, store.entity.nextEntityId, simDef.components);
        PlaceEntity(i);
        i := i + 1;
      }
      GivenAll(es, start, simDef.entities, store.entity.nextEntityId);
    }

    /** Runs a graph on the store. */
    method Run(outs: Outputs) returns (r: Result<()>)
      requires Valid()
      modifies Repr()
      ensures Valid() && Repr() == old(Repr()) && (r.Ok? ==> r == Ok(()))
      ensures var run := RunOutputs(old(store.types), old(store.flat), outs);
        State() == old(State()).(store := run.store) && r == run.status
    {
      hide EngineStore.Valid, EngineStore.Linked, MutateOp, RunOutputs;
      r := Interpreter.RunGraph(store, outs);
    }

    method Lock()
      requires Valid()
      modifies this`locked
      ensures Valid() && Repr() == old(Repr()) && State() == old(State()).(locked := true)
    {
      if !locked {
        locked := true;
      }
    }

    /** Locks the simulation and runs its systems in order, up to the first that fails. */
    method Step() returns (r: Result<()>)
      requires Valid()
      modifies Repr()
      ensures Valid() && Repr() == old(Repr())
      ensures var run := RunSystems(old(store.types), old(store.flat), old(simDef).systems);
        State() == old(State()).(locked := true, store := run.store) && r == run.status
    {
      hide Simulation.Valid, Simulation.Repr, RunOutputs;
      Lock();
      r := Ok(());
      var i := 0;
      assert simDef.systems[0..] == simDef.systems;
      while i < |simDef.systems|
        invariant 0 <= i <= |simDef.systems| && r == Ok(()) && Valid() && Repr() == old(Repr())
        invariant State() == old(State()).(locked := true, store := store.flat)
        invariant RunSystems(store.types, store.flat, simDef.systems[i..]) == RunSystems(old(store.types),
            old(store.flat), old(simDef).systems)
      {
        assert simDef.systems[i..][0] == simDef.systems[i] && simDef.systems[i..][1..] == simDef.systems[i + 1..];
        r := Run(simDef.systems[i].graph);
        if !r.Ok? {
          return;
        }
        i := i + 1;
      }
      assert simDef.systems[i..] == [];
    }

    /** Reads an attribute. */
    method Retrieve(ref: Ref) returns (r: Result<Value>)
      requires Valid()
      modifies Repr()
      ensures Valid() && Repr() == old(Repr()) && State() == old(State())
      ensures r == if ref in store.flat then Ok(store.flat[ref]) else Throws
    {
      hide EngineStore.Valid, EngineStore.Linked, MutateOp, RunOutputs;
      r := Interpreter.RetrieveOp(store, ref);
    }

    /** Writes an attribute. */
    method Mutate(ref: Ref, v: Value) returns (r: Result<()>)
      requires Valid()
      modifies Repr()
      ensures Valid() && Repr() == old(Repr())
      ensures var run := MutateOp(old(store.types), old(store.flat), ref, Const(v));
        State() == old(State()).(store := run.store) && r == run.status
    {
      hide EngineStore.Valid, EngineStore.Linked, MutateOp, RunOutputs;
      r := Interpreter.MutateOp(store, ref, Const(v));
    }

    /** The largest id of the systems. */
    static method LargestSystemId(ss: seq<SystemDef>) returns (maxId: U32)
      ensures maxId == Largest(SystemIds(ss))
    {
      maxId := 0;
      var i := 0;
      SystemIdAt(ss, 0);
      while i < |ss|
        invariant 0 <= i <= |ss| && maxId == Largest(SystemIds(ss)[..i]) && |SystemIds(ss)| == |ss|
      {
        SystemIdAt(ss, i);
        assert SystemIds(ss)[..i + 1] == SystemIds(ss)[..i] + [SystemIds(ss)[i]];
        if ss[i].id != UNSET && ss[i].id > maxId {
          maxId := ss[i].id;
        }
        i := i + 1;
      }
      assert SystemIds(ss)[..i] == SystemIds(ss);
    }

    /** Gives every system that has none an id. */
    method SetSystemIds()
      modifies this`simDef
      ensures simDef == old(simDef).(systems := AssignSystemIds(old(simDef).systems,
          Largest(SystemIds(old(simDef).systems))))
    {
      hide *;
      var maxId := LargestSystemId(simDef.systems);
      ghost var ss, start := simDef.systems, maxId;
      var i := 0;
      assert ss[0..] == ss && ss[..0] + AssignSystemIds(ss, start) == AssignSystemIds(ss, start);
      while i < |simDef.systems|
        invariant 0 <= i <= |ss| == |simDef.systems| && simDef == old(simDef).(systems := simDef.systems)
        invariant simDef.systems[i..] == ss[i..]
        invariant simDef.systems[..i] + AssignSystemIds(ss[i..], maxId) == AssignSystemIds(ss, start)
      {
        AssignStep(simDef.systems, ss, i, maxId);
        if simDef.systems[i].id == UNSET {
          maxId := Succ(maxId);
          simDef := simDef.(systems := simDef.systems[i := simDef.systems[i].(id := maxId)]);
        }
        i := i + 1;
      }
      AssignNone(maxId);
      assert simDef.systems[..i] == simDef.systems && ss[i..] == [];
    }

    /** One step of the loop: what is assigned and what remains to be assigned stay together. */
    static lemma AssignStep(systems: seq<SystemDef>, ss: seq<SystemDef>, i: nat, maxId: U32)
      requires i < |ss| == |systems| && systems[i..] == ss[i..]
      ensures var unset := systems[i].id == UNSET;
        var maxId' := if unset then Succ(maxId) else maxId;
        var systems' := if unset then systems[i := systems[i].(id := maxId')] else systems;
        systems'[i + 1..] == ss[i + 1..] &&
        systems'[..i + 1] + AssignSystemIds(ss[i + 1..], maxId') == systems[..i] + AssignSystemIds(ss[i..], maxId)
    {
      hide *;
      TailsAgree(systems, ss, i);
      AssignNext(ss, i, maxId);
      var unset := systems[i].id == UNSET;
      var x := if unset then systems[i].(id := Succ(maxId)) else systems[i];
      Updated(systems, i, x);
      Updated(systems, i, systems[i]);
      Appended(systems[..i], x, AssignSystemIds(ss[i + 1..], if unset then Succ(maxId) else maxId));
    }

    static lemma TailsAgree(a: seq<SystemDef>, b: seq<SystemDef>, i: nat)
      requires i < |a| == |b| && a[i..] == b[i..]
      ensures a[i] == b[i] && a[i + 1..] == b[i + 1..]
    {
      assert a[i..][0] == b[i..][0] && a[i + 1..] == a[i..][1..] && b[i + 1..] == b[i..][1..];
    }

    static lemma Updated(a: seq<SystemDef>, i: nat, x: SystemDef)
      requires i < |a|
      ensures a[i := x][..i + 1] == a[..i] + [x] && a[i := x][i + 1..] == a[i + 1..] && a[i := a[i]] == a
    {
    }

    static lemma Appended(a: seq<SystemDef>, x: SystemDef, b: seq<SystemDef>)
      ensures (a + [x]) + b == a + ([x] + b)
    {
    }

    static lemma AssignNone(maxId: U32)
      ensures AssignSystemIds([], maxId) == []
    {
    }

    /** Assigning from system i on. */
    static lemma AssignNext(ss: seq<SystemDef>, i: nat, maxId: U32)
      requires i < |ss|
      ensures AssignSystemIds(ss[i..], maxId) ==
              if ss[i].id == UNSET then [ss[i].(id := Succ(maxId))] + AssignSystemIds(ss[i + 1..], Succ(maxId))
              else [ss[i]] + AssignSystemIds(ss[i + 1..], maxId)
    {
      assert ss[i..][1..] == ss[i + 1..];
    }
  }

  /** The first i entities have the ids they are to get, the others are as before. */
  ghost predicate GivenTo(es: seq<EntityDef>, start: U32, now: seq<EntityDef>, i: nat, next: nat) {
    i <= |es| == |now| && next < UINT32 && now[i..] == es[i..] &&
        now[..i] + AssignIds(es[i..], next) == AssignIds(es, start)
  }

  lemma GivenNone(es: seq<EntityDef>, start: U32, cs: seq<ComponentDef>)
    ensures GivenTo(es, start, es, 0, start) && ListedInfos(es[..0], cs) == [] && es[..0] == []
  {
    assert es[0..] == es && es[..0] == [];
  }

  lemma GivenAll(es: seq<EntityDef>, start: U32, now: seq<EntityDef>, next: nat)
    requires GivenTo(es, start, now, |es|, next)
    ensures now == AssignIds(es, start) && now[..|es|] == now
  {
  }

  lemma GiveNext(es: seq<EntityDef>, start: U32, now: seq<EntityDef>, i: nat, next: nat, cs: seq<ComponentDef>)
    requires GivenTo(es, start, now, i, next) && i < |es|
    ensures now[i] == es[i]
    ensures var id := if es[i].id != UNSET then es[i].id else NextId(next);
      var next' := if es[i].id != UNSET then next else Succ(id);
      var then' := now[i := es[i].(id := id)];
      GivenTo(es, start, then', i + 1, next') &&
      ListedInfos(then'[..i + 1], cs) == ListedInfos(now[..i], cs) + InfosOf(es[i].(id := id), cs)
  {
    var id := if es[i].id != UNSET then es[i].id else NextId(next);
    var then' := now[i := es[i].(id := id)];
    assert now[i] == now[i..][0] == es[i] && es[i..][1..] == es[i + 1..];
    assert then'[..i + 1] == now[..i] + [then'[i]] && then'[..i + 1][..i] == now[..i];
    assert then'[i + 1..] == now[i..][1..];
  }

  lemma {:induction false} SystemIdAt(ss: seq<SystemDef>, i: nat)
    requires i <= |ss|
    ensures |SystemIds(ss)| == |ss| && (i < |ss| ==> SystemIds(ss)[i] == ss[i].id)
  {
    if ss != [] { SystemIdAt(ss[1..], if i == 0 then 0 else i - 1); }
  }

  lemma SameLargest(a: seq<nat>, b: seq<nat>)
    requires forall id :: id in a <==> id in b
    ensures Largest(a) == Largest(b)
  {
    var m, n := Largest(a), Largest(b);
  }
}
