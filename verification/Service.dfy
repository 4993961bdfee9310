/** The engine service: simulations by name. */
module Service {
  import opened Values
  import opened Graph
  import opened UserComponents
  import opened Ids
  import opened RunGraph
  import opened Simulations
  import opened Calls

  class EngineService {
    var sims: map<string, Simulation>
    // the objects of all simulations
    ghost var all: set<object>

    /** A simulation is sound and its objects are among those of the service. */
    ghost predicate Holds(s: Simulation)
      reads this`all, all
    {
      s in all && s.store in all && s.store.compStore in all && s.Repr() <= all && s.Valid()
    }

    /** Simulations are sound and share no objects. */
    ghost predicate Valid()
      reads this, all
    {
      this !in all && (forall n :: n in sims ==> Holds(sims[n])) &&
      forall m, n :: m in sims && n in sims && m != n ==> sims[m].Repr() !! sims[n].Repr()
    }

    /** What the service stands for in the state machine. */
    ghost function State(): Sims
      requires Valid()
      reads this, all
    {
      map n | n in sims :: sims[n].State()
    }

    /** The parts of having been valid. */
    twostate lemma WasValid()
      requires old(Valid())
      ensures this !in old(all) && forall n :: n in old(sims) ==>
          old(Holds(sims[n])) && n in old(State()) && old(State())[n] == old(sims[n].State())
      ensures old(State()).Keys == old(sims.Keys) && forall n :: n in old(sims) ==> old(sims[n].Repr()) <= old(all)
      ensures forall m, n :: m in old(sims) && n in old(sims) && m != n ==> old(sims[m].Repr()) !! old(sims[n].Repr())
    {
      hide Simulation.Valid, Simulation.Repr, Simulation.State;
    }

    lemma ValidFrom(m: Sims)
      requires this !in all && forall n :: n in sims ==> Holds(sims[n])
      requires forall m, n :: m in sims && n in sims && m != n ==> sims[m].Repr() !! sims[n].Repr()
      requires sims.Keys == m.Keys && forall n :: n in sims ==> sims[n].State() == m[n]
      ensures Valid() && State() == m
    {
      hide Holds, Simulation.Repr, Simulation.State;
    }

    lemma Sound(sim: Simulation)
      requires sim.Valid() && sim.Repr() <= all
      ensures Holds(sim)
    {
      hide Simulation.Valid;
    }

    /** A simulation none of whose objects change stays as it is, also when more objects are the service's. */
    twostate lemma HoldsMore(s: Simulation)
      requires old(allocated(s)) && old(Holds(s)) && old(all) <= all && forall o :: o in old(s.Repr()) ==> unchanged(o)
      ensures Holds(s) && s.Repr() == old(s.Repr()) && s.State() == old(s.State()) && s.Repr() <= old(all)
    {
      hide Simulation.Valid, Simulation.State;
    }

    constructor ()
      ensures Valid() && State() == map[]
    {
      sims, all := map[], {};
    }

    /** When only one simulation's objects change, and it stays sound, the others are as before. */
    twostate lemma OneChanged(name: string)
      requires old(Valid()) && name in sims && sims == old(sims) && all == old(all)
      requires sims[name].Valid() && sims[name].Repr() == old(sims[name].Repr())
      requires forall o :: o in all && o !in sims[name].Repr() ==> unchanged(o)
      ensures Valid() && State() == old(State())[name := sims[name].State()]
    {
      hide Valid, State, Holds, Simulation.Valid, Simulation.Repr, Simulation.State;
      WasValid();
      OthersSame(name);
      Sound(sims[name]);
      StillApart();
      ValidFrom(old(State())[name := sims[name].State()]);
    }

    twostate lemma StillApart()
      requires old(Valid()) && sims == old(sims) && forall n :: n in sims ==> sims[n].Repr() == old(sims[n].Repr())
      ensures forall m, n :: m in sims && n in sims && m != n ==> sims[m].Repr() !! sims[n].Repr()
    {
      hide Holds, Simulation.Valid, Simulation.Repr, Simulation.State;
    }

    twostate lemma OthersSame(name: string)
      requires old(Valid()) && name in sims && sims == old(sims) && all == old(all)
      requires sims[name].Repr() == old(sims[name].Repr())
      requires forall o :: o in all && o !in sims[name].Repr() ==> unchanged(o)
      ensures forall n :: n in sims && n != name ==>
                Holds(sims[n]) && sims[n].Repr() == old(sims[n].Repr()) && sims[n].State() == old(sims[n].State())
    {
      hide Valid, State, Holds, Simulation.Valid, Simulation.Repr, Simulation.State;
      WasValid();
      forall n | n in sims && n != name
        ensures Holds(sims[n]) && sims[n].Repr() == old(sims[n].Repr()) && sims[n].State() == old(sims[n].State())
      {
        HoldsMore(sims[n]);
      }
    }

    /** StepSimulation. */
    method StepSimulation(name: string) returns (status: Status)
      requires Valid()
      modifies all
      ensures Valid() && sims == old(sims) && all == old(all)
      ensures (State(), status) == Next(old(State()), Calls.Step(name))
    {
      hide Simulation.Valid, Simulation.Repr, RunSystems;
      if name !in sims {
        return NOT_FOUND;
      }
      var sim := sims[name];
      assert Holds(sim);
      assert sim.Repr() <= all && this !in all;
      hide Valid, Holds;
      var r := sim.Step();
      OneChanged(name);
      status := StatusOf(r);
    }

    /** GetAttribute: the value the simulation holds, when the status is OK. */
    method GetAttribute(name: string, ref: Ref) returns (status: Status, value: Option<Value>)
      requires Valid()
      modifies all
      ensures Valid() && sims == old(sims) && all == old(all)
      ensures (State(), status) == Next(old(State()), Calls.GetAttribute(name, ref))
      ensures value == Held(old(State()), name, ref) && (status == OK <==> value.Some?)
    {
      hide Simulation.Valid, Simulation.Repr, RunSystems, MutateOp, TypesOf, Started, RunOutputs, NothingSet;
      value := None;
      if name !in sims {
        return NOT_FOUND, None;
      }
      var sim := sims[name];
      assert Holds(sim);
      assert sim.Repr() <= all && this !in all;
      ghost var before := State();
      hide Valid, Holds;
      var r := sim.Retrieve(ref);
      OneChanged(name);
      assert before[name := before[name]] == before;
      if !r.Ok? {
        return NOT_FOUND, None;
      }
      return OK, Some(r.value);
    }

    /** SetAttribute. */
    method SetAttribute(name: string, ref: Ref, v: Value) returns (status: Status)
      requires Valid()
      modifies all
      ensures Valid() && sims == old(sims) && all == old(all)
      ensures (State(), status) == Next(old(State()), Calls.SetAttribute(name, ref, v))
    {
      hide Simulation.Valid, Simulation.Repr, MutateOp;
      if name !in sims {
        return NOT_FOUND;
      }
      var sim := sims[name];
      assert Holds(sim);
      assert sim.Repr() <= all && this !in all;
      hide Valid, Holds;
      var r := sim.Mutate(ref, v);
      OneChanged(name);
      status := StatusOf(r);
    }

    /** GetSimulation. */
    method GetSimulation(name: string) returns (status: Status, def: Option<SimulationDef>)
      requires Valid()
      ensures (State(), status) == Next(State(), Calls.Get(name))
      ensures def == if status == OK then Some(State()[name].def) else None
    {
      if name !in sims {
        return NOT_FOUND, None;
      }
      return OK, Some(sims[name].simDef);
    }

    /** ListSimulation. */
    method ListSimulation() returns (names: set<string>)
      requires Valid()
      ensures names == State().Keys
    {
      names := sims.Keys;
    }

    /** DropSimulation. */
    method DropSimulation(name: string) returns (status: Status)
      requires Valid()
      modifies this`sims
      ensures Valid() && all == old(all)
      ensures (State(), status) == Next(old(State()), Calls.Drop(name))
    {
      hide Valid;
      if name !in sims {
        return NOT_FOUND;
      }
      Forget(name);
      return OK;
    }

    method Forget(name: string)
      requires Valid()
      modifies this`sims
      ensures Valid() && all == old(all) && State() == old(State()) - {name}
    {
      hide Simulation.Valid, Simulation.Repr, Simulation.State, Holds;
      ghost var before := State();
      sims := sims - {name};
      assert sims.Keys == before.Keys - {name};
      assert State() == before - {name};
    }

    /** ApplySimulation: refused for a locked simulation; otherwise the new simulation takes the name even when
        its initial graph fails. */
    method ApplySimulation(def: SimulationDef) returns (status: Status, applied: Option<SimulationDef>)
      requires Valid()
      modifies this
      ensures Valid() && fresh(all - old(all))
      ensures (State(), status) == Next(old(State()), Apply(def))
      ensures applied == if status == OK then Some(Started(def)) else None
    {
      hide Simulation.Valid, Simulation.Repr, RunOutputs, Started, TypesOf, NothingSet, RunSystems, MutateOp;
      if def.name in sims && sims[def.name].locked {
        return ALREADY_EXISTS, None;
      }
      var sim, r := Create(def);
      Replace(def.name, sim);
      status := StatusOf(r);
      applied := if status == OK then Some(sim.simDef) else None;
    }

    /** A new simulation after its initial graph. */
    method Create(def: SimulationDef) returns (sim: Simulation, r: Result<()>)
      ensures fresh(sim) && fresh(sim.Repr()) && sim.Valid()
      ensures var run := RunOutputs(TypesOf(def), NothingSet(), def.initGraph);
        sim.State() == SimState(Started(def), false, TypesOf(def), run.store) && r == run.status
    {
      hide Simulation.Valid, Simulation.Blank, Started, TypesOf, NothingSet, RunOutputs;
      sim := new Simulation(def);
      sim.Fill();
      hide Simulation.Repr;
      r := sim.Run(def.initGraph);
    }

    /** Puts a new simulation under a name. */
    method Replace(name: string, sim: Simulation)
      requires Valid() && sim.Valid() && sim.Repr() !! all && this !in sim.Repr()
      modifies this
      ensures Valid() && all == old(all) + sim.Repr()
      ensures State() == old(State())[name := sim.State()]
    {
      hide Valid, State, Holds, Simulation.Valid, Simulation.Repr, Simulation.State;
      ghost var before := State();
      sims := sims[name := sim];
      all := all + sim.Repr();
      WasValid();
      Sound(sim);
      forall n | n in sims && n != name
        ensures Holds(sims[n]) && sims[n].Repr() == old(sims[n].Repr()) && sims[n].State() == before[n]
        ensures sims[n].Repr() !! sim.Repr()
      {
        HoldsMore(old(sims)[n]);
      }
      ValidFrom(before[name := sim.State()]);
    }
  }
}
