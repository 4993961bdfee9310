/** The engine service as a state machine over its calls. */
module Calls {
  import opened Values
  import opened Graph
  import opened Components
  import opened UserComponents
  import opened FlatStore
  import opened Ids
  import opened Indexes
  import opened RunGraph
  import opened Typing

  datatype SimState = SimState(def: SimulationDef, locked: bool, types: Types, store: Store)
  type Sims = map<string, SimState>

  datatype Status = OK | ALREADY_EXISTS | NOT_FOUND | INTERNAL | UNDEFINED

  datatype Call =
    | Apply(def: SimulationDef)
    | Get(name: string)
    | List
    | Drop(name: string)
    | Step(name: string)
    | GetAttribute(name: string, ref: Ref)
    | SetAttribute(name: string, ref: Ref, v: Value)

  function StatusOf(r: Result<()>): Status {
    match r
    case Ok(_) => OK
    case Throws => INTERNAL
    case Undefined => UNDEFINED
  }

  function NothingSet(): Store {
    map[]
  }

  /** The definition after the constructor: ids everywhere. */
  function Started(def: SimulationDef): SimulationDef {
    def.(entities := WithIds(def.entities), systems := AssignSystemIds(def.systems, Largest(SystemIds(def.systems))))
  }

  ghost function TypesOf(def: SimulationDef): Types {
    AllTypes(ListedInfos(Started(def).entities, def.components))
  }

  /** Runs the systems one after another, up to the first that fails. */
  function RunSystems(types: Types, s: Store, systems: seq<SystemDef>): Run
    decreases |systems|
  {
    if systems == [] then Run(s, Ok(()))
    else
      var run := RunOutputs(types, s, systems[0].graph);
      if run.status.Ok? then RunSystems(types, run.store, systems[1..]) else run
  }

  /** The state a call leaves and the status it returns. */
  ghost function Next(s: Sims, c: Call): (Sims, Status) {
    match c
    case Apply(def) =>
      if def.name in s && s[def.name].locked then (s, ALREADY_EXISTS)
      else
        // the new simulation replaces the old one even when its initial graph then fails
        var run := RunOutputs(TypesOf(def), NothingSet(), def.initGraph);
        (s[def.name := SimState(Started(def), false, TypesOf(def), run.store)], StatusOf(run.status))
    case Get(name) => (s, if name in s then OK else NOT_FOUND)
    case List => (s, OK)
    case Drop(name) => if name in s then (s - {name}, OK) else (s, NOT_FOUND)
    case Step(name) =>
      if name !in s then (s, NOT_FOUND)
      else
        var run := RunSystems(s[name].types, s[name].store, s[name].def.systems);
        (s[name := s[name].(locked := true, store := run.store)], StatusOf(run.status))
    case GetAttribute(name, ref) => (s, if name in s && ref in s[name].store then OK else NOT_FOUND)
    case SetAttribute(name, ref, v) =>
      if name !in s then (s, NOT_FOUND)
      else
        var run := MutateOp(s[name].types, s[name].store, ref, Const(v));
        (s[name := s[name].(store := run.store)], StatusOf(run.status))
  }

  /** The value of an attribute, if it is set. */
  function Held(s: Sims, name: string, ref: Ref): Option<Value> {
    if name in s && ref in s[name].store then Some(s[name].store[ref]) else None
  }

  ghost function After(s: Sims, calls: seq<Call>): Sims
    decreases |calls|
  {
    if calls == [] then s else After(Next(s, calls[0]).0, calls[1..])
  }

  /** The simulation a call names. */
  function Names(c: Call): set<string> {
    match c
    case Apply(def) => {def.name}
    case List => {}
    case Get(name) => {name}
    case Drop(name) => {name}
    case Step(name) => {name}
    case GetAttribute(name, _) => {name}
    case SetAttribute(name, _, _) => {name}
  }

  // ---------------------------------------------------------------- whole runs of calls

  /** Calls on other names never change a simulation. */
  lemma {:induction false} OthersUntouched(s: Sims, calls: seq<Call>, name: string)
    requires forall c :: c in calls ==> name !in Names(c)
    ensures name in After(s, calls) <==> name in s
    ensures name in s ==> After(s, calls)[name] == s[name]
    decreases |calls|
  {
    if calls != [] {
      assert calls[0] in calls;
      OthersUntouched(Next(s, calls[0]).0, calls[1..], name);
    }
  }

  /** From the first step that finds a simulation until it is dropped, its definition stays the same and every
      call to apply one of its name is refused without effect, whatever the calls in between. */
  lemma {:induction false} LockedUntilDropped(s: Sims, calls: seq<Call>, name: string, def: SimulationDef)
    requires name in s && s[name].locked && Drop(name) !in calls && def.name == name
    ensures var t := After(s, calls);
      name in t && t[name].locked && t[name].def == s[name].def && Next(t, Apply(def)) == (t, ALREADY_EXISTS)
    decreases |calls|
  {
    if calls != [] {
      assert calls[0] in calls;
      LockedUntilDropped(Next(s, calls[0]).0, calls[1..], name, def);
    }
  }

  /** A step that finds its simulation locks it and runs all outputs of its systems in order, up to the first that
      fails; definition, types and the other simulations stay. */
  lemma StepRuns(s: Sims, name: string) returns (k: nat)
    requires name in s
    ensures var (t, status) := Next(s, Step(name));
      var sim, outs := s[name], AllOutputs(s[name].def.systems);
      t.Keys == s.Keys && (forall n :: n in s && n != name ==> t[n] == s[n]) &&
      t[name].locked && t[name].def == sim.def && t[name].types == sim.types &&
      k <= |outs| && RunOutputs(sim.types, sim.store, outs[..k]) == Run(t[name].store, Ok(())) &&
      (status == OK <==> k == |outs|) &&
      (status != OK ==>
        var failed := MutateOp(sim.types, t[name].store, outs[k].ref, outs[k].node).status;
        (status == INTERNAL && failed.Throws?) || (status == UNDEFINED && failed.Undefined?))
  {
    hide RunOutputs, RunSystems, MutateOp, AllOutputs;
    var sim := s[name];
    StepIsOneRun(sim.types, sim.store, sim.def.systems);
    k := FailingRun(sim.types, sim.store, AllOutputs(sim.def.systems));
    assert RunOutputs(sim.types, sim.store, AllOutputs(sim.def.systems)[..k]).status.value == ();
  }

  /** One system with one output of a constant: after a step the attribute reads as that value, cast. */
  lemma StepWrites(s: Sims, name: string, id: U32, ref: Ref, v: Value)
    requires name in s && s[name].def.systems == [SystemDef(id, [Entry(ref, Const(v))])]
    requires ref in s[name].types && StoredAs(s[name].types[ref], v).Ok?
    ensures var (t, status) := Next(s, Step(name));
      status == OK && ref in t[name].store && Ok(t[name].store[ref]) == StoredAs(s[name].types[ref], v) &&
      Next(t, GetAttribute(name, ref)) == (t, OK)
  {
    hide StoredAs;
    var sim := s[name];
    var outs := [Entry(ref, Const(v))];
    assert sim.def.systems[1..] == [] && outs[1..] == [];
    var m := MutateOp(sim.types, sim.store, ref, Const(v));
    assert m.status == Ok(()) && m.store == sim.store[ref := StoredAs(sim.types[ref], v).value];
    assert RunOutputs(sim.types, sim.store, outs) == m;
    assert RunSystems(sim.types, sim.store, sim.def.systems) == m;
  }

  /** An accepted definition holds, not locked and with the ids of the constructor, what its initial graph leaves on an
      empty store, whether the graph fails or not; the other simulations stay. */
  lemma ApplyHolds(s: Sims, def: SimulationDef)
    requires def.name in s ==> !s[def.name].locked
    ensures var (t, status) := Next(s, Apply(def));
      var run := RunOutputs(TypesOf(def), map[], def.initGraph);
      t.Keys == s.Keys + {def.name} && (forall n :: n in s && n != def.name ==> t[n] == s[n]) &&
      !t[def.name].locked && t[def.name].store == run.store && t[def.name].types == TypesOf(def) &&
      t[def.name].def == def.(entities := WithIds(def.entities), systems := t[def.name].def.systems) &&
      t[def.name].def.systems == AssignSystemIds(def.systems, Largest(SystemIds(def.systems))) &&
      (status == OK <==> run.status.Ok?) && (status == INTERNAL <==> run.status.Throws?)
  {
  }

  /** Dropping forgets the simulation; reading changes nothing; a call on a name that is not there, other than an apply,
      changes nothing and says so. */
  lemma DropForgets(s: Sims, name: string, ref: Ref, v: Value)
    ensures Next(s, Drop(name)).0.Keys == s.Keys - {name}
    ensures forall n :: n in s && n != name ==> Next(s, Drop(name)).0[n] == s[n]
    ensures name in s ==> Next(s, Drop(name)).1 == OK && Next(s, Get(name)) == (s, OK)
    ensures Next(s, List) == (s, OK)
    ensures Next(s, GetAttribute(name, ref)) == (s, if name in s && ref in s[name].store then OK else NOT_FOUND)
    ensures name !in s ==> forall c :: c in {Get(name), Drop(name), Step(name), SetAttribute(name, ref, v)} ==>
              Next(s, c) == (s, NOT_FOUND)
  {
  }

  /** A successful set is read back as the value cast to the attribute's type; a failed one changes nothing;
      nothing else ever changes. */
  lemma SetThenGet(s: Sims, name: string, ref: Ref, v: Value, other: Ref)
    requires name in s
    ensures var (t, status) := Next(s, SetAttribute(name, ref, v));
      name in t &&
      (status == OK <==> ref in s[name].types && StoredAs(s[name].types[ref], v).Ok?) &&
      (status == OK ==> ref in t[name].store && Ok(t[name].store[ref]) == StoredAs(s[name].types[ref], v)) &&
      (status != OK ==> t == s) &&
      (other != ref ==> (other in t[name].store <==> other in s[name].store)) &&
      (other != ref && other in s[name].store ==> t[name].store[other] == s[name].store[other])
  {
    assert s[name := s[name].(store := s[name].store)] == s;
  }

  /** With distinct entity ids and no component named twice in an entity, the attributes a simulation has are
      exactly those in the schemas of the listed components. */
  lemma AttributesListed(def: SimulationDef, r: Ref)
    requires DistinctIds(Started(def).entities) && NoRepeats(Started(def).entities)
    ensures r in TypesOf(def) <==>
            (exists i, j :: Lists(Started(def).entities, i, j, r.entity, r.component)) &&
            r.attribute in SchemaOf(def.components, r.component)
    ensures r in TypesOf(def) ==> TypesOf(def)[r] == SchemaOf(def.components, r.component)[r.attribute]
  {
    var infos := ListedInfos(Started(def).entities, def.components);
    ListedOnce(Started(def).entities, def.components, r.entity, r.component);
    if k :| Once(infos, k, r.entity, r.component) {
      TypesAt(infos, |infos|, r, k);
      ListedSchema(Started(def).entities, def.components, k);
    } else {
      TypesMissing(infos, |infos|, r);
    }
  }

  // ---------------------------------------------------------------- failing runs

  /** All outputs of the systems, in order. */
  function AllOutputs(systems: seq<SystemDef>): Outputs {
    if systems == [] then [] else systems[0].graph + AllOutputs(systems[1..])
  }

  /** Every system's outputs stand among them, after those of the systems before it. */
  lemma {:induction false} AllOutputsAt(systems: seq<SystemDef>, i: nat)
    requires i < |systems|
    ensures var from := |AllOutputs(systems[..i])|;
      AllOutputs(systems[..i]) <= AllOutputs(systems) && from + |systems[i].graph| <= |AllOutputs(systems)| &&
      AllOutputs(systems)[from..from + |systems[i].graph|] == systems[i].graph &&
      |AllOutputs(systems[..i + 1])| == from + |systems[i].graph|
    decreases systems
  {
    if i == 0 {
      assert systems[..1][1..] == [];
    } else {
      AllOutputsAt(systems[1..], i - 1);
      assert systems[..i][1..] == systems[1..][..i - 1] && systems[..i + 1][1..] == systems[1..][..i];
    }
  }

  lemma {:induction false} RunConcat(types: Types, s: Store, a: Outputs, b: Outputs)
    ensures RunOutputs(types, s, a + b) ==
            var run := RunOutputs(types, s, a); if run.status.Ok? then RunOutputs(types, run.store, b) else run
    decreases |a|
  {
    if a == [] {
      assert a + b == b;
    } else {
      assert (a + b)[0] == a[0] && (a + b)[1..] == a[1..] + b;
      var m := MutateOp(types, s, a[0].ref, a[0].node);
      if m.status.Ok? { RunConcat(types, m.store, a[1..], b); }
    }
  }

  /** Stepping is running all outputs of all systems in order. */
  lemma {:induction false} StepIsOneRun(types: Types, s: Store, systems: seq<SystemDef>)
    ensures RunSystems(types, s, systems) == RunOutputs(types, s, AllOutputs(systems))
    decreases |systems|
  {
    if systems != [] {
      var run := RunOutputs(types, s, systems[0].graph);
      RunConcat(types, s, systems[0].graph, AllOutputs(systems[1..]));
      if run.status.Ok? { StepIsOneRun(types, run.store, systems[1..]); }
    }
  }

  /** A run that fails leaves exactly the effects of the outputs before the one that fails. */
  lemma {:induction false} FailingRun(types: Types, s: Store, outs: Outputs) returns (k: nat)
    ensures k <= |outs| && RunOutputs(types, s, outs[..k]).status.Ok?
    ensures RunOutputs(types, s, outs[..k]).store == RunOutputs(types, s, outs).store
    ensures RunOutputs(types, s, outs).status.Ok? ==> k == |outs|
    ensures !RunOutputs(types, s, outs).status.Ok? ==>
              k < |outs| && MutateOp(types, RunOutputs(types, s, outs[..k]).store, outs[k].ref,
                  outs[k].node) == RunOutputs(types, s, outs)
    decreases |outs|
  {
    if outs == [] {
      k := 0;
    } else {
      var m := MutateOp(types, s, outs[0].ref, outs[0].node);
      if m.status.Ok? {
        k := FailingRun(types, m.store, outs[1..]);
        k := k + 1;
        assert outs[..k][0] == outs[0] && outs[..k][1..] == outs[1..][..k - 1];
      } else {
        k := 0;
        assert outs[..0] == [];
        MutateFails(types, s, outs[0].ref, outs[0].node);
      }
    }
  }

  lemma MutateFails(types: Types, s: Store, r: Ref, n: Node)
    ensures !MutateOp(types, s, r, n).status.Ok? ==> MutateOp(types, s, r, n).store == s
  {
  }

  // ---------------------------------------------------------------- types over whole runs

  /** Schemas without array types. */
  predicate PrimitiveTypes(types: Types) {
    forall r :: r in types ==> !types[r].ArrayOf?
  }

  ghost predicate AllTyped(s: Sims) {
    forall name :: name in s ==> PrimitiveTypes(s[name].types) && TypedStore(s[name].types, s[name].store)
  }

  lemma {:induction false} RunKeepsTyped(types: Types, s: Store, outs: Outputs)
    requires PrimitiveTypes(types) && TypedStore(types, s)
    ensures TypedStore(types, RunOutputs(types, s, outs).store)
    decreases |outs|
  {
    if outs != [] {
      MutateTyped(types, s, outs[0].ref, outs[0].node);
      var m := MutateOp(types, s, outs[0].ref, outs[0].node);
      if m.status.Ok? { RunKeepsTyped(types, m.store, outs[1..]); }
    }
  }

  /** Over any run of calls, succeeding or failing, every value a simulation holds has its attribute's type. */
  lemma {:induction false} TypedForever(s: Sims, calls: seq<Call>)
    requires AllTyped(s)
    requires forall c :: c in calls && c.Apply? ==> PrimitiveTypes(TypesOf(c.def))
    ensures AllTyped(After(s, calls))
    decreases |calls|
  {
    if calls != [] {
      NextTyped(s, calls[0]);
      TypedForever(Next(s, calls[0]).0, calls[1..]);
    }
  }

  lemma NextTyped(s: Sims, c: Call)
    requires AllTyped(s) && (c.Apply? ==> PrimitiveTypes(TypesOf(c.def)))
    ensures AllTyped(Next(s, c).0)
  {
    match c
    case Apply(def) => RunKeepsTyped(TypesOf(def), NothingSet(), def.initGraph);
    case Step(name) =>
      if name in s {
        StepIsOneRun(s[name].types, s[name].store, s[name].def.systems);
        RunKeepsTyped(s[name].types, s[name].store, AllOutputs(s[name].def.systems));
      }
    case SetAttribute(name, ref, v) =>
      if name in s { MutateTyped(s[name].types, s[name].store, ref, Const(v)); }
    case _ =>
  }
}
