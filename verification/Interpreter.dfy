/** The graph interpreter on the engine's store. */
module Interpreter {
  import opened Values
  import opened Graph
  import opened Components
  import opened UserComponents
  import opened Indexes
  import opened FlatStore
  import opened EngineStores
  import R = RunGraph

  /** The component of a reference, with what the flat map says of it; an error when the map lacks it. */
  method Component(store: EngineStore, ref: Ref) returns (r: Result<UserComponent>, ghost k: int)
    requires store.Valid() && store.Linked()
    ensures r.Ok? ==>
        0 <= k < |store.comps| && store.comps[k] == r.value && Once(store.infos, k, ref.entity, ref.component)
    ensures r.Ok? ==> k < |store.infos| && store.infos[k].schema == r.value.schema
    ensures r.Ok? ==> (ref in store.flat <==> ref.attribute in View(store.vals[k]))
    ensures r.Ok? ==> (ref in store.flat ==> store.flat[ref] == View(store.vals[k])[ref.attribute])
    ensures !r.Ok? ==> r == Throws && ref !in store.flat && ref !in store.types
  {
    r := store.GetComponent(ref.component, ref.entity);
    k := 0;
    if j :| Once(store.infos, j, ref.entity, ref.component) {
      k := j;
      FlatDenotes(store.infos, store.vals, ref, k);
    } else {
      FlatMissing(store.infos, store.vals, |store.infos|, ref);
    }
  }

  /** A lookup, which inserts an empty entry at most. */
  method ReadAttribute(store: EngineStore, ghost k: int, c: UserComponent, attr: string) returns (r: Result<Value>)
    requires store.Linked() && 0 <= k < |store.comps| && store.comps[k] == c
    modifies store`vals, store.comps
    ensures store.Linked()
    ensures r == old(if attr in View(store.vals[k]) then Ok(View(store.vals[k])[attr]) else Throws)
  {
    hide Flat, AllTypes;
    ghost var before := store.vals;
    r := c.GetMutableValue(attr);
    store.vals := before[k := c.values];
    FlatUnseen(store.infos, before, k, c.values);
  }

  /** retrieveOp: reads what the flat map holds, through both indexes. */
  method RetrieveOp(store: EngineStore, ref: Ref) returns (r: Result<Value>)
    requires store.Valid() && store.Linked()
    modifies store`vals, store.comps
    ensures store.Valid() && store.Linked() && r == Eval(Retrieve(ref), store.flat)
  {
    hide EngineStore.Valid;
    var c, k := Component(store, ref);
    if !c.Ok? {
      return Throws;
    }
    r := ReadAttribute(store, k, c.value, ref.attribute);
  }

  /** evaluateNode: the value of the node on the flat map, which stays as it is. */
  method EvaluateNode(store: EngineStore, n: Node) returns (r: Result<Value>)
    requires store.Valid() && store.Linked()
    modifies store`vals, store.comps
    ensures store.Valid() && store.Linked() && r == Eval(n, store.flat)
    decreases n
  {
    hide EngineStore.Valid, EngineStore.Linked;
    match n
    case Unset => r := Throws;
    case Const(v) => r := Ok(v);
    case Retrieve(ref) => r := RetrieveOp(store, ref);
    case Mutate(_, _) => r := Throws;
    case Switch(c, t, f) =>
      r := EvaluateNode(store, c);
      if r.Ok? {
        if !r.value.Stored().Boolean? {
          r := Throws;
        } else if r.value.Stored().t {
          r := EvaluateNode(store, t);
        } else {
          r := EvaluateNode(store, f);
        }
      }
    case Binary(op, x, y) =>
      r := EvaluateNode(store, x);
      if r.Ok? {
        var s := EvaluateNode(store, y);
        r := if s.Ok? then Apply(op, r.value, s.value) else s;
      }
    case Not(x) =>
      r := EvaluateNode(store, x);
      if r.Ok? {
        r := ApplyNot(r.value);
      }
  }

  /** An assignment on the flat map. */
  ghost function Assign(types: R.Types, s: Store, ref: Ref, v: Value): R.Run {
    if ref !in types then R.Run(s, Throws)
    else
      match StoredAs(types[ref], v)
      case Throws => R.Run(s, Throws)
      case Undefined => R.Run(s, Undefined)
      case Ok(w) => R.Run(s[ref := w], Ok(()))
  }

  /** Assigning to an attribute of a component listed once is an update of the flat map. */
  method WriteAttribute(store: EngineStore, ghost k: int, c: UserComponent, ref: Ref, v: Value) returns (r: Result<()>)
    requires store.Linked() && 0 <= k < |store.comps| && store.comps[k] == c && store.infos[k].schema == c.schema
    requires Once(store.infos, k, ref.entity, ref.component)
    modifies store`vals, store`flat, store.comps
    ensures store.Linked() && R.Run(store.flat, r) == Assign(store.types, old(store.flat), ref, v)
  {
    hide Flat, AllTypes, StoredAs;
    ghost var infos, before := store.infos, store.vals;
    FlatDenotes(infos, before, ref, k);
    r := c.SetValue(ref.attribute, v);
    store.vals := before[k := c.values];
    if r.Ok? {
      assert ref.attribute in View(c.values);
      FlatUpdate(infos, before, k, c.values, ref.attribute);
      store.flat := store.flat[ref := c.values[ref.attribute]];
    } else {
      FlatUnseen(infos, before, k, c.values);
    }
  }

  /** mutateOp does on the engine's store what one output does on the flat map. */
  method MutateOp(store: EngineStore, ref: Ref, n: Node) returns (r: Result<()>)
    requires store.Valid() && store.Linked()
    modifies store`vals, store`flat, store.comps
    ensures store.Valid() && store.Linked()
    ensures R.Run(store.flat, r) == R.MutateOp(store.types, old(store.flat), ref, n)
  {
    hide EngineStore.Valid, EngineStore.Linked;
    var val := EvaluateNode(store, n);
    if !val.Ok? {
      return if val.Throws? then Throws else Undefined;
    }
    r := SetAttribute(store, ref, val.value);
  }

  method SetAttribute(store: EngineStore, ref: Ref, v: Value) returns (r: Result<()>)
    requires store.Valid() && store.Linked()
    modifies store`vals, store`flat, store.comps
    ensures store.Valid() && store.Linked() && R.Run(store.flat, r) == Assign(store.types, old(store.flat), ref, v)
  {
    hide EngineStore.Valid, EngineStore.Linked, StoredAs;
    var c, k := Component(store, ref);
    if !c.Ok? {
      return Throws;
    }
    r := WriteAttribute(store, k, c.value, ref, v);
  }

  /** runGraph does on the engine's store what running the outputs does on the flat map, failures included. */
  method RunGraph(store: EngineStore, outs: Outputs) returns (r: Result<()>)
    requires store.Valid() && store.Linked()
    modifies store`vals, store`flat, store.comps
    ensures store.Valid() && store.Linked()
    ensures R.Run(store.flat, r) == R.RunOutputs(store.types, old(store.flat), outs) && (r.Ok? ==> r == Ok(()))
  {
    hide EngineStore.Valid, EngineStore.Linked;
    r := Ok(());
    assert outs[0..] == outs;
    var i := 0;
    while i < |outs|
      invariant 0 <= i <= |outs| && r == Ok(()) && store.Valid() && store.Linked()
      invariant R.RunOutputs(store.types, store.flat, outs[i..]) == R.RunOutputs(store.types, old(store.flat), outs)
    {
      assert outs[i..][0] == outs[i] && outs[i..][1..] == outs[i + 1..];
      r := MutateOp(store, outs[i].ref, outs[i].node);
      if !r.Ok? {
        return;
      }
      i := i + 1;
    }
    assert outs[i..] == [];
  }
}
