/** Type soundness of the graph interpreter. */
module Typing {
  import opened Values
  import opened Graph
  import opened Components
  import opened UserComponents
  import opened RunGraph

  /** The type of a node under C++'s arithmetic conversions, if it has one. */
  function TypeOf(n: Node, types: Types): Option<Primitive> {
    match n
    case Const(v) => if WellTyped(v) then TypeOfCase(v.Stored()) else None
    case Retrieve(r) => if r in types && types[r].Prim? then Some(types[r].p) else None
    case Switch(c, t, f) => if TypeOf(c, types) == Some(BOOL) &&
        TypeOf(t, types) == TypeOf(f, types) then TypeOf(t, types) else None
    case Binary(op, x, y) =>
      var p, q := TypeOf(x, types), TypeOf(y, types);
      if p.Some? && q.Some? then ResultType(op, p.value, q.value) else None
    case Not(x) => if TypeOf(x, types) == Some(BOOL) then Some(BOOL) else None
    case _ => None
  }

  /** Every set attribute holds a value of its type. */
  ghost predicate TypedStore(types: Types, s: Store) {
    forall r :: r in s ==> r in types && types[r].Prim? && HasType(s[r], types[r].p)
  }

  /** A well-typed node whose attributes are set does not throw, and its value has its type. */
  lemma {:induction false} EvalTyped(n: Node, types: Types, s: Store)
    requires TypedStore(types, s) && TypeOf(n, types).Some? && Retrieves(n) <= s.Keys
    ensures !Eval(n, s).Throws?
    ensures Eval(n, s).Ok? ==> HasType(Eval(n, s).value, TypeOf(n, types).value)
  {
    match n
    case Switch(c, t, f) =>
      EvalTyped(c, types, s);
      EvalTyped(t, types, s);
      EvalTyped(f, types, s);
    case Binary(op, x, y) =>
      EvalTyped(x, types, s);
      EvalTyped(y, types, s);
      if Eval(x, s).Ok? && Eval(y, s).Ok? {
        ApplyType(op, Eval(x, s).value, Eval(y, s).value);
      }
    case Not(x) => EvalTyped(x, types, s);
    case _ =>
  }

  /** Every output is well typed for its attribute, and retrieves attributes that are set before the run or by an
      earlier output. */
  ghost predicate TypedGraph(types: Types, known: set<Ref>, outs: Outputs)
    decreases |outs|
  {
    outs == [] ||
    (var e := outs[0];
     TypeOf(e.node, types).Some? && Retrieves(e.node) <= known && e.ref in types && types[e.ref].Prim? &&
     (types[e.ref].p == TypeOf(e.node, types).value ||
         (Numeric(types[e.ref].p) && Numeric(TypeOf(e.node, types).value))) &&
     TypedGraph(types, known + {e.ref}, outs[1..]))
  }

  /** Any output at all keeps the store typed, whether it succeeds or fails. */
  lemma MutateTyped(types: Types, s: Store, r: Ref, n: Node)
    requires TypedStore(types, s) && (r in types ==> !types[r].ArrayOf?)
    ensures TypedStore(types, MutateOp(types, s, r, n).store)
  {
    if Eval(n, s).Ok? && r in types { StoredType(types[r], Eval(n, s).value); }
  }

  /** A well-typed graph runs without throwing; operations that C++ leaves undefined apart, every output is
      written; the store stays typed throughout. */
  lemma {:induction false} RunTyped(types: Types, s: Store, outs: Outputs)
    requires TypedStore(types, s) && TypedGraph(types, s.Keys, outs)
    ensures var run := RunOutputs(types, s, outs);
      !run.status.Throws? && TypedStore(types, run.store) && s.Keys <= run.store.Keys &&
      (run.status.Ok? ==> forall e :: e in outs ==> e.ref in run.store)
    decreases |outs|
  {
    if outs != [] {
      var e := outs[0];
      EvalTyped(e.node, types, s);
      MutateTyped(types, s, e.ref, e.node);
      if Eval(e.node, s).Ok? {
        StoredType(types[e.ref], Eval(e.node, s).value);
        var m := MutateOp(types, s, e.ref, e.node);
        if m.status.Ok? {
          assert m.store.Keys == s.Keys + {e.ref};
          RunTyped(types, m.store, outs[1..]);
        }
      }
    }
  }
}
