/** Running a graph on a flat store: outputs are written one after another. */
module RunGraph {
  import opened Values
  import opened Graph
  import opened Components
  import opened UserComponents
  import opened Tracer
  import opened Views
  import opened TraceMeaning
  import opened Compile

  /** The attributes that exist, with their types. */
  type Types = map<Ref, Type>

  datatype Run = Run(store: Store, status: Result<()>)

  /** mutateOp: evaluates, then assigns. */
  function MutateOp(types: Types, s: Store, r: Ref, n: Node): Run {
    match Eval(n, s)
    case Throws => Run(s, Throws)
    case Undefined => Run(s, Undefined)
    case Ok(v) =>
      if r !in types then Run(s, Throws)
      else
        match StoredAs(types[r], v)
        case Throws => Run(s, Throws)
        case Undefined => Run(s, Undefined)
        case Ok(w) => Run(s[r := w], Ok(()))
  }

  /** runGraph: a failing output ends the run and leaves the effects of those before it. */
  function RunOutputs(types: Types, s: Store, outs: Outputs): Run
    decreases |outs|
  {
    if outs == [] then Run(s, Ok(()))
    else
      var m := MutateOp(types, s, outs[0].ref, outs[0].node);
      if m.status.Ok? then RunOutputs(types, m.store, outs[1..]) else m
  }

  // ---------------------------------------------------------------- one after another, or all at once

  /** What one output would store on the store before the run. */
  function Written(types: Types, s: Store, e: Entry): Result<Value> {
    match Eval(e.node, s)
    case Throws => Throws
    case Undefined => Undefined
    case Ok(v) => if e.ref in types then StoredAs(types[e.ref], v) else Throws
  }

  /** No output retrieves an attribute that an earlier output changes. */
  ghost predicate NoInterference(outs: Outputs) {
    forall i, j :: 0 <= i < j < |outs| ==> outs[i].ref !in Retrieves(outs[j].node)
  }

  /** Evaluating everything first, then writing everything. */
  function AtOnce(types: Types, s: Store, t: Store, outs: Outputs): Store
    requires forall e :: e in outs ==> Written(types, s, e).Ok?
    decreases |outs|
  {
    if outs == [] then t else AtOnce(types, s, t[outs[0].ref := Written(types, s, outs[0]).value], outs[1..])
  }

  /** The first output that cannot be written on the store before the run, if any. */
  function FirstFailure(types: Types, s: Store, outs: Outputs): (k: nat)
    ensures k <= |outs|
    ensures forall i :: 0 <= i < k ==> Written(types, s, outs[i]).Ok?
    ensures k < |outs| ==> !Written(types, s, outs[k]).Ok?
  {
    if outs == [] || !Written(types, s, outs[0]).Ok? then 0 else 1 + FirstFailure(types, s, outs[1..])
  }

  /** Without interference the run in sequence succeeds exactly when every output can be written on the store
      before the run, and then is the same as writing all at once; a failing run writes the outputs before
      the first that fails. */
  lemma {:induction false} SequentialIsAtOnce(types: Types, s: Store, t: Store, outs: Outputs)
    requires NoInterference(outs)
    requires forall e, r :: e in outs && r in Retrieves(e.node) ==> (r in s <==> r in t) && (r in s ==> s[r] == t[r])
    ensures var k := FirstFailure(types, s, outs);
      RunOutputs(types, t, outs).store == AtOnce(types, s, t, outs[..k]) &&
      RunOutputs(types, t, outs).status == if k == |outs| then Ok(()) else Failure(Written(types, s, outs[k]))
    decreases |outs|
  {
    hide Eval, Retrieves, StoredAs;
    if outs != [] {
      var e := outs[0];
      EvalFrame(e.node, s, t);
      if Written(types, s, e).Ok? {
        var u := t[e.ref := Written(types, s, e).value];
        SequentialIsAtOnce(types, s, u, outs[1..]);
        var k := FirstFailure(types, s, outs[1..]);
        assert outs[..k + 1][0] == e && outs[..k + 1][1..] == outs[1..][..k];
      } else {
        assert outs[..0] == [];
      }
    } else {
      assert outs[..0] == [];
    }
  }

  function Failure(r: Result<Value>): Result<()>
    requires !r.Ok?
  {
    if r.Throws? then Throws else Undefined
  }

  /** With distinct targets, writing all at once stores each output's value in its attribute and nothing else. */
  lemma {:induction false} AtOnceValue(types: Types, s: Store, t: Store, outs: Outputs, r: Ref)
    requires Distinct(outs) && forall e :: e in outs ==> Written(types, s, e).Ok?
    ensures var u := AtOnce(types, s, t, outs);
      match Lookup(outs, r)
      case Some(n) => r in u && Written(types, s, Entry(r, n)) == Ok(u[r])
      case None => (r in u <==> r in t) && (r in t ==> u[r] == t[r])
    decreases |outs|
  {
    if outs != [] {
      var e := outs[0];
      AtOnceValue(types, s, t[e.ref := Written(types, s, e).value], outs[1..], r);
      LookupIn(outs[1..], r);
    }
  }

  // ---------------------------------------------------------------- exactly when the two are the same

  /** What an output would write at its turn, after those before it, is what it would write on the store before the run;
      up to the first output that cannot be written. */
  ghost predicate Undisturbed(types: Types, s: Store, outs: Outputs) {
    forall j :: 0 <= j < |outs| && j <= FirstFailure(types, s, outs) ==> UndisturbedAt(types, s, outs, j)
  }

  ghost predicate UndisturbedAt(types: Types, s: Store, outs: Outputs, j: nat)
    requires j < |outs| && j <= FirstFailure(types, s, outs)
  {
    Written(types, AtOnce(types, s, s, outs[..j]), outs[j]) == Written(types, s, outs[j])
  }

  lemma MutateWrites(types: Types, t: Store, e: Entry)
    ensures Written(types, t, e).Ok? ==>
              MutateOp(types, t, e.ref, e.node) == Run(t[e.ref := Written(types, t, e).value], Ok(()))
    ensures !Written(types, t, e).Ok? ==>
              MutateOp(types, t, e.ref, e.node) == Run(t, Failure(Written(types, t, e))) &&
              !MutateOp(types, t, e.ref, e.node).status.Ok?
  {
  }

  lemma {:induction false} AtOnceSnoc(types: Types, s: Store, t: Store, outs: Outputs, e: Entry)
    requires forall x :: x in outs + [e] ==> Written(types, s, x).Ok?
    requires forall x :: x in outs ==> Written(types, s, x).Ok?
    ensures Written(types, s, e).Ok?
    ensures AtOnce(types, s, t, outs + [e]) == AtOnce(types, s, t, outs)[e.ref := Written(types, s, e).value]
    decreases |outs|
  {
    hide Eval, StoredAs;
    assert e in outs + [e];
    if outs == [] {
      assert outs + [e] == [e] && [e][1..] == [];
    } else {
      assert (outs + [e])[1..] == outs[1..] + [e];
      AtOnceSnoc(types, s, t[outs[0].ref := Written(types, s, outs[0]).value], outs[1..], e);
    }
  }

  /** The run has come to output j with what was written at once before it. */
  lemma {:induction false} RunFrom(types: Types, s: Store, outs: Outputs, j: nat)
    requires j <= FirstFailure(types, s, outs) && forall i :: 0 <= i < j ==> UndisturbedAt(types, s, outs, i)
    ensures RunOutputs(types, s, outs) == RunOutputs(types, AtOnce(types, s, s, outs[..j]), outs[j..])
  {
    hide Written, MutateOp;
    if j == 0 {
      assert outs[..0] == [] && outs[0..] == outs;
    } else {
      var e, t := outs[j - 1], AtOnce(types, s, s, outs[..j - 1]);
      RunFrom(types, s, outs, j - 1);
      assert UndisturbedAt(types, s, outs, j - 1);
      MutateWrites(types, t, e);
      assert outs[..j] == outs[..j - 1] + [e];
      AtOnceSnoc(types, s, s, outs[..j - 1], e);
      assert outs[j - 1..][0] == e && outs[j - 1..][1..] == outs[j..];
    }
  }

  /** An undisturbed run writes all at once, up to the first output that fails. */
  lemma UndisturbedRun(types: Types, s: Store, outs: Outputs)
    requires Undisturbed(types, s, outs)
    ensures var k := FirstFailure(types, s, outs);
      RunOutputs(types, s, outs).store == AtOnce(types, s, s, outs[..k]) &&
      RunOutputs(types, s, outs).status == if k == |outs| then Ok(()) else Failure(Written(types, s, outs[k]))
  {
    hide Written, MutateOp;
    var k := FirstFailure(types, s, outs);
    RunFrom(types, s, outs, k);
    if k < |outs| {
      assert UndisturbedAt(types, s, outs, k);
      MutateWrites(types, AtOnce(types, s, s, outs[..k]), outs[k]);
    }
  }

  /** A run leaves attributes that no output targets. */
  lemma {:induction false} RunKeeps(types: Types, t: Store, outs: Outputs, r: Ref)
    requires r !in Keys(outs)
    ensures var u := RunOutputs(types, t, outs).store; (r in u <==> r in t) && (r in t ==> u[r] == t[r])
    decreases |outs|
  {
    hide Eval, StoredAs;
    if outs != [] {
      assert Keys(outs)[0] == outs[0].ref && Keys(outs[1..]) == Keys(outs)[1..];
      var m := MutateOp(types, t, outs[0].ref, outs[0].node);
      RunKeeps(types, m.store, outs[1..], r);
    }
  }

  /** When every output can be written on the store before the run and targets are distinct, the run in sequence is
      writing all at once exactly when it is undisturbed. */
  lemma SequentialExact(types: Types, s: Store, outs: Outputs)
    requires Distinct(outs) && FirstFailure(types, s, outs) == |outs|
    ensures RunOutputs(types, s, outs) == Run(AtOnce(types, s, s, outs[..|outs|]), Ok(())) <==>
              Undisturbed(types, s, outs)
  {
    if Undisturbed(types, s, outs) { UndisturbedRun(types, s, outs); }
    if RunOutputs(types, s, outs) == Run(AtOnce(types, s, s, outs[..|outs|]), Ok(())) {
      AllUndisturbed(types, s, outs, |outs|);
    }
  }

  lemma {:induction false} AllUndisturbed(types: Types, s: Store, outs: Outputs, n: nat)
    requires Distinct(outs) && FirstFailure(types, s, outs) == |outs| && n <= |outs|
    requires RunOutputs(types, s, outs) == Run(AtOnce(types, s, s, outs[..|outs|]), Ok(()))
    ensures forall j :: 0 <= j < n ==> UndisturbedAt(types, s, outs, j)
  {
    hide Written, MutateOp, AtOnce;
    if n > 0 {
      var j := n - 1;
      var e, t := outs[j], AtOnce(types, s, s, outs[..j]);
      AllUndisturbed(types, s, outs, j);
      RunFrom(types, s, outs, j);
      assert outs[j..][0] == e && outs[j..][1..] == outs[j + 1..];
      MutateWrites(types, t, e);
      assert e.ref !in Keys(outs[j + 1..]);
      RunKeeps(types, t[e.ref := Written(types, t, e).value], outs[j + 1..], e.ref);
      assert outs[..|outs|] == outs;
      AtOnceValue(types, s, s, outs, e.ref);
      LookupIn(outs, e.ref);
    }
  }

  lemma {:induction false} AtOnceKeeps(types: Types, s: Store, t: Store, outs: Outputs, r: Ref)
    requires r !in Keys(outs) && forall e :: e in outs ==> Written(types, s, e).Ok?
    ensures var u := AtOnce(types, s, t, outs); (r in u <==> r in t) && (r in t ==> u[r] == t[r])
    decreases |outs|
  {
    if outs != [] {
      assert Keys(outs)[0] == outs[0].ref && Keys(outs[1..]) == Keys(outs)[1..];
      AtOnceKeeps(types, s, t[outs[0].ref := Written(types, s, outs[0]).value], outs[1..], r);
    }
  }

  /** Without interference a run is undisturbed, whatever the store. */
  lemma NoInterferenceUndisturbed(types: Types, s: Store, outs: Outputs)
    requires NoInterference(outs)
    ensures Undisturbed(types, s, outs)
  {
    forall j | 0 <= j < |outs| && j <= FirstFailure(types, s, outs)
      ensures UndisturbedAt(types, s, outs, j)
    {
      var t := AtOnce(types, s, s, outs[..j]);
      forall r | r in Retrieves(outs[j].node)
        ensures (r in s <==> r in t) && (r in s ==> s[r] == t[r])
      {
        assert forall i :: 0 <= i < j ==> outs[..j][i].ref != r;
        AtOnceKeeps(types, s, s, outs[..j], r);
      }
      EvalFrame(outs[j].node, s, t);
    }
  }

  // ---------------------------------------------------------------- compiled code on the engine

  /** The direct run leaves every attribute of the graph set to a value that its type takes. */
  ghost predicate Assignable(types: Types, outs: Outputs, store: Store) {
    forall e :: e in outs ==> AssignableEntry(types, e, store)
  }

  ghost predicate AssignableEntry(types: Types, e: Entry, store: Store) {
    e.ref in store && e.ref in types && StoredAs(types[e.ref], store[e.ref]).Ok?
  }

  /** What the engine would write for an output is the value the original code leaves, cast. */
  lemma CompiledOutput(ss: seq<Stmt>, ents: map<string, Ent>, types: Types, s0: Store, e: Entry)
    requires Compiled(ss, ents, s0) && e in GraphOutputs(TraceBlock(ss, Begin(ents)).value)
    ensures var store := ExecBlock(ss, BeginDirect(ents, s0)).value.store;
      (Written(types, s0, e).Ok? <==> AssignableEntry(types, e, store)) &&
      (AssignableEntry(types, e, store) ==> Written(types, s0, e) == StoredAs(types[e.ref], store[e.ref]))
  {
    var outs := GraphOutputs(TraceBlock(ss, Begin(ents)).value);
    GraphTidy(ss, ents);
    LookupIn(outs, e.ref);
    var i :| 0 <= i < |outs| && outs[i] == e;
    GraphMeaning(ss, ents, s0, e.ref);
  }

  /** The run leaves in the attribute the value the original code leaves, cast to the attribute's type; in an attribute
      the code does not write, what was there. */
  ghost predicate RightAt(types: Types, s0: Store, outs: Outputs, store: Store, run: Store, r: Ref) {
    if Lookup(outs, r).Some? then r in run && r in store && r in types && Ok(run[r]) == StoredAs(types[r], store[r])
    else (r in run <==> r in s0) && (r in store <==> r in s0) && (r in s0 ==> run[r] == s0[r] == store[r])
  }

  /** A compiled function on the engine, when the run is undisturbed: it succeeds exactly when every value can be
      assigned, and then it is right at every attribute. */
  lemma CompiledRun(ss: seq<Stmt>, ents: map<string, Ent>, types: Types, s0: Store, r: Ref)
    requires Compiled(ss, ents, s0) && Undisturbed(types, s0, GraphOutputs(TraceBlock(ss, Begin(ents)).value))
    ensures var outs, store := GraphOutputs(TraceBlock(ss, Begin(ents)).value),
        ExecBlock(ss, BeginDirect(ents, s0)).value.store;
      var run := RunOutputs(types, s0, outs);
      (run.status.Ok? <==> Assignable(types, outs, store)) &&
      (run.status.Ok? ==> RightAt(types, s0, outs, store, run.store, r))
  {
    var outs, store := GraphOutputs(TraceBlock(ss, Begin(ents)).value),
        ExecBlock(ss, BeginDirect(ents, s0)).value.store;
    AssignableWritten(ss, ents, types, s0);
    UndisturbedRun(types, s0, outs);
    if Assignable(types, outs, store) {
      assert outs[..|outs|] == outs;
      AtOnceRight(ss, ents, types, s0, r);
    }
  }

  /** The outputs can be written on the store before the run exactly when the values can be assigned. */
  lemma AssignableWritten(ss: seq<Stmt>, ents: map<string, Ent>, types: Types, s0: Store)
    requires Compiled(ss, ents, s0)
    ensures var outs, store := GraphOutputs(TraceBlock(ss, Begin(ents)).value),
        ExecBlock(ss, BeginDirect(ents, s0)).value.store;
      (Assignable(types, outs, store) <==> FirstFailure(types, s0, outs) == |outs|) &&
      (Assignable(types, outs, store) ==> forall e :: e in outs ==> Written(types, s0, e).Ok?)
  {
    var outs, store := GraphOutputs(TraceBlock(ss, Begin(ents)).value),
        ExecBlock(ss, BeginDirect(ents, s0)).value.store;
    forall e | e in outs
      ensures Written(types, s0, e).Ok? <==> AssignableEntry(types, e, store)
    {
      CompiledOutput(ss, ents, types, s0, e);
    }
    if FirstFailure(types, s0, outs) == |outs| {
      forall e | e in outs
        ensures AssignableEntry(types, e, store)
      {
        var i :| 0 <= i < |outs| && outs[i] == e;
      }
    }
  }

  /** Writing all at once is right at every attribute. */
  lemma AtOnceRight(ss: seq<Stmt>, ents: map<string, Ent>, types: Types, s0: Store, r: Ref)
    requires Compiled(ss, ents, s0)
    requires Assignable(types, GraphOutputs(TraceBlock(ss, Begin(ents)).value),
        ExecBlock(ss, BeginDirect(ents, s0)).value.store)
    requires forall e :: e in GraphOutputs(TraceBlock(ss, Begin(ents)).value) ==> Written(types, s0, e).Ok?
    ensures var outs, store := GraphOutputs(TraceBlock(ss, Begin(ents)).value),
        ExecBlock(ss, BeginDirect(ents, s0)).value.store;
      RightAt(types, s0, outs, store, AtOnce(types, s0, s0, outs), r)
  {
    var outs := GraphOutputs(TraceBlock(ss, Begin(ents)).value);
    GraphTidy(ss, ents);
    AtOnceValue(types, s0, s0, outs, r);
    GraphMeaning(ss, ents, s0, r);
    LookupIn(outs, r);
    if Lookup(outs, r).Some? { CompiledOutput(ss, ents, types, s0, Entry(r, Lookup(outs, r).value)); }
  }

  lemma AssignableRunExact(ss: seq<Stmt>, ents: map<string, Ent>, types: Types, s0: Store)
    requires Compiled(ss, ents, s0)
    requires Assignable(types, GraphOutputs(TraceBlock(ss, Begin(ents)).value),
        ExecBlock(ss, BeginDirect(ents, s0)).value.store)
    ensures var outs, store := GraphOutputs(TraceBlock(ss, Begin(ents)).value),
        ExecBlock(ss, BeginDirect(ents, s0)).value.store;
      var run := RunOutputs(types, s0, outs);
      Undisturbed(types, s0, outs) <==>
      (run.status == Ok(()) && forall r :: RightAt(types, s0, outs, store, run.store, r))
  {
    var outs, store := GraphOutputs(TraceBlock(ss, Begin(ents)).value),
        ExecBlock(ss, BeginDirect(ents, s0)).value.store;
    var run := RunOutputs(types, s0, outs);
    AssignableWritten(ss, ents, types, s0);
    GraphTidy(ss, ents);
    SequentialExact(types, s0, outs);
    assert outs[..|outs|] == outs;
    var whole := AtOnce(types, s0, s0, outs);
    forall r
      ensures RightAt(types, s0, outs, store, whole, r)
    {
      AtOnceRight(ss, ents, types, s0, r);
    }
    if run.status == Ok(()) && forall r :: RightAt(types, s0, outs, store, run.store, r) {
      SameWhenRight(types, s0, outs, store, run.store, whole);
    }
  }

  /** The run succeeds and is right at every attribute exactly when every value can be assigned and the run is
      undisturbed. */
  lemma CompiledRunExact(ss: seq<Stmt>, ents: map<string, Ent>, types: Types, s0: Store)
    requires Compiled(ss, ents, s0)
    ensures var outs, store := GraphOutputs(TraceBlock(ss, Begin(ents)).value),
        ExecBlock(ss, BeginDirect(ents, s0)).value.store;
      var run := RunOutputs(types, s0, outs);
      (run.status == Ok(()) && forall r :: RightAt(types, s0, outs, store, run.store, r)) <==>
      (Assignable(types, outs, store) && Undisturbed(types, s0, outs))
  {
    hide Assignable, RightAt, Undisturbed, RunOutputs, Sound, Listed, TraceBlock, ExecBlock;
    var outs, store := GraphOutputs(TraceBlock(ss, Begin(ents)).value),
        ExecBlock(ss, BeginDirect(ents, s0)).value.store;
    var run := RunOutputs(types, s0, outs);
    if forall r :: RightAt(types, s0, outs, store, run.store, r) { RightAssignable(types, s0, outs, store, run.store); }
    if Assignable(types, outs, store) { AssignableRunExact(ss, ents, types, s0); }
  }

  lemma RightAssignable(types: Types, s0: Store, outs: Outputs, store: Store, run: Store)
    requires forall r :: RightAt(types, s0, outs, store, run, r)
    ensures Assignable(types, outs, store)
  {
    hide StoredAs;
    forall e | e in outs
      ensures AssignableEntry(types, e, store)
    {
      LookupIn(outs, e.ref);
      var i :| 0 <= i < |outs| && outs[i] == e;
      assert Keys(outs)[i] == e.ref;
      assert RightAt(types, s0, outs, store, run, e.ref);
    }
  }

  lemma SameWhenRight(types: Types, s0: Store, outs: Outputs, store: Store, a: Store, b: Store)
    requires forall r :: RightAt(types, s0, outs, store, a, r)
    requires forall r :: RightAt(types, s0, outs, store, b, r)
    ensures a == b
  {
    hide StoredAs;
    forall r
      ensures (r in a <==> r in b) && (r in a ==> a[r] == b[r])
    {
      assert RightAt(types, s0, outs, store, a, r) && RightAt(types, s0, outs, store, b, r);
    }
  }

  /** Swapping two attributes: the second output retrieves what the first has just written, so both end as
      the value of the second. Code that swaps is not run as written. */
  lemma SwapRun(b: string, x: Member, y: Member, tmp: string, ent: Ent, types: Types, s0: Store)
    requires x != y && ent.Has(x) && ent.Has(y)
    requires var q, r := ent.RefTo(x), ent.RefTo(y);
      q in s0 && r in s0 && q in types && r in types &&
      StoredAs(types[q], s0[r]) == Ok(s0[r]) && StoredAs(types[r], s0[q]) == Ok(s0[q]) &&
          StoredAs(types[r], s0[r]) == Ok(s0[r])
    ensures var q, r := ent.RefTo(x), ent.RefTo(y);
      var ss := [Assign(Name(tmp), Attr(b, x)), Assign(Field(b, x), Attr(b, y)), Assign(Field(b, y), Var(tmp))];
      var ents := map[b := ent];
      TraceBlock(ss, Begin(ents)).Some? && ExecBlock(ss, BeginDirect(ents, s0)).Ok? &&
      ExecBlock(ss, BeginDirect(ents, s0)).value.store == s0[q := s0[r]][r := s0[q]] &&
      RunOutputs(types, s0, GraphOutputs(TraceBlock(ss, Begin(ents)).value)) == Run(s0[q := s0[r]][r := s0[r]], Ok(()))
  {
    var q, r := ent.RefTo(x), ent.RefTo(y);
    var ss := [Assign(Name(tmp), Attr(b, x)), Assign(Field(b, x), Attr(b, y)), Assign(Field(b, y), Var(tmp))];
    var ents := map[b := ent];
    SwapTrace(b, x, y, tmp, ent);
    SwapExec(b, x, y, tmp, ent, s0);
    var outs := [Entry(q, Retrieve(r)), Entry(r, Retrieve(q))];
    var s1 := s0[q := s0[r]];
    assert outs[1..] == [Entry(r, Retrieve(q))] && outs[1..][1..] == [];
    assert RunOutputs(types, s1, outs[1..]) == Run(s1[r := s1[q]], Ok(()));
  }

  lemma SwapTrace(b: string, x: Member, y: Member, tmp: string, ent: Ent)
    requires x != y && ent.Has(x) && ent.Has(y)
    ensures var q, r := ent.RefTo(x), ent.RefTo(y);
      var ss := [Assign(Name(tmp), Attr(b, x)), Assign(Field(b, x), Attr(b, y)), Assign(Field(b, y), Var(tmp))];
      var u := TraceBlock(ss, Begin(map[b := ent]));
      u.Some? && GraphOutputs(u.value) == [Entry(q, Retrieve(r)), Entry(r, Retrieve(q))]
  {
    hide Eval, Retrieves, StoredAs, Locals, Stored;
    var q, r := ent.RefTo(x), ent.RefTo(y);
    var ss := [Assign(Name(tmp), Attr(b, x)), Assign(Field(b, x), Attr(b, y)), Assign(Field(b, y), Var(tmp))];
    var t := Begin(map[b := ent]);
    assert t.heap[0] == [] && Lookup([], q).None? && Lookup([], r).None?;
    var t1 := TraceStmt(ss[0], t).value;
    assert t1.heap == t.heap && t1.env.vars[tmp] == Retrieve(q);
    var t2 := TraceStmt(ss[1], t1).value;
    assert Without([], q) == [];
    assert t2.heap[0] == [Entry(q, Retrieve(r))] && t2.env.vars == t1.env.vars;
    var t3 := TraceStmt(ss[2], t2).value;
    assert t2.heap[0][1..] == [];
    assert Without(t2.heap[0], r) == t2.heap[0];
    assert t3.heap[0] == [Entry(q, Retrieve(r)), Entry(r, Retrieve(q))];
    assert ss[1..][0] == ss[1] && ss[1..][1..] == [ss[2]] && [ss[2]][1..] == [];
    assert TraceBlock([ss[2]], t2) == Some(t3);
    assert TraceBlock(ss[1..], t1) == Some(t3);
  }

  lemma SwapExec(b: string, x: Member, y: Member, tmp: string, ent: Ent, s0: Store)
    requires x != y && ent.Has(x) && ent.Has(y) && ent.RefTo(x) in s0 && ent.RefTo(y) in s0
    ensures var q, r := ent.RefTo(x), ent.RefTo(y);
      var ss := [Assign(Name(tmp), Attr(b, x)), Assign(Field(b, x), Attr(b, y)), Assign(Field(b, y), Var(tmp))];
      var e := ExecBlock(ss, BeginDirect(map[b := ent], s0));
      e.Ok? && e.value.store == s0[q := s0[r]][r := s0[q]]
  {
    var ss := [Assign(Name(tmp), Attr(b, x)), Assign(Field(b, x), Attr(b, y)), Assign(Field(b, y), Var(tmp))];
    var d := BeginDirect(map[b := ent], s0);
    var d1 := ExecStmt(ss[0], d).value;
    var d2 := ExecStmt(ss[1], d1).value;
    var d3 := ExecStmt(ss[2], d2).value;
    assert ss[1..][0] == ss[1] && ss[1..][1..] == [ss[2]] && [ss[2]][1..] == [];
    assert ExecBlock([ss[2]], d2) == Ok(d3);
    assert ExecBlock(ss[1..], d1) == Ok(d3);
  }
}
