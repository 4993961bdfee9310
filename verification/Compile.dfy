/** Whole convert functions: from the plotter's start to the graph, and where tracing goes wrong. */
module Compile {
  import opened Values
  import opened Graph
  import opened Components
  import opened Tracer
  import opened Views
  import opened TraceMeaning

  // ---------------------------------------------------------------- whole programs

  /** The plotter starts with one empty outputs dictionary that all entities share. */
  function Begin(ents: map<string, Ent>): (t: Tracing)
    ensures Ready(t)
  {
    Tracing(Env(map[], map b | b in ents :: Handle(ents[b], 0)), [[]], {}, false)
  }

  /** Nothing is bound, recorded, read or marked at the start. */
  lemma BeginsEmpty(ents: map<string, Ent>)
    ensures var t := Begin(ents); t.env.vars == map[] && t.heap == [[]] && t.inputs == {} && !t.stale
    ensures var t := Begin(ents); t.env.ents.Keys == ents.Keys && forall b :: b in ents ==>
        t.env.ents[b] == Handle(ents[b], 0)
  {
  }

  function BeginDirect(ents: map<string, Ent>, s0: Store): Direct {
    Direct(map[], ents, s0)
  }

  /** The graph's outputs. */
  function GraphOutputs(t: Tracing): Outputs
    requires |t.heap| > 0
  {
    t.heap[0]
  }

  /** Some entity variable has the attribute. */
  ghost predicate Owned(ents: map<string, Ent>, r: Ref) {
    exists b :: b in ents && ents[b].entity == r.entity && r.component in ents[b].components
  }

  /** Running code changes only attributes of its entities. */
  lemma {:induction false} ExecOutside(ss: seq<Stmt>, d: Direct, r: Ref)
    requires ExecBlock(ss, d).Ok? && !Owned(d.ents, r)
    ensures var e := ExecBlock(ss, d).value;
      e.ents == d.ents && (r in e.store <==> r in d.store) && (r in d.store ==> e.store[r] == d.store[r])
    decreases ss, 0
  {
    if ss != [] {
      ExecStmtOutside(ss[0], d, r);
      ExecOutside(ss[1..], ExecStmt(ss[0], d).value, r);
    }
  }

  lemma {:induction false} ExecStmtOutside(s: Stmt, d: Direct, r: Ref)
    requires ExecStmt(s, d).Ok? && !Owned(d.ents, r)
    ensures var e := ExecStmt(s, d).value;
      e.ents == d.ents && (r in e.store <==> r in d.store) && (r in d.store ==> e.store[r] == d.store[r])
    decreases s, 1
  {
    match s
    case Assign(target, _) =>
    case If(test, body, orelse, _, _) =>
      if ExecExpr(test, d).value.Stored().t { ExecOutside(body, d, r); } else { ExecOutside(orelse, d, r); }
  }

  /** Distinct variables are distinct entities, the output symbols of if statements are listed, the trace and the direct
      run finish, and the code is traced right. */
  ghost predicate Compiled(ss: seq<Stmt>, ents: map<string, Ent>, s0: Store) {
    Apart(ents) && Listed(ss) && ExecBlock(ss, BeginDirect(ents, s0)).Ok? && TraceBlock(ss, Begin(ents)).Some? &&
    Sound(ss, Begin(ents), ViewOf(BeginDirect(ents, s0)))
  }

  /** Isolated code whose trace drops no write over an earlier one meets the condition on every store it runs on. */
  lemma IsolatedCompiled(ss: seq<Stmt>, ents: map<string, Ent>, s0: Store)
    requires Apart(ents) && ExecBlock(ss, BeginDirect(ents, s0)).Ok?
    requires Listed(ss) && Isolated(ss) && TraceBlock(ss, Begin(ents)).Some? && !TraceBlock(ss, Begin(ents)).value.stale
    ensures Compiled(ss, ents, s0)
  {
    IsolatedSound(ss, Begin(ents), ViewOf(BeginDirect(ents, s0)));
  }

  lemma BeginRelated(ents: map<string, Ent>, s0: Store)
    ensures var t := Begin(ents); Related(t.env, t.heap, ViewOf(BeginDirect(ents, s0)), s0)
  {
    var t, d := Begin(ents), ViewOf(BeginDirect(ents, s0));
    forall s
      ensures Shows(t.env, t.heap, d, s0, s)
    {
    }
  }

  /** What an attribute's node in the graph evaluates to on the store before the run is what the original code
      leaves in the attribute; it throws when the code leaves the attribute unset. */
  lemma GraphMeaning(ss: seq<Stmt>, ents: map<string, Ent>, s0: Store, r: Ref)
    requires Compiled(ss, ents, s0)
    ensures var outs, store := GraphOutputs(TraceBlock(ss, Begin(ents)).value),
        ExecBlock(ss, BeginDirect(ents, s0)).value.store;
      Eval(Current(outs, r), s0) == if r in store then Ok(store[r]) else Throws
  {
    var t, d := Begin(ents), BeginDirect(ents, s0);
    var u, e := TraceBlock(ss, t).value, ExecBlock(ss, d).value;
    if Owned(ents, r) {
      var b :| b in ents && ents[b].entity == r.entity && r.component in ents[b].components;
      var q := Field(b, Member(r.component, r.attribute));
      BeginRelated(ents, s0);
      BlockMeaning(ss, t, ViewOf(d), s0);
      RunIsExec(ss, d, ViewOf(d));
      assert Shows(u.env, u.heap, RunBlock(ss, ViewOf(d)), s0, q);
      assert Reads(q, RunBlock(ss, ViewOf(d))) == Reads(q, ViewOf(e));
    } else {
      ExecOutside(ss, d, r);
      BlockFrame(ss, t);
      HitsOwned(Stored(ss), ents, r);
    }
  }

  lemma HitsOwned(ss: set<Symbol>, ents: map<string, Ent>, r: Ref)
    ensures Hits(ss, Begin(ents).env.ents, 0, r) ==> Owned(ents, r)
  {
    var handles := Begin(ents).env.ents;
    if Hits(ss, handles, 0, r) {
      var s :| s in ss && s.Field? && s.base in handles && handles[s.base].ent.Has(s.member) &&
               handles[s.base].RefTo(s.member) == r;
      assert ents[s.base].entity == r.entity;
    }
  }

  // ---------------------------------------------------------------- inputs

  /** Dictionaries have distinct keys, and the inputs include every attribute a recorded node retrieves. */
  ghost predicate Tidy(t: Tracing) {
    (forall k :: 0 <= k < |t.heap| ==> TidyDict(t.heap[k], t.inputs)) &&
    forall x :: x in t.env.vars ==> Retrieves(t.env.vars[x]) <= t.inputs
  }

  ghost predicate TidyDict(outs: Outputs, inputs: set<Ref>) {
    Distinct(outs) && forall e :: e in outs ==> Retrieves(e.node) <= inputs
  }

  lemma ReadInputs(s: Symbol, env: Env, heap: seq<Outputs>, inputs: set<Ref>)
    requires Handles(env, heap) && Read(s, env, heap).Built?
    requires forall k :: 0 <= k < |heap| ==> TidyDict(heap[k], inputs)
    requires forall x :: x in env.vars ==> Retrieves(env.vars[x]) <= inputs
    ensures Retrieves(Read(s, env, heap).n) <= inputs + Read(s, env, heap).inputs
  {
    if s.Field? {
      var h := env.ents[s.base];
      LookupIn(heap[h.dict], h.RefTo(s.member));
    }
  }

  lemma {:induction false} ExprInputs(e: Expr, t: Tracing)
    requires Ready(t) && Tidy(t) && TraceExpr(e, t.env, t.heap).Built?
    ensures Retrieves(TraceExpr(e, t.env, t.heap).n) <= t.inputs + TraceExpr(e, t.env, t.heap).inputs
    decreases e
  {
    match e
    case Lit(v) =>
    case Var(x) => ReadInputs(Name(x), t.env, t.heap, t.inputs);
    case Attr(b, a) => ReadInputs(Field(b, a), t.env, t.heap, t.inputs);
    case Oper(o, a, b) =>
      ExprInputs(a, t);
      ExprInputs(b, t);
    case IfExp(c, x, y) =>
      ExprInputs(c, t);
      ExprInputs(x, t);
      ExprInputs(y, t);
  }

  /** What building an expression reads as inputs are attributes that were not set. */
  lemma {:induction false} ExprReads(e: Expr, env: Env, heap: seq<Outputs>, r: Ref)
    requires Handles(env, heap) && TraceExpr(e, env, heap).Built? && r in TraceExpr(e, env, heap).inputs
    ensures exists b :: b in env.ents && Lookup(heap[env.ents[b].dict], r).None?
    decreases e
  {
    match e
    case Oper(_, x, y) =>
      if r in TraceExpr(x, env, heap).inputs { ExprReads(x, env, heap, r); } else { ExprReads(y, env, heap, r); }
    case IfExp(k, x, y) =>
      if r in TraceExpr(k, env, heap).inputs {
        ExprReads(k, env, heap, r);
      } else if r in TraceExpr(x, env, heap).inputs {
        ExprReads(x, env, heap, r);
      } else {
        ExprReads(y, env, heap, r);
      }
    case _ =>
  }

  lemma TidyMore(t: Tracing, inputs: set<Ref>)
    requires Tidy(t) && t.inputs <= inputs
    ensures Tidy(t.(inputs := inputs))
  {
    forall k | 0 <= k < |t.heap| ensures TidyDict(t.heap[k], inputs) {
      assert TidyDict(t.heap[k], t.inputs);
    }
  }

  lemma WriteTidy(s: Symbol, n: Node, t: Tracing)
    requires Ready(t) && Tidy(t) && Retrieves(n) <= t.inputs && Write(s, n, t).Some?
    ensures Tidy(Write(s, n, t).value) && Write(s, n, t).value.inputs == t.inputs
  {
    if s.Field? {
      var h := t.env.ents[s.base];
      var outs := t.heap[h.dict];
      SetDistinct(outs, h.RefTo(s.member), n);
      WithoutKeys(outs, h.RefTo(s.member));
      assert TidyDict(outs, t.inputs);
      assert TidyDict(Set(outs, h.RefTo(s.member), n), t.inputs);
    }
  }

  lemma {:induction false} JoinTidy(ss: seq<Symbol>, c: Node, m: seq<Node>, n: seq<Node>, t: Tracing)
    requires Ready(t) && Tidy(t) && |m| == |n| == |ss| && Join(ss, c, m, n, t).Some?
    requires Retrieves(c) <= t.inputs && forall i :: 0 <= i < |m| ==>
        Retrieves(m[i]) <= t.inputs && Retrieves(n[i]) <= t.inputs
    ensures Tidy(Join(ss, c, m, n, t).value) && Join(ss, c, m, n, t).value.inputs == t.inputs
    decreases |ss|
  {
    if ss != [] {
      WriteTidy(ss[0], Switch(c, m[0], n[0]), t);
      JoinTidy(ss[1..], c, m[1..], n[1..], Write(ss[0], Switch(c, m[0], n[0]), t).value);
    }
  }

  lemma {:induction false} BindTidy(args: seq<string>, outer: Env, inner: Env, heap: seq<Outputs>, t: Tracing)
    requires Handles(outer, heap) && Handles(inner, heap) && Bind(args, outer, inner, heap).Some?
    requires Tidy(t.(env := outer, heap := heap)) && Tidy(t.(env := inner, heap := heap))
    ensures var (env, h) := Bind(args, outer, inner, heap).value; Tidy(t.(env := env, heap := h))
    decreases |args|
  {
    if args != [] {
      var a := args[0];
      if a in outer.ents {
        BindTidy(args[1..], outer, inner.(ents := inner.ents[a := outer.ents[a].(dict := |heap|)]),
            heap + [heap[outer.ents[a].dict]], t);
      } else {
        BindTidy(args[1..], outer, inner.(vars := inner.vars[a := outer.vars[a]]), heap, t);
      }
    }
  }

  lemma {:induction false} ReadAllInputs(ss: seq<Symbol>, env: Env, heap: seq<Outputs>, inputs: set<Ref>, i: nat)
    requires Handles(env, heap) && ReadAll(ss, env, heap).Some? && i < |ss|
    requires forall k :: 0 <= k < |heap| ==> TidyDict(heap[k], inputs)
    requires forall x :: x in env.vars ==> Retrieves(env.vars[x]) <= inputs
    ensures Retrieves(ReadAll(ss, env, heap).value.0[i]) <= inputs + ReadAll(ss, env, heap).value.1
    decreases |ss|
  {
    ReadInputs(ss[0], env, heap, inputs);
    if i > 0 { ReadAllInputs(ss[1..], env, heap, inputs, i - 1); }
  }

  lemma {:induction false} BranchTidy(ss: seq<Stmt>, args: seq<string>, outs: seq<Symbol>, t: Tracing)
    requires Ready(t) && Tidy(t) && TraceBranch(ss, args, outs, t.env, t).Some?
    ensures var (nodes, u) := TraceBranch(ss, args, outs, t.env, t).value;
      Tidy(u) && t.inputs <= u.inputs && forall i :: 0 <= i < |nodes| ==> Retrieves(nodes[i]) <= u.inputs
    decreases ss, 2
  {
    var (inner, heap) := Bind(args, t.env, Closure(t.env, ss), t.heap).value;
    assert Tidy(t.(env := Closure(t.env, ss)));
    BindTidy(args, t.env, Closure(t.env, ss), t.heap, t);
    var v := t.(env := inner, heap := heap);
    BlockTidy(ss, v);
    var w := TraceBlock(ss, v).value;
    var (nodes, u) := TraceBranch(ss, args, outs, t.env, t).value;
    TidyMore(w, u.inputs);
    forall i | 0 <= i < |nodes| ensures Retrieves(nodes[i]) <= u.inputs {
      ReadAllInputs(outs, w.env, w.heap, w.inputs, i);
    }
  }

  lemma {:induction false} StmtTidy(s: Stmt, t: Tracing)
    requires Ready(t) && Tidy(t) && TraceStmt(s, t).Some?
    ensures Tidy(TraceStmt(s, t).value) && t.inputs <= TraceStmt(s, t).value.inputs
    decreases s, 1
  {
    match s
    case Assign(target, e) =>
      var k := TraceExpr(e, t.env, t.heap);
      ExprInputs(e, t);
      TidyMore(t, t.inputs + k.inputs);
      WriteTidy(target, k.n, t.(inputs := t.inputs + k.inputs));
    case If(test, body, orelse, args, outs) =>
      var c, t0, m, t1, n, t2 := IfParts(s, t);
      ExprInputs(test, t);
      TidyMore(t, t0.inputs);
      BranchTidy(body, args, outs, t0);
      BranchTidy(orelse, args, outs, t1);
      assert t0.inputs <= t1.inputs <= t2.inputs;
      JoinTidy(outs, c, m, n, t2);
  }

  lemma {:induction false} BlockTidy(ss: seq<Stmt>, t: Tracing)
    requires Ready(t) && Tidy(t) && TraceBlock(ss, t).Some?
    ensures Tidy(TraceBlock(ss, t).value) && t.inputs <= TraceBlock(ss, t).value.inputs
    decreases ss, 0
  {
    if ss != [] {
      StmtTidy(ss[0], t);
      BlockTidy(ss[1..], TraceStmt(ss[0], t).value);
    }
  }

  /** The graph has one output an attribute, and its inputs include every attribute an output retrieves. */
  lemma GraphTidy(ss: seq<Stmt>, ents: map<string, Ent>)
    requires TraceBlock(ss, Begin(ents)).Some?
    ensures var t := TraceBlock(ss, Begin(ents)).value;
      Distinct(GraphOutputs(t)) && forall e :: e in GraphOutputs(t) ==> Retrieves(e.node) <= t.inputs
  {
    BlockTidy(ss, Begin(ents));
    assert TidyDict(TraceBlock(ss, Begin(ents)).value.heap[0], TraceBlock(ss, Begin(ents)).value.inputs);
  }

  // ---------------------------------------------------------------- order

  /** The nodes that assignments write to attributes, in order. */
  function Writes(ss: seq<Stmt>, t: Tracing): seq<Entry>
    requires Ready(t)
  {
    if ss == [] || TraceStmt(ss[0], t).None? then []
    else
      var rest := Writes(ss[1..], TraceStmt(ss[0], t).value);
      match ss[0]
      case Assign(Field(b, a), e) => [Entry(t.env.ents[b].RefTo(a), TraceExpr(e, t.env, t.heap).n)] + rest
      case _ => rest
  }

  lemma {:induction false} StraightLineAfter(ss: seq<Stmt>, t: Tracing)
    requires Ready(t) && TraceBlock(ss, t).Some? && |t.heap| > 0
    requires forall s :: s in ss ==> s.Assign?
    requires forall b :: b in t.env.ents ==> t.env.ents[b].dict == 0
    ensures TraceBlock(ss, t).value.heap[0] == After(t.heap[0], Writes(ss, t))
    decreases |ss|
  {
    if ss != [] {
      StraightLineAfter(ss[1..], TraceStmt(ss[0], t).value);
    }
  }

  /** Code without branches leaves as outputs the last write of each attribute that is not dropped, in the order of
      those writes. */
  lemma StraightLineOrder(ss: seq<Stmt>, ents: map<string, Ent>)
    requires TraceBlock(ss, Begin(ents)).Some? && forall s :: s in ss ==> s.Assign?
    ensures GraphOutputs(TraceBlock(ss, Begin(ents)).value) == LastWrites(Writes(ss, Begin(ents)))
  {
    StraightLineAfter(ss, Begin(ents));
    OutputsInWriteOrder(Writes(ss, Begin(ents)));
  }

  // ---------------------------------------------------------------- where tracing goes wrong

  /** "if test: b.a = e" with an entity that is not an argument: the write reaches the caller's dictionary
      before the other branch is traced, so both sides of the switch are the written value. */
  lemma SharedBranch(test: Expr, b: string, a: Member, e: Expr, t: Tracing)
    requires Ready(t)
    requires b in t.env.ents && t.env.ents[b].ent.Has(a) && TraceExpr(test, t.env, t.heap).Built? &&
        TraceExpr(e, t.env, t.heap).Built?
    requires var h := t.env.ents[b]; !Skipped(h.RefTo(a), TraceExpr(e, t.env, t.heap).n)
    ensures var s := If(test, [Assign(Field(b, a), e)], [], [], [Field(b, a)]);
      var n := TraceExpr(e, t.env, t.heap).n;
      TraceStmt(s, t).Some? && !IsolatedStmt(s) &&
      NodeOf(Field(b, a), TraceStmt(s, t).value.env, TraceStmt(s, t).value.heap) ==
      Some(Switch(TraceExpr(test, t.env, t.heap).n, n, n))
  {
    hide IsolatedStmt, Through, Stored, Locals, Bind, ReadAll, TraceBranch;
    var body, outs := [Assign(Field(b, a), e)], [Field(b, a)];
    var s := If(test, body, [], [], outs);
    var h, r, n := t.env.ents[b], t.env.ents[b].RefTo(a), TraceExpr(e, t.env, t.heap).n;
    var c := TraceExpr(test, t.env, t.heap);
    var t0 := t.(inputs := t.inputs + c.inputs);
    var t1 := WritingBranch(b, a, e, t0);
    var t2 := EmptyBranch(b, a, t1);
    SetLookup(t.heap[h.dict], r, n, r);
    SetLookup(t1.heap[h.dict], r, Switch(c.n, n, n), r);
    JoinOne(Field(b, a), c.n, n, n, t2);
    NotIsolated(test, b, a, e);
  }

  lemma NotIsolated(test: Expr, b: string, a: Member, e: Expr)
    ensures !IsolatedStmt(If(test, [Assign(Field(b, a), e)], [], [], [Field(b, a)]))
  {
    var body := [Assign(Field(b, a), e)];
    assert Field(b, a) in StoredBy(body[0]) && Stored(body) == StoredBy(body[0]) + Stored(body[1..]);
    assert Field(b, a) in Through(body, []);
  }

  lemma ReadOne(s: Symbol, env: Env, heap: seq<Outputs>)
    requires Handles(env, heap) && Read(s, env, heap).Built?
    ensures ReadAll([s], env, heap).Some? && ReadAll([s], env, heap).value.0 == [Read(s, env, heap).n]
  {
    assert [s][1..] == [];
    assert ReadAll([], env, heap) == Some(([], {}));
  }

  lemma JoinOne(s: Symbol, c: Node, m: Node, n: Node, t: Tracing)
    requires Ready(t)
    ensures Join([s], c, [m], [n], t) == Write(s, Switch(c, m, n), t)
  {
    assert [s][1..] == [];
    if Write(s, Switch(c, m, n), t).Some? {
      assert Join([], c, [m][1..], [n][1..], Write(s, Switch(c, m, n), t).value) == Write(s, Switch(c, m, n), t);
    }
  }

  /** A branch without arguments that writes one attribute. */
  lemma WritingBranch(b: string, a: Member, e: Expr, t: Tracing) returns (u: Tracing)
    requires Ready(t) && b in t.env.ents && t.env.ents[b].ent.Has(a) && TraceExpr(e, t.env, t.heap).Built?
    requires !Skipped(t.env.ents[b].RefTo(a), TraceExpr(e, t.env, t.heap).n)
    ensures TraceBranch([Assign(Field(b, a), e)], [], [Field(b, a)], t.env, t) ==
            Some(([TraceExpr(e, t.env, t.heap).n], u))
    ensures u.env == t.env
    ensures var h := t.env.ents[b];
      u.heap ==
      t.heap[h.dict := Set(t.heap[h.dict], h.RefTo(a), TraceExpr(e, t.env, t.heap).n)]
  {
    var body, outs := [Assign(Field(b, a), e)], [Field(b, a)];
    var h, r, n := t.env.ents[b], t.env.ents[b].RefTo(a), TraceExpr(e, t.env, t.heap).n;
    NoLocals(body, t.env);
    SetLookup(t.heap[h.dict], r, n, r);
    assert body[1..] == [] && outs[1..] == [];
    var v := TraceStmt(body[0], t).value;
    assert TraceBlock(body, t) == Some(v);
    ReadOne(Field(b, a), v.env, v.heap);
    u := TraceBranch(body, [], outs, t.env, t).value.1;
  }

  /** A branch that does nothing returns what is recorded. */
  lemma EmptyBranch(b: string, a: Member, t: Tracing) returns (u: Tracing)
    requires Ready(t) && b in t.env.ents && t.env.ents[b].ent.Has(a)
    ensures TraceBranch([], [], [Field(b, a)], t.env, t) ==
            Some(([Current(t.heap[t.env.ents[b].dict], t.env.ents[b].RefTo(a))], u))
    ensures u.env == t.env && u.heap == t.heap
  {
    var outs := [Field(b, a)];
    NoLocals([], t.env);
    ReadOne(Field(b, a), t.env, t.heap);
    u := TraceBranch([], [], outs, t.env, t).value.1;
  }

  lemma NoLocals(ss: seq<Stmt>, env: Env)
    requires Locals(ss) == {}
    ensures Closure(env, ss) == env
  {
    assert env.vars - {} == env.vars;
  }

  /** So without the argument such a statement is right exactly when the second branch is not taken or the value written
      is the value already there. */
  lemma OneSidedMeaning(test: Expr, b: string, a: Member, e: Expr, t: Tracing, d: View, s0: Store)
    requires Related(t.env, t.heap, d, s0) && Apart(d.ents) && b in d.ents && d.ents[b].Has(a)
    requires TraceExpr(test, t.env, t.heap).Built? && TraceExpr(e, t.env, t.heap).Built?
    requires !Skipped(d.ents[b].RefTo(a), TraceExpr(e, t.env, t.heap).n)
    ensures var s := If(test, [Assign(Field(b, a), e)], [], [], [Field(b, a)]);
      TraceStmt(s, t).Some? &&
      (Shows(TraceStmt(s, t).value.env, TraceStmt(s, t).value.heap, RunStmt(s, d), s0, Field(b, a)) <==>
       (!TakesSecond(ViewExpr(test, d)) || ViewExpr(e, d) == Reads(Field(b, a), d)))
  {
    var body, outs := [Assign(Field(b, a), e)], [Field(b, a)];
    SharedBranch(test, b, a, e, t);
    ExprMeaning(test, t.env, t.heap, d, s0);
    ExprMeaning(e, t.env, t.heap, d, s0);
    assert body[1..] == [];
    assert RunBlock(body, d) == Put(Field(b, a), ViewExpr(e, d), d);
    PutReads(Field(b, a), ViewExpr(e, d), d, Field(b, a));
    PutAllReads(outs, ViewExpr(test, d), RunBlock(body, d), d, d, Field(b, a));
  }

  /** "x = b.a; b.a = e; b.a = x": the last write is dropped as a write of the attribute to itself. */
  lemma StaleRestore(x: string, b: string, a: Member, e: Expr, t: Tracing)
    requires Ready(t) && b in t.env.ents && t.env.ents[b].ent.Has(a) &&
        Lookup(t.heap[t.env.ents[b].dict], t.env.ents[b].RefTo(a)).None?
    requires var env := t.env.(vars := t.env.vars[x := Retrieve(t.env.ents[b].RefTo(a))]);
      TraceExpr(e, env, t.heap).Built? && !Skipped(t.env.ents[b].RefTo(a), TraceExpr(e, env, t.heap).n)
    ensures var ss := [Assign(Name(x), Attr(b, a)), Assign(Field(b, a), e), Assign(Field(b, a), Var(x))];
      var env := t.env.(vars := t.env.vars[x := Retrieve(t.env.ents[b].RefTo(a))]);
      TraceBlock(ss, t).Some? && TraceBlock(ss, t).value.stale &&
      NodeOf(Field(b, a), TraceBlock(ss, t).value.env,
          TraceBlock(ss, t).value.heap) == Some(TraceExpr(e, env, t.heap).n)
  {
    var ss := [Assign(Name(x), Attr(b, a)), Assign(Field(b, a), e), Assign(Field(b, a), Var(x))];
    var h, r := t.env.ents[b], t.env.ents[b].RefTo(a);
    var env := t.env.(vars := t.env.vars[x := Retrieve(r)]);
    var n := TraceExpr(e, env, t.heap).n;
    SetLookup(t.heap[h.dict], r, n, r);
    var t1 := TraceStmt(ss[0], t).value;
    var t2 := TraceStmt(ss[1], t1).value;
    var t3 := TraceStmt(ss[2], t2).value;
    assert t1.env == env && t1.heap == t.heap;
    assert ss[1..][0] == ss[1] && ss[1..][1..] == [ss[2]] && [ss[2]][1..] == [];
    assert TraceBlock([ss[2]], t2) == Some(t3);
    assert TraceBlock(ss[1..], t1) == Some(t3);
  }
}
