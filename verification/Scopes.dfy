/** When a convert function can be traced: exactly when every symbol it reads is bound. */
module Scopes {
  import opened Values
  import opened Graph
  import opened Components
  import opened Tracer
  import opened Compile

  function EntsOf(env: Env): map<string, Ent> {
    map b | b in env.ents :: env.ents[b].ent
  }

  predicate Bound(q: Symbol, vars: set<string>, ents: map<string, Ent>) {
    match q
    case Name(x) => x in vars
    case Field(b, m) => b in ents && ents[b].Has(m)
  }

  predicate Readable(e: Expr, vars: set<string>, ents: map<string, Ent>) {
    match e
    case Lit(_) => true
    case Var(x) => Bound(Name(x), vars, ents)
    case Attr(b, m) => Bound(Field(b, m), vars, ents)
    case Oper(_, a, b) => Readable(a, vars, ents) && Readable(b, vars, ents)
    case IfExp(c, a, b) => Readable(c, vars, ents) && Readable(a, vars, ents) && Readable(b, vars, ents)
  }

  /** The variables bound after a block, or None where an unbound name raises an error. All branches are looked at. */
  function Bindings(ss: seq<Stmt>, vars: set<string>, ents: map<string, Ent>): Option<set<string>>
    decreases ss, 0
  {
    if ss == [] then Some(vars)
    else
      match StmtBindings(ss[0], vars, ents)
      case None => None
      case Some(w) => Bindings(ss[1..], w, ents)
  }

  function StmtBindings(s: Stmt, vars: set<string>, ents: map<string, Ent>): Option<set<string>>
    decreases s, 1
  {
    match s
    case Assign(Name(x), e) => if Readable(e, vars, ents) then Some(vars + {x}) else None
    case Assign(Field(b, m), e) =>
      if Readable(e, vars, ents) && Bound(Field(b, m), vars, ents) then Some(vars) else None
    case If(test, body, orelse, args, outs) =>
      if Readable(test, vars, ents) && outs != [] && BranchBinds(body, args, outs, vars, ents) &&
         BranchBinds(orelse, args, outs, vars, ents) then Some(vars + NamesIn(outs))
      else None
  }

  function NamesIn(outs: seq<Symbol>): set<string> {
    set q | q in outs && q.Name? :: q.x
  }

  /** A branch function can be called, can see the variables around it but those it makes local, and binds what it
      returns. */
  predicate BranchBinds(ss: seq<Stmt>, args: seq<string>, outs: seq<Symbol>, vars: set<string>, ents: map<string, Ent>)
    decreases ss, 2
  {
    (forall a :: a in args ==> a in vars || a in ents) &&
    var w := Bindings(ss, vars - Locals(ss) + (set a | a in args && a !in ents), ents);
    w.Some? && forall q :: q in outs ==> Bound(q, w.value, ents)
  }

  /** The variables a block makes local are those it assigns, and those its if statements return. */
  lemma {:induction false} LocalsAre(ss: seq<Stmt>, x: string)
    ensures x in Locals(ss) <==>
            exists s :: s in ss && ((s.Assign? && s.target == Name(x)) || (s.If? && Name(x) in s.outs))
  {
    if ss != [] {
      LocalsAre(ss[1..], x);
      assert forall s :: s in ss <==> s == ss[0] || s in ss[1..];
    }
  }

  lemma ReadBound(q: Symbol, env: Env, heap: seq<Outputs>)
    requires Handles(env, heap)
    ensures Read(q, env, heap).Built? <==> Bound(q, env.vars.Keys, EntsOf(env))
  {
  }

  /** An expression can be traced exactly when it reads bound symbols only. */
  lemma {:induction false} ExprTraced(e: Expr, env: Env, heap: seq<Outputs>)
    requires Handles(env, heap)
    ensures TraceExpr(e, env, heap).Built? <==> Readable(e, env.vars.Keys, EntsOf(env))
    decreases e
  {
    match e
    case Lit(_) =>
    case Var(x) => ReadBound(Name(x), env, heap);
    case Attr(b, m) => ReadBound(Field(b, m), env, heap);
    case Oper(_, a, b) =>
      ExprTraced(a, env, heap);
      ExprTraced(b, env, heap);
    case IfExp(c, a, b) =>
      ExprTraced(c, env, heap);
      ExprTraced(a, env, heap);
      ExprTraced(b, env, heap);
  }

  lemma {:induction false} BindTraced(args: seq<string>, outer: Env, inner: Env, heap: seq<Outputs>)
    requires Handles(outer, heap) && Handles(inner, heap) && EntsOf(inner) == EntsOf(outer)
    ensures Bind(args, outer, inner, heap).Some? <==> forall a :: a in args ==> a in outer.vars || a in outer.ents
    ensures Bind(args, outer, inner, heap).Some? ==>
              var env := Bind(args, outer, inner, heap).value.0;
              EntsOf(env) == EntsOf(outer) &&
              env.vars.Keys == inner.vars.Keys + (set a | a in args && a !in outer.ents)
    decreases |args|
  {
    if args != [] {
      var a := args[0];
      assert forall b :: b in args <==> b == a || b in args[1..];
      if a in outer.ents {
        var h := outer.ents[a];
        var next := inner.(ents := inner.ents[a := h.(dict := |heap|)]);
        assert a in EntsOf(outer) && EntsOf(outer)[a] == h.ent;
        assert EntsOf(next) == EntsOf(inner);
        BindTraced(args[1..], outer, next, heap + [heap[h.dict]]);
      } else if a in outer.vars {
        BindTraced(args[1..], outer, inner.(vars := inner.vars[a := outer.vars[a]]), heap);
      }
    }
  }

  lemma {:induction false} ReadAllTraced(outs: seq<Symbol>, env: Env, heap: seq<Outputs>)
    requires Handles(env, heap)
    ensures ReadAll(outs, env, heap).Some? <==> forall q :: q in outs ==> Bound(q, env.vars.Keys, EntsOf(env))
  {
    if outs != [] {
      ReadBound(outs[0], env, heap);
      ReadAllTraced(outs[1..], env, heap);
      assert forall q :: q in outs <==> q == outs[0] || q in outs[1..];
    }
  }

  lemma WriteTraced(q: Symbol, n: Node, t: Tracing)
    requires Ready(t)
    ensures Write(q, n, t).Some? <==> (q.Field? ==> Bound(q, t.env.vars.Keys, EntsOf(t.env)))
    ensures Write(q, n, t).Some? ==>
              var u := Write(q, n, t).value;
              EntsOf(u.env) == EntsOf(t.env) && u.env.vars.Keys == t.env.vars.Keys + NamesIn([q])
  {
  }

  lemma {:induction false} JoinTraced(outs: seq<Symbol>, c: Node, m: seq<Node>, n: seq<Node>, t: Tracing)
    requires Ready(t) && |m| == |n| == |outs|
    requires forall q :: q in outs && q.Field? ==> Bound(q, t.env.vars.Keys, EntsOf(t.env))
    ensures Join(outs, c, m, n, t).Some?
    ensures var u := Join(outs, c, m, n, t).value;
      EntsOf(u.env) == EntsOf(t.env) && u.env.vars.Keys == t.env.vars.Keys + NamesIn(outs)
    decreases |outs|
  {
    if outs != [] {
      var v := Switch(c, m[0], n[0]);
      WriteTraced(outs[0], v, t);
      var u := Write(outs[0], v, t).value;
      JoinTraced(outs[1..], c, m[1..], n[1..], u);
      assert NamesIn(outs) == NamesIn([outs[0]]) + NamesIn(outs[1..]) by {
        assert forall q :: q in outs <==> q in [outs[0]] || q in outs[1..];
      }
    }
  }

  lemma {:induction false} BranchTraced(ss: seq<Stmt>, args: seq<string>, outs: seq<Symbol>, t: Tracing)
    requires Ready(t)
    ensures TraceBranch(ss, args, outs, t.env, t).Some? <==>
            BranchBinds(ss, args, outs, t.env.vars.Keys, EntsOf(t.env))
    decreases ss, 2
  {
    var vars, ents := t.env.vars.Keys, EntsOf(t.env);
    var closure := Closure(t.env, ss);
    assert EntsOf(closure) == ents && closure.vars.Keys == vars - Locals(ss);
    BindTraced(args, t.env, closure, t.heap);
    if Bind(args, t.env, closure, t.heap).Some? {
      var (inner, heap) := Bind(args, t.env, closure, t.heap).value;
      var start := t.(env := inner, heap := heap);
      assert inner.vars.Keys == vars - Locals(ss) + (set a | a in args && a !in ents);
      BlockTraced(ss, start);
      if TraceBlock(ss, start).Some? {
        var u := TraceBlock(ss, start).value;
        ReadAllTraced(outs, u.env, u.heap);
      }
    }
  }

  lemma {:induction false} StmtTraced(s: Stmt, t: Tracing)
    requires Ready(t)
    ensures TraceStmt(s, t).Some? <==> StmtBindings(s, t.env.vars.Keys, EntsOf(t.env)).Some?
    ensures TraceStmt(s, t).Some? ==>
              TraceStmt(s, t).value.env.vars.Keys == StmtBindings(s, t.env.vars.Keys, EntsOf(t.env)).value &&
              EntsOf(TraceStmt(s, t).value.env) == EntsOf(t.env)
    decreases s, 1
  {
    match s
    case Assign(to, e) =>
      ExprTraced(e, t.env, t.heap);
      var k := TraceExpr(e, t.env, t.heap);
      if k.Built? { WriteTraced(to, k.n, t.(inputs := t.inputs + k.inputs)); }
    case If(test, body, orelse, args, outs) =>
      ExprTraced(test, t.env, t.heap);
      var k := TraceExpr(test, t.env, t.heap);
      if k.Built? {
        var t0 := t.(inputs := t.inputs + k.inputs);
        BranchTraced(body, args, outs, t0);
        var m := TraceBranch(body, args, outs, t.env, t0);
        if m.Some? {
          BranchTraced(orelse, args, outs, m.value.1);
          var n := TraceBranch(orelse, args, outs, t.env, m.value.1);
          if n.Some? && outs != [] { JoinTraced(outs, k.n, m.value.0, n.value.0, n.value.1); }
        }
      }
  }

  /** A block can be traced exactly when every symbol read in any branch is bound, and every if statement has an output
      symbol. */
  lemma {:induction false} BlockTraced(ss: seq<Stmt>, t: Tracing)
    requires Ready(t)
    ensures TraceBlock(ss, t).Some? <==> Bindings(ss, t.env.vars.Keys, EntsOf(t.env)).Some?
    ensures TraceBlock(ss, t).Some? ==>
              TraceBlock(ss, t).value.env.vars.Keys == Bindings(ss, t.env.vars.Keys, EntsOf(t.env)).value &&
              EntsOf(TraceBlock(ss, t).value.env) == EntsOf(t.env)
    decreases ss, 0
  {
    if ss != [] {
      StmtTraced(ss[0], t);
      if TraceStmt(ss[0], t).Some? { BlockTraced(ss[1..], TraceStmt(ss[0], t).value); }
    }
  }

  /** A whole function. */
  lemma FunctionTraced(ss: seq<Stmt>, ents: map<string, Ent>)
    ensures TraceBlock(ss, Begin(ents)).Some? <==> Bindings(ss, {}, ents).Some?
  {
    BlockTraced(ss, Begin(ents));
    assert EntsOf(Begin(ents).env) == ents && Begin(ents).env.vars.Keys == {};
  }
}
