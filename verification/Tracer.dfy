/** Tracing a convert function: running the transformed Python code on graph nodes, and running the original
    code on values. */
module Tracer {
  import opened Values
  import opened Graph
  import opened Components

  /** What follows an entity variable: the component and its attribute, as in car[Position].x. */
  datatype Member = Member(component: string, attr: string)

  datatype Expr =
    | Lit(v: Value)
    | Var(x: string)
    | Attr(base: string, member: Member)
    | Oper(o: Operator, a: Expr, b: Expr)
    | IfExp(test: Expr, body: Expr, orelse: Expr)

  /** A symbol that can be assigned: a local variable, or an attribute of a component of an entity variable. */
  datatype Symbol = Name(x: string) | Field(base: string, member: Member)

  /** args and outs are the base input symbols and the output symbols the analysis found for the statement. */
  datatype Stmt =
    | Assign(target: Symbol, e: Expr)
    | If(test: Expr, body: seq<Stmt>, orelse: seq<Stmt>, args: seq<string>, outs: seq<Symbol>)

  // ---------------------------------------------------------------- tracing

  /** An entity and the components attached to it. */
  datatype Ent = Ent(entity: nat, components: set<string>) {
    predicate Has(m: Member) {
      m.component in components
    }

    function RefTo(m: Member): Ref {
      Ref(entity, m.component, m.attr)
    }
  }

  /** An entity variable: which entity it is, and which outputs dictionary of the heap its components record in. */
  datatype Handle = Handle(ent: Ent, dict: nat) {
    function RefTo(m: Member): Ref {
      ent.RefTo(m)
    }
  }

  datatype Env = Env(vars: map<string, Node>, ents: map<string, Handle>)

  /** The state of a trace. stale says that a write of an attribute's initial value was dropped although the
      attribute had been set. */
  datatype Tracing = Tracing(env: Env, heap: seq<Outputs>, inputs: set<Ref>, stale: bool)

  /** A node and the attributes its building read as inputs. */
  datatype Traced = Fails | Built(n: Node, inputs: set<Ref>)

  /** Entity variables denote dictionaries of the heap. */
  ghost predicate Handles(env: Env, heap: seq<Outputs>) {
    forall b :: b in env.ents ==> env.ents[b].dict < |heap|
  }

  function ReadField(h: Handle, m: Member, heap: seq<Outputs>): Traced
    requires h.dict < |heap|
  {
    Built(Current(heap[h.dict], h.RefTo(m)), if Lookup(heap[h.dict], h.RefTo(m)).Some? then {} else {h.RefTo(m)})
  }

  function Read(s: Symbol, env: Env, heap: seq<Outputs>): Traced
    requires Handles(env, heap)
  {
    match s
    case Name(x) => if x in env.vars then Built(env.vars[x], {}) else Fails
    case Field(b, m) => if b in env.ents && env.ents[b].ent.Has(m) then ReadField(env.ents[b], m, heap) else Fails
  }

  /** An expression on nodes; a conditional expression becomes a switch whose three parts are all traced. */
  function TraceExpr(e: Expr, env: Env, heap: seq<Outputs>): Traced
    requires Handles(env, heap)
  {
    match e
    case Lit(v) => Built(Const(v), {})
    case Var(x) => Read(Name(x), env, heap)
    case Attr(b, m) => Read(Field(b, m), env, heap)
    case Oper(o, a, b) =>
      var m, n := TraceExpr(a, env, heap), TraceExpr(b, env, heap);
      if m.Built? && n.Built? then Built(Build(o, m.n, n.n), m.inputs + n.inputs) else Fails
    case IfExp(c, t, f) =>
      var k, m, n := TraceExpr(c, env, heap), TraceExpr(t, env, heap), TraceExpr(f, env, heap);
      if k.Built? && m.Built? && n.Built? then Built(Switch(k.n, m.n, n.n), k.inputs + m.inputs + n.inputs) else Fails
  }

  ghost predicate Ready(t: Tracing) {
    Handles(t.env, t.heap)
  }

  function Write(s: Symbol, n: Node, t: Tracing): (r: Option<Tracing>)
    requires Ready(t)
    ensures r.Some? ==> Ready(r.value) && r.value.env.ents == t.env.ents && |r.value.heap| == |t.heap|
    ensures r.Some? && t.stale ==> r.value.stale
  {
    match s
    case Name(x) => Some(t.(env := t.env.(vars := t.env.vars[x := n])))
    case Field(b, m) =>
      if b in t.env.ents && t.env.ents[b].ent.Has(m) then
        var h := t.env.ents[b];
        var r := h.RefTo(m);
        Some(t.(heap := t.heap[h.dict := Set(t.heap[h.dict], r, n)],
                stale := t.stale || (Skipped(r, n) && Lookup(t.heap[h.dict], r).Some?)))
      else None
  }

  /** Variables that Python makes local to the function around a block: those the block itself assigns, the
      joined symbols of its if statements among them. */
  function Locals(ss: seq<Stmt>): set<string> {
    if ss == [] then {}
    else
      (match ss[0]
       case Assign(Name(x), _) => {x}
       case Assign(_, _) => {}
       case If(_, _, _, _, outs) => set r | r in outs && r.Name? :: r.x) + Locals(ss[1..])
  }

  /** A branch function starts with the enclosing variables, its own locals unbound. */
  function Closure(env: Env, ss: seq<Stmt>): Env {
    env.(vars := env.vars - Locals(ss))
  }

  /** Binds the arguments to deep copies: every entity gets a dictionary of its own for all its components. */
  function Bind(args: seq<string>, outer: Env, inner: Env, heap: seq<Outputs>): (r: Option<(Env, seq<Outputs>)>)
    requires Handles(outer, heap) && Handles(inner, heap)
    ensures r.Some? ==>
        Handles(r.value.0, r.value.1) && heap <= r.value.1 &&
        r.value.0.ents.Keys == inner.ents.Keys + (set a | a in args && a in outer.ents)
  {
    if args == [] then Some((inner, heap))
    else
      var a := args[0];
      if a in outer.ents then
        var h := outer.ents[a];
        Bind(args[1..], outer, inner.(ents := inner.ents[a := h.(dict := |heap|)]), heap + [heap[h.dict]])
      else if a in outer.vars then Bind(args[1..], outer, inner.(vars := inner.vars[a := outer.vars[a]]), heap)
      else None
  }

  /** The values a branch function outs. */
  function ReadAll(ss: seq<Symbol>, env: Env, heap: seq<Outputs>): (r: Option<(seq<Node>, set<Ref>)>)
    requires Handles(env, heap)
    ensures r.Some? ==> |r.value.0| == |ss|
  {
    if ss == [] then Some(([], {}))
    else
      var n, rest := Read(ss[0], env, heap), ReadAll(ss[1..], env, heap);
      if n.Built? && rest.Some? then Some(([n.n] + rest.value.0, n.inputs + rest.value.1)) else None
  }

  /** Assigns each returned symbol a switch between the branches' values. */
  function Join(ss: seq<Symbol>, c: Node, m: seq<Node>, n: seq<Node>, t: Tracing): (r: Option<Tracing>)
    requires Ready(t) && |m| == |n| == |ss|
    ensures r.Some? ==> Ready(r.value) && r.value.env.ents == t.env.ents && |r.value.heap| == |t.heap|
    ensures r.Some? && t.stale ==> r.value.stale
    decreases |ss|
  {
    if ss == [] then Some(t)
    else
      var w := Write(ss[0], Switch(c, m[0], n[0]), t);
      if w.Some? then Join(ss[1..], c, m[1..], n[1..], w.value) else None
  }

  function TraceStmt(s: Stmt, t: Tracing): (r: Option<Tracing>)
    requires Ready(t)
    ensures r.Some? ==> Ready(r.value) && r.value.env.ents == t.env.ents && |r.value.heap| >= |t.heap|
    ensures r.Some? && t.stale ==> r.value.stale
    decreases s, 1
  {
    match s
    case Assign(to, e) =>
      (match TraceExpr(e, t.env, t.heap)
       case Fails => None
       case Built(n, inputs) => Write(to, n, t.(inputs := t.inputs + inputs)))
    case If(test, body, orelse, args, outs) =>
      match TraceExpr(test, t.env, t.heap)
      case Fails => None
      case Built(c, inputs) =>
        var m := TraceBranch(body, args, outs, t.env, t.(inputs := t.inputs + inputs));
        if m.None? then None
        else
          var n := TraceBranch(orelse, args, outs, t.env, m.value.1);
          // a block without output symbols returns None, which cannot be joined
          if n.None? || outs == [] then None else Join(outs, c, m.value.0, n.value.0, n.value.1)
  }

  /** Calls a branch function: the returned nodes, and the state with the caller's variables. */
  function TraceBranch(ss: seq<Stmt>, args: seq<string>, outs: seq<Symbol>, env: Env, t: Tracing)
      : (r: Option<(seq<Node>, Tracing)>)
    requires Ready(t) && env == t.env
    ensures r.Some? ==>
        Ready(r.value.1) && r.value.1.env == env && |r.value.1.heap| >= |t.heap| && |r.value.0| == |outs|
    ensures r.Some? && t.stale ==> r.value.1.stale
    decreases ss, 2
  {
    match Bind(args, env, Closure(env, ss), t.heap)
    case None => None
    case Some((inner, heap)) =>
      match TraceBlock(ss, t.(env := inner, heap := heap))
      case None => None
      case Some(u) =>
        match ReadAll(outs, u.env, u.heap)
        case None => None
        case Some((nodes, inputs)) => Some((nodes, u.(env := env, inputs := u.inputs + inputs)))
  }

  function TraceBlock(ss: seq<Stmt>, t: Tracing): (r: Option<Tracing>)
    requires Ready(t)
    ensures r.Some? ==> Ready(r.value) && r.value.env.ents == t.env.ents && |r.value.heap| >= |t.heap|
    ensures r.Some? && t.stale ==> r.value.stale
    decreases ss, 0
  {
    if ss == [] then Some(t)
    else
      match TraceStmt(ss[0], t)
      case None => None
      case Some(u) => TraceBlock(ss[1..], u)
  }

  // ---------------------------------------------------------------- running directly

  datatype Direct = Direct(vars: map<string, Value>, ents: map<string, Ent>, store: Store)

  function ExecExpr(e: Expr, d: Direct): Result<Value> {
    match e
    case Lit(v) => Ok(v)
    case Var(x) => if x in d.vars then Ok(d.vars[x]) else Throws
    case Attr(b, m) =>
      if b in d.ents && d.ents[b].Has(m) && d.ents[b].RefTo(m) in d.store then Ok(d.store[d.ents[b].RefTo(m)])
      else Throws
    case Oper(o, a, b) => Combine(Meant(o), ExecExpr(a, d), ExecExpr(b, d))
    case IfExp(c, t, f) =>
      match ExecExpr(c, d)
      case Ok(v) => if v.Stored().Boolean? then (if v.Stored().t then ExecExpr(t, d) else ExecExpr(f, d)) else Throws
      case Throws => Throws
      case Undefined => Undefined
  }

  function Update(s: Symbol, v: Value, d: Direct): Result<Direct> {
    match s
    case Name(x) => Ok(d.(vars := d.vars[x := v]))
    case Field(b, m) =>
      if b in d.ents && d.ents[b].Has(m) then Ok(d.(store := d.store[d.ents[b].RefTo(m) := v])) else Throws
  }

  function ExecStmt(s: Stmt, d: Direct): Result<Direct>
    decreases s, 1
  {
    match s
    case Assign(to, e) =>
      (match ExecExpr(e, d)
       case Ok(v) => Update(to, v, d)
       case Throws => Throws
       case Undefined => Undefined)
    case If(test, body, orelse, _, _) =>
      match ExecExpr(test, d)
      case Ok(v) => if v.Stored().Boolean? then (if v.Stored().t then ExecBlock(body, d) else ExecBlock(orelse, d))
          else Throws
      case Throws => Throws
      case Undefined => Undefined
  }

  /** The original statements, only the chosen branches, on values. */
  function ExecBlock(ss: seq<Stmt>, d: Direct): Result<Direct>
    decreases ss, 0
  {
    if ss == [] then Ok(d)
    else
      match ExecStmt(ss[0], d)
      case Ok(e) => ExecBlock(ss[1..], e)
      case Throws => Throws
      case Undefined => Undefined
  }

  // ---------------------------------------------------------------- what the analysis must provide

  /** Symbols assigned anywhere in a block. */
  function Stored(ss: seq<Stmt>): set<Symbol>
    decreases ss, 0
  {
    if ss == [] then {} else StoredBy(ss[0]) + Stored(ss[1..])
  }

  function StoredBy(s: Stmt): set<Symbol>
    decreases s, 1
  {
    match s
    case Assign(to, _) => {to}
    case If(_, body, orelse, _, outs) => Stored(body) + Stored(orelse) + (set r | r in outs)
  }

  /** Every entity a block writes to is an argument of its branch function. */
  predicate Covered(ss: seq<Stmt>, args: seq<string>) {
    Through(ss, args) == {}
  }

  /** Attributes a block stores through entities that are not arguments of its branch function. */
  function Through(ss: seq<Stmt>, args: seq<string>): set<Symbol> {
    set s | s in Stored(ss) && s.Field? && s.base !in args
  }

  /** The output symbols of every if statement are distinct and include everything a branch assigns. */
  ghost predicate Listed(ss: seq<Stmt>)
    decreases ss, 0
  {
    ss == [] || (ListedStmt(ss[0]) && Listed(ss[1..]))
  }

  ghost predicate ListedStmt(s: Stmt)
    decreases s, 1
  {
    match s
    case Assign(_, _) => true
    case If(_, body, orelse, _, outs) =>
      (forall i, j :: 0 <= i < j < |outs| ==> outs[i] != outs[j]) &&
      (forall r :: r in Stored(body) || r in Stored(orelse) ==> r in outs) &&
      Listed(body) && Listed(orelse)
  }

  /** At every if statement the first branch writes only to entities that are arguments. */
  ghost predicate Isolated(ss: seq<Stmt>)
    decreases ss, 0
  {
    ss == [] || (IsolatedStmt(ss[0]) && Isolated(ss[1..]))
  }

  ghost predicate IsolatedStmt(s: Stmt)
    decreases s, 1
  {
    match s
    case Assign(_, _) => true
    case If(_, body, orelse, args, _) => Covered(body, args) && Isolated(body) && Isolated(orelse)
  }
}
