/** What code would leave in every symbol, branch by branch: failures are kept as what reading the symbol gives. */
module Views {
  import opened Values
  import opened Graph
  import opened Components
  import opened Tracer

  /** What reading a variable or an attribute gives; what is missing throws. */
  datatype View = View(vars: map<string, Result<Value>>, ents: map<string, Ent>, store: map<Ref, Result<Value>>)

  /** Distinct variables denote distinct entities. */
  ghost predicate Apart(ents: map<string, Ent>) {
    forall b, c :: b in ents && c in ents && ents[b].entity == ents[c].entity ==> b == c
  }

  predicate Writable(s: Symbol, ents: map<string, Ent>) {
    s.Field? ==> s.base in ents && ents[s.base].Has(s.member)
  }

  function Reads(s: Symbol, v: View): Result<Value> {
    match s
    case Name(x) => if x in v.vars then v.vars[x] else Throws
    case Field(b, m) =>
      if Writable(s, v.ents) && v.ents[b].RefTo(m) in v.store then v.store[v.ents[b].RefTo(m)] else Throws
  }

  /** The choice of a conditional. */
  function Pick(c: Result<Value>, x: Result<Value>, y: Result<Value>): Result<Value> {
    match c
    case Ok(v) => if v.Stored().Boolean? then (if v.Stored().t then x else y) else Throws
    case Throws => Throws
    case Undefined => Undefined
  }

  predicate TakesFirst(c: Result<Value>) {
    c.Ok? && c.value.Stored().Boolean? && c.value.Stored().t
  }

  predicate TakesSecond(c: Result<Value>) {
    c.Ok? && c.value.Stored().Boolean? && !c.value.Stored().t
  }

  function ViewExpr(e: Expr, v: View): Result<Value> {
    match e
    case Lit(x) => Ok(x)
    case Var(x) => Reads(Name(x), v)
    case Attr(b, m) => Reads(Field(b, m), v)
    case Oper(o, x, y) => Effect(o, ViewExpr(x, v), ViewExpr(y, v))
    case IfExp(c, x, y) => Pick(ViewExpr(c, v), ViewExpr(x, v), ViewExpr(y, v))
  }

  function Put(s: Symbol, r: Result<Value>, v: View): View {
    match s
    case Name(x) => v.(vars := v.vars[x := r])
    case Field(b, m) => if Writable(s, v.ents) then v.(store := v.store[v.ents[b].RefTo(m) := r]) else v
  }

  /** Every listed symbol takes what the chosen branch leaves in it. */
  function PutAll(ss: seq<Symbol>, c: Result<Value>, x: View, y: View, v: View): View
    decreases |ss|
  {
    if ss == [] then v else PutAll(ss[1..], c, x, y, Put(ss[0], Pick(c, Reads(ss[0], x), Reads(ss[0], y)), v))
  }

  function RunStmt(s: Stmt, v: View): View
    decreases s, 1
  {
    match s
    case Assign(to, e) => Put(to, ViewExpr(e, v), v)
    case If(test, body, orelse, _, outs) => PutAll(outs, ViewExpr(test, v), RunBlock(body, v), RunBlock(orelse, v), v)
  }

  /** Every statement takes effect, and every branch is run from the state before it. */
  function RunBlock(ss: seq<Stmt>, v: View): View
    decreases ss, 0
  {
    if ss == [] then v else RunBlock(ss[1..], RunStmt(ss[0], v))
  }

  // ---------------------------------------------------------------- what it changes

  lemma PutReads(s: Symbol, r: Result<Value>, v: View, q: Symbol)
    requires Apart(v.ents)
    ensures Reads(q, Put(s, r, v)) == if q == s && Writable(s, v.ents) then r else Reads(q, v)
    ensures Put(s, r, v).ents == v.ents
  {
    if s.Field? && q.Field? && Writable(s, v.ents) && Writable(q, v.ents) &&
       v.ents[q.base].RefTo(q.member) == v.ents[s.base].RefTo(s.member) {
      assert q.base == s.base;
    }
  }

  lemma {:induction false} PutAllReads(ss: seq<Symbol>, c: Result<Value>, x: View, y: View, v: View, q: Symbol)
    requires Apart(v.ents)
    ensures PutAll(ss, c, x, y, v).ents == v.ents
    ensures Reads(q, PutAll(ss, c, x, y, v)) ==
            if q in ss && Writable(q, v.ents) then Pick(c, Reads(q, x), Reads(q, y)) else Reads(q, v)
    decreases |ss|
  {
    if ss != [] {
      var r := Pick(c, Reads(ss[0], x), Reads(ss[0], y));
      PutReads(ss[0], r, v, q);
      PutAllReads(ss[1..], c, x, y, Put(ss[0], r, v), q);
    }
  }

  lemma {:induction false} RunStmtFrame(s: Stmt, v: View, q: Symbol)
    requires Apart(v.ents)
    ensures RunStmt(s, v).ents == v.ents && (q !in StoredBy(s) ==> Reads(q, RunStmt(s, v)) == Reads(q, v))
    decreases s, 1
  {
    match s
    case Assign(to, e) => PutReads(to, ViewExpr(e, v), v, q);
    case If(test, body, orelse, _, outs) =>
      PutAllReads(outs, ViewExpr(test, v), RunBlock(body, v), RunBlock(orelse, v), v, q);
  }

  lemma {:induction false} RunFrame(ss: seq<Stmt>, v: View, q: Symbol)
    requires Apart(v.ents)
    ensures RunBlock(ss, v).ents == v.ents && (q !in Stored(ss) ==> Reads(q, RunBlock(ss, v)) == Reads(q, v))
    decreases ss, 0
  {
    if ss != [] {
      RunStmtFrame(ss[0], v, q);
      RunFrame(ss[1..], RunStmt(ss[0], v), q);
    }
  }

  // ---------------------------------------------------------------- a direct run

  function ViewOf(d: Direct): View {
    View(map x | x in d.vars :: Ok(d.vars[x]), d.ents, map r | r in d.store :: Ok(d.store[r]))
  }

  /** Every symbol reads the same. */
  ghost predicate Alike(v: View, w: View) {
    v.ents == w.ents && forall s :: Reads(s, v) == Reads(s, w)
  }

  lemma {:induction false} ExprIsExec(e: Expr, d: Direct, v: View)
    requires Alike(v, ViewOf(d)) && ExecExpr(e, d).Ok?
    ensures ViewExpr(e, v) == ExecExpr(e, d)
    decreases e
  {
    match e
    case Lit(_) =>
    case Var(x) => assert Reads(Name(x), v) == Reads(Name(x), ViewOf(d));
    case Attr(b, m) => assert Reads(Field(b, m), v) == Reads(Field(b, m), ViewOf(d));
    case Oper(o, x, y) =>
      ExprIsExec(x, d, v);
      ExprIsExec(y, d, v);
      EffectMeaning(o, ExecExpr(x, d).value, ExecExpr(y, d).value);
    case IfExp(c, x, y) =>
      ExprIsExec(c, d, v);
      if ExecExpr(c, d).value.Stored().t { ExprIsExec(x, d, v); } else { ExprIsExec(y, d, v); }
  }

  lemma UpdateIsPut(s: Symbol, x: Value, d: Direct, v: View)
    requires Apart(d.ents) && Alike(v, ViewOf(d)) && Update(s, x, d).Ok?
    ensures Alike(Put(s, Ok(x), v), ViewOf(Update(s, x, d).value)) && Update(s, x, d).value.ents == d.ents
  {
    var e := Update(s, x, d).value;
    forall q
      ensures Reads(q, Put(s, Ok(x), v)) == Reads(q, ViewOf(e))
    {
      PutReads(s, Ok(x), v, q);
      PutReads(s, Ok(x), ViewOf(d), q);
      assert Reads(q, v) == Reads(q, ViewOf(d));
      assert Put(s, Ok(x), ViewOf(d)) == ViewOf(e);
    }
  }

  /** Where a direct run finishes, it leaves in every symbol what the view says, when the output symbols of its if
      statements are listed. */
  lemma {:induction false} RunIsExec(ss: seq<Stmt>, d: Direct, v: View)
    requires Listed(ss) && Apart(d.ents) && Alike(v, ViewOf(d)) && ExecBlock(ss, d).Ok?
    ensures Alike(RunBlock(ss, v), ViewOf(ExecBlock(ss, d).value)) && ExecBlock(ss, d).value.ents == d.ents
    decreases ss, 0
  {
    if ss != [] {
      RunIsExecStmt(ss[0], d, v);
      RunIsExec(ss[1..], ExecStmt(ss[0], d).value, RunStmt(ss[0], v));
    }
  }

  lemma {:induction false} RunIsExecStmt(s: Stmt, d: Direct, v: View)
    requires ListedStmt(s) && Apart(d.ents) && Alike(v, ViewOf(d)) && ExecStmt(s, d).Ok?
    ensures Alike(RunStmt(s, v), ViewOf(ExecStmt(s, d).value)) && ExecStmt(s, d).value.ents == d.ents
    decreases s, 1
  {
    match s
    case Assign(to, e) =>
      ExprIsExec(e, d, v);
      UpdateIsPut(to, ExecExpr(e, d).value, d, v);
    case If(test, body, orelse, _, outs) =>
      ExprIsExec(test, d, v);
      var taken := if ExecExpr(test, d).value.Stored().t then body else orelse;
      RunIsExec(taken, d, v);
      var e := ExecStmt(s, d).value;
      forall q
        ensures Reads(q, RunStmt(s, v)) == Reads(q, ViewOf(e))
      {
        PutAllReads(outs, ViewExpr(test, v), RunBlock(body, v), RunBlock(orelse, v), v, q);
        RunFrame(taken, v, q);
        assert Reads(q, RunBlock(taken, v)) == Reads(q, ViewOf(e));
      }
      PutAllReads(outs, ViewExpr(test, v), RunBlock(body, v), RunBlock(orelse, v), v, Name(""));
  }
}
