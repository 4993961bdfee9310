/** Traced graphs mean what the traced code does. */
module TraceMeaning {
  import opened Values
  import opened Graph
  import opened Components
  import opened Tracer
  import opened Views

  // ---------------------------------------------------------------- symbols on both sides

  /** The node a read of the symbol gives, if any. */
  function NodeOf(s: Symbol, env: Env, heap: seq<Outputs>): Option<Node>
    requires Handles(env, heap)
  {
    if Read(s, env, heap).Built? then Some(Read(s, env, heap).n) else None
  }

  /** The trace's variables denote the view's entities. */
  ghost predicate Agree(env: Env, d: View) {
    env.ents.Keys == d.ents.Keys && forall b :: b in d.ents ==> env.ents[b].ent == d.ents[b]
  }

  /** The symbol's node evaluates on the initial store s0 to what reading the symbol gives. */
  ghost predicate Shows(env: Env, heap: seq<Outputs>, d: View, s0: Store, s: Symbol)
    requires Handles(env, heap)
  {
    NodeOf(s, env, heap).Some? ==> Eval(NodeOf(s, env, heap).value, s0) == Reads(s, d)
  }

  ghost predicate Related(env: Env, heap: seq<Outputs>, d: View, s0: Store) {
    Handles(env, heap) && Agree(env, d) && forall s :: Shows(env, heap, d, s0, s)
  }

  // ---------------------------------------------------------------- expressions

  lemma ReadMeaning(s: Symbol, env: Env, heap: seq<Outputs>, d: View, s0: Store)
    requires Related(env, heap, d, s0) && Read(s, env, heap).Built?
    ensures Eval(Read(s, env, heap).n, s0) == Reads(s, d)
  {
    assert Shows(env, heap, d, s0, s);
  }

  /** A traced expression evaluates on the initial store to what the expression gives. */
  lemma {:induction false} ExprMeaning(e: Expr, env: Env, heap: seq<Outputs>, d: View, s0: Store)
    requires Related(env, heap, d, s0) && TraceExpr(e, env, heap).Built?
    ensures Eval(TraceExpr(e, env, heap).n, s0) == ViewExpr(e, d)
    decreases e
  {
    match e
    case Lit(v) =>
    case Var(x) => ReadMeaning(Name(x), env, heap, d, s0);
    case Attr(b, m) => ReadMeaning(Field(b, m), env, heap, d, s0);
    case Oper(o, a, b) =>
      ExprMeaning(a, env, heap, d, s0);
      ExprMeaning(b, env, heap, d, s0);
      BuildEffect(o, TraceExpr(a, env, heap).n, TraceExpr(b, env, heap).n, s0);
    case IfExp(c, t, f) =>
      ExprMeaning(c, env, heap, d, s0);
      ExprMeaning(t, env, heap, d, s0);
      ExprMeaning(f, env, heap, d, s0);
  }

  // ---------------------------------------------------------------- writes

  /** A write of an attribute's initial value, dropped although the attribute was set. */
  predicate Stale(s: Symbol, n: Node, t: Tracing)
    requires Ready(t)
  {
    s.Field? && s.base in t.env.ents && t.env.ents[s.base].ent.Has(s.member) &&
    Skipped(t.env.ents[s.base].RefTo(s.member), n) &&
    Lookup(t.heap[t.env.ents[s.base].dict], t.env.ents[s.base].RefTo(s.member)).Some?
  }

  /** Unless it is stale, a write makes its node the symbol's; no other symbol's node changes. */
  lemma WriteRecorded(s: Symbol, n: Node, t: Tracing, d: View, q: Symbol)
    requires Ready(t) && Agree(t.env, d) && Apart(d.ents) && Write(s, n, t).Some?
    ensures var u := Write(s, n, t).value;
      NodeOf(q, u.env, u.heap) == if q == s && !Stale(s, n, t) then Some(n) else NodeOf(q, t.env, t.heap)
  {
    if s.Field? && q.Field? && Writable(q, d.ents) {
      var h := t.env.ents[s.base];
      SetLookup(t.heap[h.dict], h.RefTo(s.member), n, t.env.ents[q.base].RefTo(q.member));
      if t.env.ents[q.base].RefTo(q.member) == h.RefTo(s.member) { assert q.base == s.base; }
    }
  }

  /** A trace is marked exactly when a write is dropped in this way. */
  lemma WriteMarks(s: Symbol, n: Node, t: Tracing)
    requires Ready(t) && Write(s, n, t).Some?
    ensures Write(s, n, t).value.stale <==> t.stale || Stale(s, n, t)
    ensures Write(s, n, t).value.inputs == t.inputs
  {
  }

  /** An assignment keeps the trace related to the view, exactly unless its write is dropped over an earlier write of
      something else. */
  lemma WriteMeaning(s: Symbol, n: Node, t: Tracing, d: View, s0: Store)
    requires Related(t.env, t.heap, d, s0) && Apart(d.ents) && Write(s, n, t).Some?
    ensures var u, x := Write(s, n, t).value, Eval(n, s0);
      Related(u.env, u.heap, Put(s, x, d), s0) <==> (Stale(s, n, t) ==> Reads(s, d) == x)
  {
    var u, x := Write(s, n, t).value, Eval(n, s0);
    PutReads(s, x, d, s);
    WriteRecorded(s, n, t, d, s);
    assert Shows(t.env, t.heap, d, s0, s);
    if Stale(s, n, t) && Reads(s, d) != x {
      assert !Shows(u.env, u.heap, Put(s, x, d), s0, s);
    } else {
      forall q
        ensures Shows(u.env, u.heap, Put(s, x, d), s0, q)
      {
        assert Shows(t.env, t.heap, d, s0, q);
        WriteRecorded(s, n, t, d, q);
        PutReads(s, x, d, q);
      }
    }
  }

  // ---------------------------------------------------------------- what a block leaves alone

  /** Some symbol of the set is recorded at attribute r of dictionary k. */
  ghost predicate Hits(ss: set<Symbol>, ents: map<string, Handle>, k: nat, r: Ref) {
    exists s :: s in ss && s.Field? && s.base in ents && ents[s.base].ent.Has(s.member) && ents[s.base].dict == k &&
                ents[s.base].RefTo(s.member) == r
  }

  /** Dictionaries that existed keep every attribute the set does not hit. */
  ghost predicate Spared(ss: set<Symbol>, ents: map<string, Handle>, heap: seq<Outputs>, heap': seq<Outputs>) {
    |heap| <= |heap'| &&
    forall k, r :: 0 <= k < |heap| && !Hits(ss, ents, k, r) ==> Lookup(heap'[k], r) == Lookup(heap[k], r)
  }

  ghost predicate SameVars(ss: set<Symbol>, vars: map<string, Node>, vars': map<string, Node>) {
    forall x :: Name(x) !in ss ==> (x in vars <==> x in vars') && (x in vars ==> vars[x] == vars'[x])
  }

  function AsSet(ss: seq<Symbol>): set<Symbol> {
    set s | s in ss
  }

  lemma HitsMore(a: set<Symbol>, b: set<Symbol>, ents: map<string, Handle>, k: nat, r: Ref)
    requires a <= b && Hits(a, ents, k, r)
    ensures Hits(b, ents, k, r)
  {
  }

  lemma SparedMore(a: set<Symbol>, b: set<Symbol>, ents: map<string, Handle>, heap: seq<Outputs>, heap': seq<Outputs>)
    requires a <= b && Spared(a, ents, heap, heap')
    ensures Spared(b, ents, heap, heap')
  {
    forall k, r | 0 <= k < |heap| && !Hits(b, ents, k, r)
      ensures Lookup(heap'[k], r) == Lookup(heap[k], r)
    {
      if Hits(a, ents, k, r) { HitsMore(a, b, ents, k, r); }
    }
  }

  lemma SparedTrans(ss: set<Symbol>, ents: map<string, Handle>, a: seq<Outputs>, b: seq<Outputs>, c: seq<Outputs>)
    requires Spared(ss, ents, a, b) && Spared(ss, ents, b, c)
    ensures Spared(ss, ents, a, c)
  {
  }

  lemma WriteFrame(s: Symbol, n: Node, t: Tracing)
    requires Ready(t) && Write(s, n, t).Some?
    ensures var u := Write(s, n, t).value;
      Spared({s}, t.env.ents, t.heap, u.heap) && SameVars({s}, t.env.vars, u.env.vars) && u.inputs == t.inputs
  {
    var u := Write(s, n, t).value;
    if s.Field? {
      var h := t.env.ents[s.base];
      assert Hits({s}, t.env.ents, h.dict, h.RefTo(s.member)) by { assert s in {s}; }
      forall k, r | 0 <= k < |t.heap| && !Hits({s}, t.env.ents, k, r)
        ensures Lookup(u.heap[k], r) == Lookup(t.heap[k], r)
      {
        SetLookup(t.heap[h.dict], h.RefTo(s.member), n, r);
      }
    }
  }

  lemma {:induction false} JoinFrame(ss: seq<Symbol>, c: Node, m: seq<Node>, n: seq<Node>, t: Tracing)
    requires Ready(t) && |m| == |n| == |ss| && Join(ss, c, m, n, t).Some?
    ensures var u := Join(ss, c, m, n, t).value;
      Spared(AsSet(ss), t.env.ents, t.heap, u.heap) && SameVars(AsSet(ss), t.env.vars, u.env.vars)
    decreases |ss|
  {
    if ss != [] {
      var all := AsSet(ss);
      var w := Write(ss[0], Switch(c, m[0], n[0]), t).value;
      WriteFrame(ss[0], Switch(c, m[0], n[0]), t);
      JoinFrame(ss[1..], c, m[1..], n[1..], w);
      var u := Join(ss, c, m, n, t).value;
      SparedMore({ss[0]}, all, t.env.ents, t.heap, w.heap);
      SparedMore(AsSet(ss[1..]), all, t.env.ents, w.heap, u.heap);
      SparedTrans(all, t.env.ents, t.heap, w.heap, u.heap);
    }
  }

  /** Arguments are bound to copies in new dictionaries: through other variables a block can only reach
      dictionaries its caller has for them. */
  lemma {:induction false} BindFrame(args: seq<string>, outer: Env, inner: Env, heap: seq<Outputs>, floor: nat)
    requires Handles(outer, heap) && Handles(inner, heap) && floor <= |heap| && Bind(args, outer, inner, heap).Some?
    requires outer.ents.Keys == inner.ents.Keys
    requires forall b :: b in inner.ents ==> inner.ents[b] == outer.ents[b] || (inner.ents[b].dict >= floor)
    requires forall b :: b in inner.ents ==>
        inner.ents[b].ent == outer.ents[b].ent
    ensures var (env, h) := Bind(args, outer, inner, heap).value;
      heap <= h && env.ents.Keys == outer.ents.Keys &&
      (forall b :: b in env.ents ==>
          env.ents[b].ent == outer.ents[b].ent) &&
      (forall b :: b in env.ents ==> env.ents[b] == outer.ents[b] || env.ents[b].dict >= floor) &&
      (forall b :: b in env.ents && (b in args || inner.ents[b].dict >= floor) ==> env.ents[b].dict >= floor)
    decreases |args|
  {
    if args != [] {
      var a := args[0];
      if a in outer.ents {
        BindFrame(args[1..], outer, inner.(ents := inner.ents[a := outer.ents[a].(dict := |heap|)]),
            heap + [heap[outer.ents[a].dict]], floor);
      } else {
        BindFrame(args[1..], outer, inner.(vars := inner.vars[a := outer.vars[a]]), heap, floor);
      }
    }
  }

  /** What a block hits in its caller's dictionaries, it hits through components that are not arguments. */
  lemma HitsThrough(ss: seq<Stmt>, args: seq<string>, inner: map<string, Handle>, outer: map<string, Handle>,
      floor: nat, k: nat, r: Ref)
    requires inner.Keys == outer.Keys && k < floor
    requires forall b :: b in inner ==> inner[b] == outer[b] || inner[b].dict >= floor
    requires forall b :: b in inner && b in args ==> inner[b].dict >= floor
    ensures Hits(Stored(ss), inner, k, r) ==> Hits(Through(ss, args), outer, k, r)
  {
    if Hits(Stored(ss), inner, k, r) {
      var s :| s in Stored(ss) && s.Field? && s.base in inner && inner[s.base].ent.Has(s.member) &&
          inner[s.base].dict == k &&
          inner[s.base].RefTo(s.member) == r;
      assert s in Through(ss, args);
    }
  }

  /** Tracing a branch leaves the caller's variables, and every dictionary entry but those of symbols it stores
      through components that are not arguments. */
  lemma {:induction false} BranchFrame(ss: seq<Stmt>, args: seq<string>, outs: seq<Symbol>, t: Tracing)
    requires Ready(t) && TraceBranch(ss, args, outs, t.env, t).Some?
    ensures var u := TraceBranch(ss, args, outs, t.env, t).value.1;
      Spared(Through(ss, args), t.env.ents, t.heap, u.heap)
    decreases ss, 2
  {
    var (inner, heap) := Bind(args, t.env, Closure(t.env, ss), t.heap).value;
    BindFrame(args, t.env, Closure(t.env, ss), t.heap, |t.heap|);
    var v := t.(env := inner, heap := heap);
    BlockFrame(ss, v);
    var u := TraceBlock(ss, v).value;
    var kept := Through(ss, args);
    forall k, r | 0 <= k < |t.heap| && !Hits(kept, t.env.ents, k, r)
      ensures Lookup(u.heap[k], r) == Lookup(t.heap[k], r)
    {
      HitsThrough(ss, args, inner.ents, t.env.ents, |t.heap|, k, r);
      assert heap[k] == t.heap[k];
    }
  }

  lemma {:induction false} StmtFrame(s: Stmt, t: Tracing)
    requires Ready(t) && TraceStmt(s, t).Some?
    ensures var u := TraceStmt(s, t).value;
      Spared(StoredBy(s), t.env.ents, t.heap, u.heap) && SameVars(StoredBy(s), t.env.vars, u.env.vars)
    decreases s, 1
  {
    match s
    case Assign(target, e) =>
      var tr := TraceExpr(e, t.env, t.heap);
      WriteFrame(target, tr.n, t.(inputs := t.inputs + tr.inputs));
    case If(test, body, orelse, args, outs) =>
      var all, ents := StoredBy(s), t.env.ents;
      var c := TraceExpr(test, t.env, t.heap);
      var t0 := t.(inputs := t.inputs + c.inputs);
      var m := TraceBranch(body, args, outs, t.env, t0).value;
      BranchFrame(body, args, outs, t0);
      var n := TraceBranch(orelse, args, outs, t.env, m.1).value;
      BranchFrame(orelse, args, outs, m.1);
      JoinFrame(outs, c.n, m.0, n.0, n.1);
      var u := TraceStmt(s, t).value;
      SparedMore(Through(body, args), all, ents, t.heap, m.1.heap);
      SparedMore(Through(orelse, args), all, ents, m.1.heap, n.1.heap);
      SparedMore(AsSet(outs), all, ents, n.1.heap, u.heap);
      SparedTrans(all, ents, t.heap, m.1.heap, n.1.heap);
      SparedTrans(all, ents, t.heap, n.1.heap, u.heap);
  }

  /** A block changes only what it stores. */
  lemma {:induction false} BlockFrame(ss: seq<Stmt>, t: Tracing)
    requires Ready(t) && TraceBlock(ss, t).Some?
    ensures var u := TraceBlock(ss, t).value;
      Spared(Stored(ss), t.env.ents, t.heap, u.heap) && SameVars(Stored(ss), t.env.vars, u.env.vars)
    decreases ss, 0
  {
    if ss != [] {
      var w, all := TraceStmt(ss[0], t).value, Stored(ss);
      StmtFrame(ss[0], t);
      BlockFrame(ss[1..], w);
      var u := TraceBlock(ss, t).value;
      SparedMore(StoredBy(ss[0]), all, t.env.ents, t.heap, w.heap);
      SparedMore(Stored(ss[1..]), all, t.env.ents, w.heap, u.heap);
      SparedTrans(all, t.env.ents, t.heap, w.heap, u.heap);
    }
  }

  /** With distinct entities, only the symbol itself hits its entry. */
  lemma HitIsMember(ss: set<Symbol>, env: Env, d: View, q: Symbol)
    requires Agree(env, d) && Apart(d.ents) && q.Field? && q.base in env.ents && env.ents[q.base].ent.Has(q.member)
    ensures Hits(ss, env.ents, env.ents[q.base].dict, env.ents[q.base].RefTo(q.member)) ==> q in ss
  {
    var k, r := env.ents[q.base].dict, env.ents[q.base].RefTo(q.member);
    if Hits(ss, env.ents, k, r) {
      var s :| s in ss && s.Field? && s.base in env.ents && env.ents[s.base].ent.Has(s.member) &&
          env.ents[s.base].dict == k && env.ents[s.base].RefTo(s.member) == r;
      assert s.base == q.base;
      assert s == q;
    }
  }

  /** Symbols outside the set stay recorded as they were. */
  lemma SparedRecorded(ss: set<Symbol>, env: Env, heap: seq<Outputs>, heap': seq<Outputs>, d: View, q: Symbol)
    requires Handles(env, heap) && Agree(env, d) && Apart(d.ents) && Spared(ss, env.ents, heap, heap')
    requires q.Field? ==> q !in ss
    ensures Handles(env, heap') && NodeOf(q, env, heap') == NodeOf(q, env, heap)
  {
    if q.Field? && Writable(q, d.ents) { HitIsMember(ss, env, d, q); }
  }

  // ---------------------------------------------------------------- branches

  /** A deep copy in a new dictionary shows what the original shows. */
  lemma CopyMeaning(a: string, outer: Env, inner: Env, heap: seq<Outputs>, d: View, s0: Store)
    requires Related(outer, heap, d, s0) && Related(inner, heap, d, s0) && a in outer.ents
    ensures var k := outer.ents[a];
      Related(outer, heap + [heap[k.dict]], d, s0) &&
      Related(inner.(ents := inner.ents[a := k.(dict := |heap|)]), heap + [heap[k.dict]], d, s0)
  {
    var k := outer.ents[a];
    var inner', heap' := inner.(ents := inner.ents[a := k.(dict := |heap|)]), heap + [heap[k.dict]];
    forall s
      ensures Shows(outer, heap', d, s0, s)
    {
      assert Shows(outer, heap, d, s0, s);
    }
    forall s
      ensures Shows(inner', heap', d, s0, s)
    {
      assert Shows(if s.Field? && s.base == a then outer else inner, heap, d, s0, s);
    }
  }

  lemma VariableMeaning(a: string, outer: Env, inner: Env, heap: seq<Outputs>, d: View, s0: Store)
    requires Related(outer, heap, d, s0) && Related(inner, heap, d, s0) && a in outer.vars
    ensures Related(inner.(vars := inner.vars[a := outer.vars[a]]), heap, d, s0)
  {
    var inner' := inner.(vars := inner.vars[a := outer.vars[a]]);
    forall s
      ensures Shows(inner', heap, d, s0, s)
    {
      assert Shows(if s == Name(a) then outer else inner, heap, d, s0, s);
    }
  }

  /** Deep copies show the same values. */
  lemma {:induction false} BindMeaning(args: seq<string>, outer: Env, inner: Env, heap: seq<Outputs>, d: View,
      s0: Store)
    requires Related(outer, heap, d, s0) && Related(inner, heap, d, s0) && Bind(args, outer, inner, heap).Some?
    ensures var (env, h) := Bind(args, outer, inner, heap).value; Related(env, h, d, s0)
    decreases |args|
  {
    hide Related;
    if args != [] {
      var a := args[0];
      RelatedHandles(outer, heap, d, s0);
      RelatedHandles(inner, heap, d, s0);
      if a in outer.ents {
        var k := outer.ents[a];
        CopyMeaning(a, outer, inner, heap, d, s0);
        BindMeaning(args[1..], outer, inner.(ents := inner.ents[a := k.(dict := |heap|)]), heap + [heap[k.dict]], d,
            s0);
      } else {
        VariableMeaning(a, outer, inner, heap, d, s0);
        BindMeaning(args[1..], outer, inner.(vars := inner.vars[a := outer.vars[a]]), heap, d, s0);
      }
    }
  }

  lemma RelatedHandles(env: Env, heap: seq<Outputs>, d: View, s0: Store)
    requires Related(env, heap, d, s0)
    ensures Handles(env, heap)
  {
  }

  lemma ClosureMeaning(ss: seq<Stmt>, env: Env, heap: seq<Outputs>, d: View, s0: Store)
    requires Related(env, heap, d, s0)
    ensures Related(Closure(env, ss), heap, d, s0)
  {
    forall s
      ensures Shows(Closure(env, ss), heap, d, s0, s)
    {
      assert Shows(env, heap, d, s0, s);
    }
  }

  lemma {:induction false} ReadAllMeaning(ss: seq<Symbol>, env: Env, heap: seq<Outputs>, d: View, s0: Store, i: nat)
    requires Related(env, heap, d, s0) && ReadAll(ss, env, heap).Some? && i < |ss|
    ensures Eval(ReadAll(ss, env, heap).value.0[i], s0) == Reads(ss[i], d)
    ensures Writable(ss[i], d.ents)
    decreases |ss|
  {
    if i == 0 {
      ReadMeaning(ss[0], env, heap, d, s0);
    } else {
      ReadAllMeaning(ss[1..], env, heap, d, s0, i - 1);
    }
  }

  /** What the joined symbols record. */
  lemma {:induction false} JoinRecorded(ss: seq<Symbol>, c: Node, m: seq<Node>, n: seq<Node>, t: Tracing, d: View,
      q: Symbol, i: nat)
    requires Ready(t) && Agree(t.env, d) && Apart(d.ents) && |m| == |n| == |ss| && Join(ss, c, m, n, t).Some?
    requires forall i, j :: 0 <= i < j < |ss| ==> ss[i] != ss[j]
    requires i < |ss| ==> q == ss[i]
    requires i >= |ss| ==> q !in ss
    ensures var u := Join(ss, c, m, n, t).value;
      NodeOf(q, u.env, u.heap) == if i < |ss| then Some(Switch(c, m[i], n[i])) else NodeOf(q, t.env, t.heap)
    decreases |ss|
  {
    if ss != [] {
      var w := Write(ss[0], Switch(c, m[0], n[0]), t).value;
      WriteRecorded(ss[0], Switch(c, m[0], n[0]), t, d, q);
      if i == 0 {
        assert q !in ss[1..];
        JoinRecorded(ss[1..], c, m[1..], n[1..], w, d, q, |ss|);
      } else {
        JoinRecorded(ss[1..], c, m[1..], n[1..], w, d, q, i - 1);
      }
    }
  }

  // ---------------------------------------------------------------- when a trace is right

  /** The attribute is one of an entity that is not an argument. */
  ghost predicate Shared(r: Ref, d: View, args: seq<string>) {
    exists b :: b in d.ents && b !in args && d.ents[b].entity == r.entity
  }

  /** The state the second branch is traced in: the first left its attributes e in entities that are not arguments. */
  ghost function Leaked(d: View, e: View, args: seq<string>): View {
    d.(store := map r | r in d.store.Keys + e.store.Keys && r in (if Shared(r, d, args) then e.store else d.store) ::
                  (if Shared(r, d, args) then e.store[r] else d.store[r]))
  }

  lemma LeakedReads(d: View, e: View, args: seq<string>, q: Symbol)
    requires Apart(d.ents) && e.ents == d.ents
    ensures Reads(q, Leaked(d, e, args)) == Reads(q, if q.Field? && q.base !in args then e else d)
  {
    if q.Field? && Writable(q, d.ents) {
      assert Shared(d.ents[q.base].RefTo(q.member), d, args) <==> q.base !in args;
    }
  }

  /** The condition for tracing a block from t to be right for a run from d. */
  ghost predicate Sound(ss: seq<Stmt>, t: Tracing, d: View)
    requires Ready(t)
    decreases ss, 0
  {
    ss == [] ||
    (SoundStmt(ss[0], t, d) && (TraceStmt(ss[0], t).Some? ==>
        Sound(ss[1..], TraceStmt(ss[0], t).value, RunStmt(ss[0], d))))
  }

  /** An assignment whose write is dropped assigns what the symbol holds. Of an if statement the branch taken is traced
      right; and when that is the second, what the first leaves in entities that are not arguments makes no difference
      to the output symbols. */
  ghost predicate SoundStmt(s: Stmt, t: Tracing, d: View)
    requires Ready(t)
    decreases s, 1
  {
    match s
    case Assign(target, e) =>
      TraceExpr(e, t.env, t.heap).Built? && Stale(target, TraceExpr(e, t.env, t.heap).n, t) ==>
        ViewExpr(e, d) == Reads(target, d)
    case If(test, body, orelse, args, outs) =>
      TraceStmt(s, t).Some? ==>
        var t0 := Tested(s, t);
        var t1 := TraceBranch(body, args, outs, t.env, t0).value.1;
        (TakesFirst(ViewExpr(test, d)) ==> SoundBranch(body, args, t0, d)) &&
        (TakesSecond(ViewExpr(test, d)) ==>
          if Covered(body, args) then SoundBranch(orelse, args, t1, d)
          else
            var l := Leaked(d, RunBlock(body, d), args);
            SoundBranch(body, args, t0, d) && SoundBranch(orelse, args, t1, l) && SameOutputs(orelse, outs, d, l))
  }

  ghost predicate SoundBranch(ss: seq<Stmt>, args: seq<string>, t: Tracing, d: View)
    requires Ready(t)
    decreases ss, 2
  {
    match Bind(args, t.env, Closure(t.env, ss), t.heap)
    case None => true
    case Some((inner, heap)) => Sound(ss, t.(env := inner, heap := heap), d)
  }

  /** Running the block from either state leaves the same in the output symbols. */
  ghost predicate SameOutputs(ss: seq<Stmt>, outs: seq<Symbol>, d: View, l: View) {
    forall q :: q in outs ==> Reads(q, RunBlock(ss, l)) == Reads(q, RunBlock(ss, d))
  }

  /** The state after the test of an if statement is traced. */
  function Tested(s: Stmt, t: Tracing): (r: Tracing)
    requires s.If? && Ready(t)
    ensures Ready(r) && r.env == t.env && r.heap == t.heap && r.stale == t.stale
  {
    var k := TraceExpr(s.test, t.env, t.heap);
    if k.Built? then t.(inputs := t.inputs + k.inputs) else t
  }

  // ---------------------------------------------------------------- statements

  /** A branch traced right returns what running it leaves in its symbols. */
  lemma {:induction false} BranchMeaning(ss: seq<Stmt>, args: seq<string>, outs: seq<Symbol>, t: Tracing, d: View,
      s0: Store, i: nat)
    requires Related(t.env, t.heap, d, s0) && Apart(d.ents) && Listed(ss) && SoundBranch(ss, args, t, d)
    requires TraceBranch(ss, args, outs, t.env, t).Some? && i < |outs|
    ensures Eval(TraceBranch(ss, args, outs, t.env, t).value.0[i], s0) == Reads(outs[i], RunBlock(ss, d))
    ensures Writable(outs[i], d.ents)
    decreases ss, 2
  {
    var (inner, heap) := Bind(args, t.env, Closure(t.env, ss), t.heap).value;
    ClosureMeaning(ss, t.env, t.heap, d, s0);
    BindMeaning(args, t.env, Closure(t.env, ss), t.heap, d, s0);
    var v := t.(env := inner, heap := heap);
    BlockMeaning(ss, v, d, s0);
    RunFrame(ss, d, Name(""));
    var u := TraceBlock(ss, v).value;
    ReadAllMeaning(outs, u.env, u.heap, RunBlock(ss, d), s0, i);
  }

  /** After the first branch the caller's state is as before: its writes went to copies. */
  lemma FirstBranchIsolated(body: seq<Stmt>, args: seq<string>, outs: seq<Symbol>, t: Tracing, d: View, s0: Store)
    requires Related(t.env, t.heap, d, s0) && Apart(d.ents) && TraceBranch(body, args, outs, t.env, t).Some?
    requires Covered(body, args)
    ensures Related(t.env, TraceBranch(body, args, outs, t.env, t).value.1.heap, d, s0)
  {
    var u := TraceBranch(body, args, outs, t.env, t).value.1;
    BranchFrame(body, args, outs, t);
    forall s
      ensures Shows(t.env, u.heap, d, s0, s)
    {
      assert Shows(t.env, t.heap, d, s0, s);
      SparedRecorded(Through(body, args), t.env, t.heap, u.heap, d, s);
    }
  }

  /** In general the caller's state is the leaked one: the writes to arguments went to copies, the others did not. */
  lemma {:induction false} FirstBranchLeaks(body: seq<Stmt>, args: seq<string>, outs: seq<Symbol>, t: Tracing, d: View,
      s0: Store)
    requires Related(t.env, t.heap, d, s0) && Apart(d.ents) && Listed(body) && SoundBranch(body, args, t, d)
    requires TraceBranch(body, args, outs, t.env, t).Some?
    ensures Related(t.env, TraceBranch(body, args, outs, t.env, t).value.1.heap, Leaked(d, RunBlock(body, d), args), s0)
    decreases body, 2
  {
    var (inner, heap) := Bind(args, t.env, Closure(t.env, body), t.heap).value;
    ClosureMeaning(body, t.env, t.heap, d, s0);
    BindMeaning(args, t.env, Closure(t.env, body), t.heap, d, s0);
    var v := t.(env := inner, heap := heap);
    BlockMeaning(body, v, d, s0);
    BindOthers(args, t.env, Closure(t.env, body), t.heap);
    BranchFrame(body, args, outs, t);
    var u, e := TraceBlock(body, v).value, RunBlock(body, d);
    RunFrame(body, d, Name(""));
    forall s
      ensures Shows(t.env, u.heap, Leaked(d, e, args), s0, s)
    {
      LeakedShows(body, args, t.env, t.heap, u.env, u.heap, d, e, s0, s);
    }
  }

  lemma LeakedShows(body: seq<Stmt>, args: seq<string>, env: Env, heap: seq<Outputs>, env': Env, heap': seq<Outputs>,
      d: View, e: View, s0: Store, s: Symbol)
    requires Related(env, heap, d, s0) && Related(env', heap', e, s0) && Apart(d.ents) && e.ents == d.ents
    requires Spared(Through(body, args), env.ents, heap, heap') && Handles(env, heap')
    requires forall b :: b in env.ents && b !in args ==> b in env'.ents && env'.ents[b] == env.ents[b]
    ensures Shows(env, heap', Leaked(d, e, args), s0, s)
  {
    LeakedReads(d, e, args, s);
    if s.Field? && s.base in d.ents && s.base !in args {
      assert Shows(env', heap', e, s0, s);
    } else if s.Name? || s.base in d.ents {
      assert Shows(env, heap, d, s0, s);
      SparedRecorded(Through(body, args), env, heap, heap', d, s);
    }
  }

  /** Binding leaves the entity variables that are not arguments. */
  lemma {:induction false} BindOthers(args: seq<string>, outer: Env, inner: Env, heap: seq<Outputs>)
    requires Handles(outer, heap) && Handles(inner, heap) && Bind(args, outer, inner, heap).Some?
    ensures var (env, h) := Bind(args, outer, inner, heap).value;
      forall b :: b in inner.ents && b !in args ==> b in env.ents && env.ents[b] == inner.ents[b]
    decreases |args|
  {
    if args != [] {
      var a := args[0];
      if a in outer.ents {
        var k := outer.ents[a];
        BindOthers(args[1..], outer, inner.(ents := inner.ents[a := k.(dict := |heap|)]), heap + [heap[k.dict]]);
      } else {
        BindOthers(args[1..], outer, inner.(vars := inner.vars[a := outer.vars[a]]), heap);
      }
    }
  }

  /** The state before the two branches are joined, and the parts of the trace of an if statement. */
  lemma IfParts(s: Stmt, t: Tracing) returns (c: Node, t0: Tracing, m: seq<Node>, t1: Tracing, n: seq<Node>,
      t2: Tracing)
    requires s.If? && Ready(t) && TraceStmt(s, t).Some?
    ensures TraceExpr(s.test, t.env, t.heap).Built? && TraceExpr(s.test, t.env, t.heap).n == c
    ensures t0.env == t1.env == t2.env == t.env && Ready(t0) && Ready(t1) && Ready(t2)
    ensures t0 == Tested(s, t)
    ensures TraceBranch(s.body, s.args, s.outs, t.env, t0) == Some((m, t1))
    ensures TraceBranch(s.orelse, s.args, s.outs, t.env, t1) == Some((n, t2))
    ensures |m| == |n| == |s.outs| && Join(s.outs, c, m, n, t2) == TraceStmt(s, t)
    ensures !TraceStmt(s, t).value.stale ==> !t1.stale && !t2.stale
  {
    var k := TraceExpr(s.test, t.env, t.heap);
    c, t0 := k.n, Tested(s, t);
    m, t1 := TraceBranch(s.body, s.args, s.outs, t.env, t0).value.0,
        TraceBranch(s.body, s.args, s.outs, t.env, t0).value.1;
    n, t2 := TraceBranch(s.orelse, s.args, s.outs, t.env, t1).value.0,
        TraceBranch(s.orelse, s.args, s.outs, t.env, t1).value.1;
  }

  /** A joined symbol's switch, with what the two branches returned. */
  lemma JoinedNode(s: Stmt, t: Tracing, d: View, s0: Store, i: nat)
    requires s.If? && Related(t.env, t.heap, d, s0) && Apart(d.ents) && ListedStmt(s) && TraceStmt(s, t).Some? &&
        i < |s.outs|
    ensures var u, t0 := TraceStmt(s, t).value, Tested(s, t);
      var t1 := TraceBranch(s.body, s.args, s.outs, t.env, t0).value.1;
      NodeOf(s.outs[i], u.env, u.heap).Some? && Writable(s.outs[i], d.ents) &&
      Eval(NodeOf(s.outs[i], u.env, u.heap).value, s0) ==
      Pick(ViewExpr(s.test, d), Eval(TraceBranch(s.body, s.args, s.outs, t.env, t0).value.0[i], s0),
           Eval(TraceBranch(s.orelse, s.args, s.outs, t.env, t1).value.0[i], s0))
  {
    var c, t0, m, t1, n, t2 := IfParts(s, t);
    ExprMeaning(s.test, t.env, t.heap, d, s0);
    JoinRecorded(s.outs, c, m, n, t2, d, s.outs[i], i);
    JoinWritable(s.outs, c, m, n, t2, i);
  }

  lemma {:induction false} JoinWritable(ss: seq<Symbol>, c: Node, m: seq<Node>, n: seq<Node>, t: Tracing, i: nat)
    requires Ready(t) && |m| == |n| == |ss| && Join(ss, c, m, n, t).Some? && i < |ss|
    ensures ss[i].Field? ==> ss[i].base in t.env.ents && t.env.ents[ss[i].base].ent.Has(ss[i].member)
    decreases |ss|
  {
    if i > 0 { JoinWritable(ss[1..], c, m[1..], n[1..], Write(ss[0], Switch(c, m[0], n[0]), t).value, i - 1); }
  }

  /** A joined symbol's switch evaluates to what the branch taken leaves in the symbol. */
  lemma JoinedMeaning(s: Stmt, t: Tracing, d: View, s0: Store, i: nat)
    requires s.If? && Related(t.env, t.heap, d, s0) && Apart(d.ents) && ListedStmt(s) && SoundStmt(s, t, d)
    requires TraceStmt(s, t).Some? && i < |s.outs|
    ensures var u := TraceStmt(s, t).value; Shows(u.env, u.heap, RunStmt(s, d), s0, s.outs[i])
    decreases s, 0
  {
    var c, t0, m, t1, n, t2 := IfParts(s, t);
    JoinedNode(s, t, d, s0, i);
    PutAllReads(s.outs, ViewExpr(s.test, d), RunBlock(s.body, d), RunBlock(s.orelse, d), d, s.outs[i]);
    if TakesFirst(ViewExpr(s.test, d)) {
      BranchMeaning(s.body, s.args, s.outs, t0, d, s0, i);
    } else if TakesSecond(ViewExpr(s.test, d)) {
      if Covered(s.body, s.args) {
        FirstBranchIsolated(s.body, s.args, s.outs, t0, d, s0);
        BranchMeaning(s.orelse, s.args, s.outs, t1, d, s0, i);
      } else {
        FirstBranchLeaks(s.body, s.args, s.outs, t0, d, s0);
        BranchMeaning(s.orelse, s.args, s.outs, t1, Leaked(d, RunBlock(s.body, d), s.args), s0, i);
      }
    }
  }

  /** When the second branch is taken, a joined symbol's switch evaluates to what that branch leaves in it run on what
      the first left in entities that are not arguments. */
  lemma LeakedMeaning(s: Stmt, t: Tracing, d: View, s0: Store, i: nat)
    requires s.If? && Related(t.env, t.heap, d, s0) && Apart(d.ents) && ListedStmt(s)
    requires TraceStmt(s, t).Some? && i < |s.outs| && TakesSecond(ViewExpr(s.test, d))
    requires SoundBranch(s.body, s.args, Tested(s, t), d)
    requires SoundBranch(s.orelse, s.args, TraceBranch(s.body, s.args, s.outs, t.env, Tested(s, t)).value.1,
                         Leaked(d, RunBlock(s.body, d), s.args))
    ensures var u, l := TraceStmt(s, t).value, Leaked(d, RunBlock(s.body, d), s.args);
      NodeOf(s.outs[i], u.env, u.heap).Some? &&
      Eval(NodeOf(s.outs[i], u.env, u.heap).value, s0) == Reads(s.outs[i], RunBlock(s.orelse, l))
  {
    var c, t0, m, t1, n, t2 := IfParts(s, t);
    JoinedNode(s, t, d, s0, i);
    FirstBranchLeaks(s.body, s.args, s.outs, t0, d, s0);
    BranchMeaning(s.orelse, s.args, s.outs, t1, Leaked(d, RunBlock(s.body, d), s.args), s0, i);
  }

  /** So, whatever the arguments, a joined symbol shows what the statement leaves in it exactly when the second branch
      is not taken, or leaves the same in it run on what the first left. The first need not run without a failure. */
  lemma SharedBranchMeaning(s: Stmt, t: Tracing, d: View, s0: Store, i: nat)
    requires s.If? && Related(t.env, t.heap, d, s0) && Apart(d.ents) && ListedStmt(s)
    requires TraceStmt(s, t).Some? && i < |s.outs|
    requires SoundBranch(s.body, s.args, Tested(s, t), d)
    requires TakesSecond(ViewExpr(s.test, d)) ==>
               SoundBranch(s.orelse, s.args, TraceBranch(s.body, s.args, s.outs, t.env, Tested(s, t)).value.1,
                           Leaked(d, RunBlock(s.body, d), s.args))
    ensures var u, l := TraceStmt(s, t).value, Leaked(d, RunBlock(s.body, d), s.args);
      Shows(u.env, u.heap, RunStmt(s, d), s0, s.outs[i]) <==>
      (!TakesSecond(ViewExpr(s.test, d)) ||
       Reads(s.outs[i], RunBlock(s.orelse, l)) == Reads(s.outs[i], RunBlock(s.orelse, d)))
  {
    if TakesSecond(ViewExpr(s.test, d)) {
      LeakedMeaning(s, t, d, s0, i);
      JoinedNode(s, t, d, s0, i);
      PutAllReads(s.outs, ViewExpr(s.test, d), RunBlock(s.body, d), RunBlock(s.orelse, d), d, s.outs[i]);
    } else {
      JoinedMeaning(s, t, d, s0, i);
    }
  }

  /** A symbol that the statement does not join is as before. */
  lemma UnjoinedMeaning(s: Stmt, t: Tracing, d: View, s0: Store, q: Symbol)
    requires s.If? && Related(t.env, t.heap, d, s0) && Apart(d.ents) && ListedStmt(s) && q !in s.outs
    requires TraceStmt(s, t).Some?
    ensures var u := TraceStmt(s, t).value; Shows(u.env, u.heap, RunStmt(s, d), s0, q)
  {
    hide Isolated, Sound, Hits, RunBlock, ViewExpr;
    var c, t0, m, t1, n, t2 := IfParts(s, t);
    assert Shows(t.env, t.heap, d, s0, q);
    BranchFrame(s.body, s.args, s.outs, t0);
    BranchFrame(s.orelse, s.args, s.outs, t1);
    SparedRecorded(Through(s.body, s.args), t.env, t.heap, t1.heap, d, q);
    SparedRecorded(Through(s.orelse, s.args), t.env, t1.heap, t2.heap, d, q);
    JoinRecorded(s.outs, c, m, n, t2, d, q, |s.outs|);
    PutAllReads(s.outs, ViewExpr(s.test, d), RunBlock(s.body, d), RunBlock(s.orelse, d), d, q);
  }

  lemma {:induction false} StmtMeaning(s: Stmt, t: Tracing, d: View, s0: Store)
    requires Related(t.env, t.heap, d, s0) && Apart(d.ents) && ListedStmt(s) && SoundStmt(s, t, d)
    requires TraceStmt(s, t).Some?
    ensures var u := TraceStmt(s, t).value; Related(u.env, u.heap, RunStmt(s, d), s0)
    decreases s, 1
  {
    match s
    case Assign(target, e) =>
      var k := TraceExpr(e, t.env, t.heap);
      ExprMeaning(e, t.env, t.heap, d, s0);
      WriteMeaning(target, k.n, t.(inputs := t.inputs + k.inputs), d, s0);
    case If(test, body, orelse, args, outs) =>
      var u, e := TraceStmt(s, t).value, RunStmt(s, d);
      forall q
        ensures Shows(u.env, u.heap, e, s0, q)
      {
        if q in outs {
          var i :| 0 <= i < |outs| && outs[i] == q;
          JoinedMeaning(s, t, d, s0, i);
        } else {
          UnjoinedMeaning(s, t, d, s0, q);
        }
      }
      RunStmtFrame(s, d, Name(""));
  }

  /** Whatever the nesting of if statements, a trace stays related to the run: every symbol's node evaluates on the
      initial store to what reading the symbol gives after the run. */
  lemma {:induction false} BlockMeaning(ss: seq<Stmt>, t: Tracing, d: View, s0: Store)
    requires Related(t.env, t.heap, d, s0) && Apart(d.ents) && Listed(ss) && Sound(ss, t, d)
    requires TraceBlock(ss, t).Some?
    ensures var u := TraceBlock(ss, t).value; Related(u.env, u.heap, RunBlock(ss, d), s0)
    decreases ss, 0
  {
    if ss != [] {
      StmtMeaning(ss[0], t, d, s0);
      RunStmtFrame(ss[0], d, Name(""));
      BlockMeaning(ss[1..], TraceStmt(ss[0], t).value, RunStmt(ss[0], d), s0);
    }
  }

  // ---------------------------------------------------------------- conditions on the code and its trace alone

  /** Code whose first branches write only to arguments, and whose trace drops no write over an earlier one, is traced
      right, whatever the run. */
  lemma {:induction false} IsolatedSound(ss: seq<Stmt>, t: Tracing, d: View)
    requires Ready(t) && Isolated(ss) && TraceBlock(ss, t).Some? && !TraceBlock(ss, t).value.stale
    ensures Sound(ss, t, d)
    decreases ss, 0
  {
    if ss != [] {
      IsolatedSoundStmt(ss[0], t, d);
      IsolatedSound(ss[1..], TraceStmt(ss[0], t).value, RunStmt(ss[0], d));
    }
  }

  lemma {:induction false} IsolatedSoundStmt(s: Stmt, t: Tracing, d: View)
    requires Ready(t) && IsolatedStmt(s) && TraceStmt(s, t).Some? && !TraceStmt(s, t).value.stale
    ensures SoundStmt(s, t, d)
    decreases s, 1
  {
    if s.If? {
      var c, t0, m, t1, n, t2 := IfParts(s, t);
      IsolatedSoundBranch(s.body, s.args, s.outs, t0, d);
      IsolatedSoundBranch(s.orelse, s.args, s.outs, t1, d);
    }
  }

  lemma {:induction false} IsolatedSoundBranch(ss: seq<Stmt>, args: seq<string>, outs: seq<Symbol>, t: Tracing, d: View)
    requires Ready(t) && Isolated(ss)
    requires TraceBranch(ss, args, outs, t.env, t).Some? && !TraceBranch(ss, args, outs, t.env, t).value.1.stale
    ensures SoundBranch(ss, args, t, d)
    decreases ss, 2
  {
    var (inner, heap) := Bind(args, t.env, Closure(t.env, ss), t.heap).value;
    IsolatedSound(ss, t.(env := inner, heap := heap), d);
  }
}
