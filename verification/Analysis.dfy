/** What the activity analysis finds on the if statements of a convert function, and what tracing makes of it. */
module Analysis {
  import opened Values
  import opened Graph
  import opened Components
  import opened Tracer
  import opened Views
  import opened TraceMeaning
  import opened Compile
  import opened Activity

  // ---------------------------------------------------------------- where symbols are defined

  /** A block of code, by the positions of the if statements around it; a conditional expression is a block
      without statements. */
  datatype Block = Code(path: seq<nat>) | Conditional

  /** An assignment directly in a block. */
  datatype Definition = Definition(sym: Symbol, path: seq<nat>)

  /** The assignments in statements i, i + 1, ... of the block at the path. Both branches of an if statement are
      one block. */
  function Definitions(ss: seq<Stmt>, path: seq<nat>, i: nat): set<Definition>
    decreases ss, 0
  {
    if ss == [] then {} else DefinedBy(ss[0], path, i) + Definitions(ss[1..], path, i + 1)
  }

  function DefinedBy(s: Stmt, path: seq<nat>, i: nat): set<Definition>
    decreases s, 1
  {
    match s
    case Assign(target, _) => {Definition(target, path)}
    case If(_, body, orelse, _, _) =>
      Definitions(body, path + [i], 0) + Definitions(orelse, path + [i], |body|)
  }

  /** What the analysis knows where a symbol is used: the symbols assigned before in the text, all assignments of
      the function, and the block. Resolving keeps one list of definitions a symbol, so later ones are in it too. */
  datatype Scope = Scope(seen: set<Symbol>, defs: set<Definition>, block: Block)

  /** The symbol has been defined, and some definition of it stands in another block. */
  predicate Outside(s: Symbol, c: Scope) {
    s in c.seen && exists d :: d in c.defs && d.sym == s && Code(d.path) != c.block
  }

  function Use(s: Symbol, c: Scope): Tree {
    Tree(false, Some(Occurrence(s, Load, Outside(s, c))), [])
  }

  // ---------------------------------------------------------------- syntax trees

  function ExprTree(e: Expr, c: Scope): Tree {
    match e
    case Lit(_) => Tree(false, Option.None, [])
    case Var(x) => Use(Name(x), c)
    case Attr(b, m) => Use(Field(b, m), c)
    case Oper(_, a, b) => Tree(false, Option.None, [ExprTree(a, c), ExprTree(b, c)])
    case IfExp(k, t, f) =>
      var inner := c.(block := Conditional);
      Tree(true, Option.None, [ExprTree(k, inner), ExprTree(t, inner), ExprTree(f, inner)])
  }

  /** The scope in the branches of statement i: the test and the first branch, and the second. */
  function InFirst(i: nat, c: Scope): (r: Scope)
    requires c.block.Code?
    ensures r.block.Code?
  {
    c.(block := Code(c.block.path + [i]))
  }

  function InSecond(s: Stmt, i: nat, c: Scope): (r: Scope)
    requires s.If? && c.block.Code?
    ensures r.block.Code?
  {
    InFirst(i, c).(seen := c.seen + Assigned(s.body))
  }

  function Later(s: Stmt, c: Scope): (r: Scope)
    ensures r.block == c.block
  {
    c.(seen := c.seen + AssignedBy(s))
  }

  /** Resolving visits an assignment's target before its value. */
  function StmtTree(s: Stmt, i: nat, c: Scope): Tree
    requires c.block.Code?
    decreases s, 1
  {
    match s
    case Assign(target, e) =>
      Tree(false, Option.None, [Tree(false, Some(Occurrence(target, Store, false)), []),
          ExprTree(e, c.(seen := c.seen + {target}))])
    case If(test, body, orelse, _, _) =>
      Tree(true, Option.None,
           [ExprTree(test, InFirst(i, c))] + BlockTrees(body, 0, InFirst(i, c)) + BlockTrees(orelse, |body|,
               InSecond(s, i, c)))
  }

  function BlockTrees(ss: seq<Stmt>, i: nat, c: Scope): (r: seq<Tree>)
    requires c.block.Code?
    ensures |r| == |ss|
    decreases ss, 0
  {
    if ss == [] then [] else [StmtTree(ss[0], i, c)] + BlockTrees(ss[1..], i + 1, Later(ss[0], c))
  }

  /** Symbols assigned anywhere in the code, whatever its annotations. */
  function Assigned(ss: seq<Stmt>): set<Symbol>
    decreases ss, 0
  {
    if ss == [] then {} else AssignedBy(ss[0]) + Assigned(ss[1..])
  }

  function AssignedBy(s: Stmt): set<Symbol>
    decreases s, 1
  {
    match s
    case Assign(target, _) => {target}
    case If(_, body, orelse, _, _) => Assigned(body) + Assigned(orelse)
  }

  // ---------------------------------------------------------------- annotated code

  /** The output symbols and the arguments of every if statement are the keys the analysis leaves on it. */
  ghost predicate Analyzed(ss: seq<Stmt>, i: nat, c: Scope)
    requires c.block.Code?
    decreases ss, 0
  {
    ss == [] || (AnalyzedStmt(ss[0], i, c) && Analyzed(ss[1..], i + 1, Later(ss[0], c)))
  }

  ghost predicate AnalyzedStmt(s: Stmt, i: nat, c: Scope)
    requires c.block.Code?
    decreases s, 1
  {
    s.If? ==>
      (exists a :: Exact(a, StmtTree(s, i, c)) && a.outs == s.outs && a.baseIns == s.args) &&
      Analyzed(s.body, 0, InFirst(i, c)) && Analyzed(s.orelse, |s.body|, InSecond(s, i, c))
  }

  /** Every if statement takes its arguments and output symbols from its node of the analyzed tree. */
  ghost predicate TakesFrom(ss: seq<Stmt>, ns: seq<Ast>)
    requires forall n :: n in ns ==> n.Valid()
    reads set n, m | n in ns && m in n.nodes :: m
    decreases ss, 0
  {
    |ns| == |ss| && (ss != [] ==> TakesFromNode(ss[0], ns[0]) && TakesFrom(ss[1..], ns[1..]))
  }

  ghost predicate TakesFromNode(s: Stmt, n: Ast)
    requires n.Valid()
    reads n.nodes
    decreases s, 1
  {
    s.If? ==>
      n.active.outs == s.outs && n.active.baseIns == s.args && |n.children| == 1 + |s.body| + |s.orelse| &&
      TakesFrom(s.body, n.children[1..1 + |s.body|]) && TakesFrom(s.orelse, n.children[1 + |s.body|..])
  }

  ghost predicate AllLabelled(ns: seq<Ast>)
    requires forall n :: n in ns ==> n.Valid()
    reads set n, m | n in ns && m in n.nodes :: m
  {
    forall n :: n in ns ==> n.Labelled()
  }

  /** What the passes leave on the tree of the code is what the statements take. */
  lemma {:induction false} LabelledAnalyzed(ss: seq<Stmt>, ns: seq<Ast>, i: nat, c: Scope)
    requires c.block.Code? && (forall n :: n in ns ==> n.Valid()) && TakesFrom(ss, ns) && AllLabelled(ns)
    requires forall k :: 0 <= k < |ss| ==> ns[k].tree == BlockTrees(ss, i, c)[k]
    ensures Analyzed(ss, i, c)
    decreases ss, 0
  {
    if ss != [] {
      var rest := BlockTrees(ss[1..], i + 1, Later(ss[0], c));
      assert BlockTrees(ss, i, c) == [StmtTree(ss[0], i, c)] + rest;
      LabelledAnalyzedStmt(ss[0], ns[0], i, c);
      assert forall k :: 0 <= k < |rest| ==> ns[1..][k].tree == rest[k];
      LabelledAnalyzed(ss[1..], ns[1..], i + 1, Later(ss[0], c));
    }
  }

  lemma {:induction false} LabelledAnalyzedStmt(s: Stmt, n: Ast, i: nat, c: Scope)
    requires c.block.Code? && n.Valid() && TakesFromNode(s, n) && n.Labelled() && n.tree == StmtTree(s, i, c)
    ensures AnalyzedStmt(s, i, c)
    decreases s, 1
  {
    hide Assigned, Definitions, Within, ExprTree, BlockTrees, Exact;
    if s.If? {
      var x, y := BlockTrees(s.body, 0, InFirst(i, c)), BlockTrees(s.orelse, |s.body|, InSecond(s, i, c));
      LabelledBranches(n, [ExprTree(s.test, InFirst(i, c))], x, y);
      LabelledAnalyzed(s.body, n.children[1..1 + |s.body|], 0, InFirst(i, c));
      LabelledAnalyzed(s.orelse, n.children[1 + |s.body|..], |s.body|, InSecond(s, i, c));
      LabelledExact(n);
    }
  }

  lemma LabelledExact(n: Ast)
    requires n.Valid() && n.tree.isBlock && n.Labelled()
    ensures Exact(n.active, n.tree)
  {
    hide Exact;
  }

  lemma LabelledBranches(n: Ast, t: seq<Tree>, x: seq<Tree>, y: seq<Tree>)
    requires n.Valid() && n.Labelled() && |t| == 1 && n.tree.children == t + x + y
    ensures |n.children| == 1 + |x| + |y| && forall m :: m in n.children ==> m.Valid()
    ensures AllLabelled(n.children[1..1 + |x|]) && AllLabelled(n.children[1 + |x|..])
    ensures forall k :: 0 <= k < |x| ==> n.children[1..1 + |x|][k].tree == x[k]
    ensures forall k :: 0 <= k < |y| ==> n.children[1 + |x|..][k].tree == y[k]
  {
    hide Exact;
    forall k | 0 <= k < |n.children|
      ensures n.children[k].tree == n.tree.children[k] && n.children[k].Labelled()
    {
    }
  }

  // ---------------------------------------------------------------- output symbols

  /** Some tree of the list, its root included, offers the key. */
  ghost predicate Offered(ts: seq<Tree>, k: Key) {
    exists i :: 0 <= i < |ts| && (Offers(ts[i].symbol, k) || Within(ts[i], k))
  }

  lemma OfferedParts(a: seq<Tree>, b: seq<Tree>, k: Key)
    ensures Offered(a + b, k) <==> Offered(a, k) || Offered(b, k)
  {
    if i :| 0 <= i < |a| && (Offers(a[i].symbol, k) || Within(a[i], k)) { assert (a + b)[i] == a[i]; }
    if i :| 0 <= i < |b| && (Offers(b[i].symbol, k) || Within(b[i], k)) { assert (a + b)[|a| + i] == b[i]; }
    if i :| 0 <= i < |a + b| && (Offers((a + b)[i].symbol, k) || Within((a + b)[i], k)) {
      assert if i < |a| then (a + b)[i] == a[i] else (a + b)[i] == b[i - |a|];
    }
  }

  lemma OfferedOne(t: Tree, k: Key)
    ensures Offered([t], k) <==> Offers(t.symbol, k) || Within(t, k)
  {
    assert [t][0] == t;
  }

  lemma WithinOffered(t: Tree, k: Key)
    ensures Within(t, k) <==> Offered(t.children, k)
  {
    WithinChildren(t, k);
  }

  /** Inside an if statement are its test and its branches. */
  lemma IfOffers(s: Stmt, i: nat, c: Scope, k: Key)
    requires s.If? && c.block.Code?
    ensures Within(StmtTree(s, i, c), k) <==>
            Offered([ExprTree(s.test, InFirst(i, c))], k) || Offered(BlockTrees(s.body, 0, InFirst(i, c)), k) ||
            Offered(BlockTrees(s.orelse, |s.body|, InSecond(s, i, c)), k)
  {
    var x, y, z := [ExprTree(s.test, InFirst(i, c))], BlockTrees(s.body, 0, InFirst(i, c)),
        BlockTrees(s.orelse, |s.body|, InSecond(s, i, c));
    WithinOffered(StmtTree(s, i, c), k);
    OfferedParts(x + y, z, k);
    OfferedParts(x, y, k);
  }

  lemma AssignOffers(s: Stmt, i: nat, c: Scope, k: Key)
    requires s.Assign? && c.block.Code?
    ensures Within(StmtTree(s, i, c), k) <==>
            Offers(Some(Occurrence(s.target, Store, false)), k) ||
                Offered([ExprTree(s.e, c.(seen := c.seen + {s.target}))], k)
  {
    var x, y := Tree(false, Some(Occurrence(s.target, Store, false)), []),
        ExprTree(s.e, c.(seen := c.seen + {s.target}));
    WithinOffered(StmtTree(s, i, c), k);
    OfferedOne(x, k);
    assert StmtTree(s, i, c).children == [x] + [y];
    OfferedParts([x], [y], k);
  }

  /** Expressions store nothing. */
  lemma {:induction false} ExprOuts(e: Expr, c: Scope, x: Symbol)
    ensures !Offered([ExprTree(e, c)], Out(x))
    decreases e
  {
    var t, k := ExprTree(e, c), Out(x);
    OfferedOne(t, k);
    WithinOffered(t, k);
    match e
    case Oper(_, a, b) =>
      ExprOuts(a, c, x);
      ExprOuts(b, c, x);
      assert t.children == [ExprTree(a, c)] + [ExprTree(b, c)];
      OfferedParts([ExprTree(a, c)], [ExprTree(b, c)], k);
    case IfExp(p, a, b) =>
      var d := c.(block := Conditional);
      ExprOuts(p, d, x);
      ExprOuts(a, d, x);
      ExprOuts(b, d, x);
      assert t.children == [ExprTree(p, d)] + ([ExprTree(a, d)] + [ExprTree(b, d)]);
      OfferedParts([ExprTree(a, d)], [ExprTree(b, d)], k);
      OfferedParts([ExprTree(p, d)], [ExprTree(a, d)] + [ExprTree(b, d)], k);
    case _ =>
  }

  /** The output symbols of a statement are exactly those assigned anywhere in it. */
  lemma {:induction false} StmtOuts(s: Stmt, i: nat, c: Scope, x: Symbol)
    requires c.block.Code?
    ensures Within(StmtTree(s, i, c), Out(x)) <==> x in AssignedBy(s)
    decreases s, 1
  {
    match s
    case Assign(target, e) =>
      AssignOffers(s, i, c, Out(x));
      ExprOuts(e, c.(seen := c.seen + {target}), x);
    case If(test, body, orelse, _, _) =>
      IfOffers(s, i, c, Out(x));
      ExprOuts(test, InFirst(i, c), x);
      BlockOuts(body, 0, InFirst(i, c), x);
      BlockOuts(orelse, |body|, InSecond(s, i, c), x);
  }

  lemma {:induction false} BlockOuts(ss: seq<Stmt>, i: nat, c: Scope, x: Symbol)
    requires c.block.Code?
    ensures Offered(BlockTrees(ss, i, c), Out(x)) <==> x in Assigned(ss)
    decreases ss, 0
  {
    if ss != [] {
      StmtOuts(ss[0], i, c, x);
      BlockOuts(ss[1..], i + 1, Later(ss[0], c), x);
      OfferedOne(StmtTree(ss[0], i, c), Out(x));
      OfferedParts([StmtTree(ss[0], i, c)], BlockTrees(ss[1..], i + 1, Later(ss[0], c)), Out(x));
    }
  }

  /** Annotations change nothing about what is assigned, and the output symbols are listed. */
  lemma {:induction false} AnalyzedListed(s: Stmt, i: nat, c: Scope)
    requires c.block.Code? && AnalyzedStmt(s, i, c)
    ensures ListedStmt(s) && StoredBy(s) == AssignedBy(s)
    ensures s.If? ==> forall x :: x in s.outs <==> x in AssignedBy(s)
    decreases s, 1
  {
    if s.If? {
      AnalyzedStored(s.body, 0, InFirst(i, c));
      AnalyzedStored(s.orelse, |s.body|, InSecond(s, i, c));
      forall x
        ensures x in s.outs <==> x in AssignedBy(s)
      {
        StmtOuts(s, i, c, x);
        var a :| Exact(a, StmtTree(s, i, c)) && a.outs == s.outs && a.baseIns == s.args;
        assert Has(a, Out(x)) <==> Within(StmtTree(s, i, c), Out(x));
      }
    }
  }

  lemma {:induction false} AnalyzedStored(ss: seq<Stmt>, i: nat, c: Scope)
    requires c.block.Code? && Analyzed(ss, i, c)
    ensures Listed(ss) && Stored(ss) == Assigned(ss)
    decreases ss, 0
  {
    if ss != [] {
      AnalyzedListed(ss[0], i, c);
      AnalyzedStored(ss[1..], i + 1, Later(ss[0], c));
    }
  }

  // ---------------------------------------------------------------- arguments

  /** The expression uses a symbol of the base from outside. */
  predicate Uses(e: Expr, b: string, c: Scope) {
    match e
    case Lit(_) => false
    case Var(x) => x == b && Outside(Name(x), c)
    case Attr(base, m) => base == b && Outside(Field(base, m), c)
    case Oper(_, x, y) => Uses(x, b, c) || Uses(y, b, c)
    case IfExp(k, x, y) =>
      var d := c.(block := Conditional);
      Uses(k, b, d) || Uses(x, b, d) || Uses(y, b, d)
  }

  predicate UsesStmt(s: Stmt, b: string, i: nat, c: Scope)
    requires c.block.Code?
    decreases s, 1
  {
    match s
    case Assign(target, e) => Uses(e, b, c.(seen := c.seen + {target}))
    case If(test, body, orelse, _, _) =>
      Uses(test, b, InFirst(i, c)) || UsesBlock(body, b, 0, InFirst(i, c)) ||
          UsesBlock(orelse, b, |body|, InSecond(s, i, c))
  }

  predicate UsesBlock(ss: seq<Stmt>, b: string, i: nat, c: Scope)
    requires c.block.Code?
    decreases ss, 0
  {
    ss != [] && (UsesStmt(ss[0], b, i, c) || UsesBlock(ss[1..], b, i + 1, Later(ss[0], c)))
  }

  lemma {:induction false} ExprBases(e: Expr, c: Scope, b: string)
    ensures Offered([ExprTree(e, c)], BaseIn(b)) <==> Uses(e, b, c)
    decreases e
  {
    var t, k := ExprTree(e, c), BaseIn(b);
    OfferedOne(t, k);
    WithinOffered(t, k);
    match e
    case Oper(_, x, y) =>
      ExprBases(x, c, b);
      ExprBases(y, c, b);
      assert t.children == [ExprTree(x, c)] + [ExprTree(y, c)];
      OfferedParts([ExprTree(x, c)], [ExprTree(y, c)], k);
    case IfExp(p, x, y) =>
      var d := c.(block := Conditional);
      ExprBases(p, d, b);
      ExprBases(x, d, b);
      ExprBases(y, d, b);
      assert t.children == [ExprTree(p, d)] + ([ExprTree(x, d)] + [ExprTree(y, d)]);
      OfferedParts([ExprTree(x, d)], [ExprTree(y, d)], k);
      OfferedParts([ExprTree(p, d)], [ExprTree(x, d)] + [ExprTree(y, d)], k);
    case _ =>
  }

  /** The base input symbols of a statement are those of symbols it uses from outside. */
  lemma {:induction false} StmtBases(s: Stmt, i: nat, c: Scope, b: string)
    requires c.block.Code?
    ensures Within(StmtTree(s, i, c), BaseIn(b)) <==> UsesStmt(s, b, i, c)
    decreases s, 1
  {
    match s
    case Assign(target, e) =>
      AssignOffers(s, i, c, BaseIn(b));
      ExprBases(e, c.(seen := c.seen + {target}), b);
    case If(test, body, orelse, _, _) =>
      IfOffers(s, i, c, BaseIn(b));
      ExprBases(test, InFirst(i, c), b);
      BlockBases(body, 0, InFirst(i, c), b);
      BlockBases(orelse, |body|, InSecond(s, i, c), b);
  }

  lemma {:induction false} BlockBases(ss: seq<Stmt>, i: nat, c: Scope, b: string)
    requires c.block.Code?
    ensures Offered(BlockTrees(ss, i, c), BaseIn(b)) <==> UsesBlock(ss, b, i, c)
    decreases ss, 0
  {
    if ss != [] {
      StmtBases(ss[0], i, c, b);
      BlockBases(ss[1..], i + 1, Later(ss[0], c), b);
      OfferedOne(StmtTree(ss[0], i, c), BaseIn(b));
      OfferedParts([StmtTree(ss[0], i, c)], BlockTrees(ss[1..], i + 1, Later(ss[0], c)), BaseIn(b));
    }
  }

  lemma AnalyzedArgs(s: Stmt, i: nat, c: Scope, b: string)
    requires c.block.Code? && s.If? && AnalyzedStmt(s, i, c)
    ensures b in s.args <==> UsesStmt(s, b, i, c)
  {
    var a :| Exact(a, StmtTree(s, i, c)) && a.outs == s.outs && a.baseIns == s.args;
    assert Has(a, BaseIn(b)) <==> Within(StmtTree(s, i, c), BaseIn(b));
    StmtBases(s, i, c, b);
  }

  /** Every if statement uses, from outside, some attribute of each entity its first branch assigns to, of whatever
      component. */
  ghost predicate Carried(ss: seq<Stmt>, i: nat, c: Scope)
    requires c.block.Code?
    decreases ss, 0
  {
    ss == [] || (CarriedStmt(ss[0], i, c) && Carried(ss[1..], i + 1, Later(ss[0], c)))
  }

  ghost predicate CarriedStmt(s: Stmt, i: nat, c: Scope)
    requires c.block.Code?
    decreases s, 1
  {
    s.If? ==>
      (forall x :: x in Assigned(s.body) && x.Field? ==> UsesStmt(s, x.base, i, c)) &&
      Carried(s.body, 0, InFirst(i, c)) && Carried(s.orelse, |s.body|, InSecond(s, i, c))
  }

  /** The analysis isolates the first branches exactly when the code carries their entities into them. */
  lemma {:induction false} AnalyzedIsolated(ss: seq<Stmt>, i: nat, c: Scope)
    requires c.block.Code? && Analyzed(ss, i, c)
    ensures Isolated(ss) <==> Carried(ss, i, c)
    decreases ss, 0
  {
    if ss != [] {
      AnalyzedIsolatedStmt(ss[0], i, c);
      AnalyzedIsolated(ss[1..], i + 1, Later(ss[0], c));
    }
  }

  lemma {:induction false} AnalyzedIsolatedStmt(s: Stmt, i: nat, c: Scope)
    requires c.block.Code? && AnalyzedStmt(s, i, c)
    ensures IsolatedStmt(s) <==> CarriedStmt(s, i, c)
    decreases s, 1
  {
    if s.If? {
      AnalyzedIsolated(s.body, 0, InFirst(i, c));
      AnalyzedIsolated(s.orelse, |s.body|, InSecond(s, i, c));
      AnalyzedCovered(s, i, c);
    }
  }

  lemma AnalyzedCovered(s: Stmt, i: nat, c: Scope)
    requires c.block.Code? && s.If? && AnalyzedStmt(s, i, c)
    ensures Covered(s.body, s.args) <==> forall x :: x in Assigned(s.body) && x.Field? ==> UsesStmt(s, x.base, i, c)
  {
    AnalyzedStored(s.body, 0, InFirst(i, c));
    forall b
      ensures b in s.args <==> UsesStmt(s, b, i, c)
    {
      AnalyzedArgs(s, i, c, b);
    }
    if x :| x in Assigned(s.body) && x.Field? && !UsesStmt(s, x.base, i, c) {
      assert x in Through(s.body, s.args);
    }
  }

  // ---------------------------------------------------------------- whole functions

  /** The scope of a function's body. */
  function Top(ss: seq<Stmt>): (c: Scope)
    ensures c.block.Code?
  {
    Scope({}, Definitions(ss, [], 0), Code([]))
  }

  /** From analysis to graph: for code that carries its entities into its branches, an attribute's node evaluates on
      the store before the run to what the original code leaves in it, unless a write was dropped over an earlier
      one. */
  lemma AnalyzedMeaning(ss: seq<Stmt>, ents: map<string, Ent>, s0: Store, r: Ref)
    requires Analyzed(ss, 0, Top(ss)) && Carried(ss, 0, Top(ss))
    requires Apart(ents) && ExecBlock(ss, BeginDirect(ents, s0)).Ok?
    requires TraceBlock(ss, Begin(ents)).Some? && !TraceBlock(ss, Begin(ents)).value.stale
    ensures var outs, store := GraphOutputs(TraceBlock(ss, Begin(ents)).value),
        ExecBlock(ss, BeginDirect(ents, s0)).value.store;
      Eval(Current(outs, r), s0) == if r in store then Ok(store[r]) else Throws
  {
    AnalyzedStored(ss, 0, Top(ss));
    AnalyzedIsolated(ss, 0, Top(ss));
    IsolatedCompiled(ss, ents, s0);
    GraphMeaning(ss, ents, s0, r);
  }

  /** The expression reads the member of the entity, outside conditional expressions. */
  predicate ReadsMember(e: Expr, b: string, m: Member) {
    match e
    case Attr(base, member) => base == b && member == m
    case Oper(_, x, y) => ReadsMember(x, b, m) || ReadsMember(y, b, m)
    case _ => false
  }

  lemma {:induction false} ReadsMemberUses(e: Expr, b: string, m: Member, c: Scope)
    requires ReadsMember(e, b, m) && Outside(Field(b, m), c)
    ensures Uses(e, b, c)
    decreases e
  {
    if e.Oper? {
      if ReadsMember(e.a, b, m) { ReadsMemberUses(e.a, b, m, c); } else { ReadsMemberUses(e.b, b, m, c); }
    }
  }

  lemma {:induction false} DefinitionAt(ss: seq<Stmt>, path: seq<nat>, i: nat, j: nat)
    requires j < |ss| && ss[j].Assign?
    ensures Definition(ss[j].target, path) in Definitions(ss, path, i)
    decreases ss
  {
    if j > 0 { DefinitionAt(ss[1..], path, i + 1, j - 1); }
  }

  /** The scope of the statement after the first i of a block. */
  lemma {:induction false} AnalyzedAt(ss: seq<Stmt>, k: nat, c: Scope, i: nat)
    requires c.block.Code? && i < |ss| && Analyzed(ss, k, c)
    ensures AnalyzedStmt(ss[i], k + i, c.(seen := c.seen + Assigned(ss[..i])))
    decreases ss
  {
    if i > 0 {
      AnalyzedAt(ss[1..], k + 1, Later(ss[0], c), i - 1);
      assert ss[..i][0] == ss[0] && ss[..i][1..] == ss[1..][..i - 1];
      assert c.seen + Assigned(ss[..i]) == c.seen + AssignedBy(ss[0]) + Assigned(ss[1..][..i - 1]);
    } else {
      assert c.(seen := c.seen + {}) == c;
    }
  }

  lemma {:induction false} AssignedAt(ss: seq<Stmt>, j: nat)
    requires j < |ss| && ss[j].Assign?
    ensures ss[j].target in Assigned(ss)
    decreases ss
  {
    if j > 0 { AssignedAt(ss[1..], j - 1); }
  }

  /** An if statement whose test reads an attribute that an earlier statement of the function assigned gets the entity
      as an argument, whichever of its components the branches write: "if car[Position].x <= low: car[Velocity].x = 0"
      after an assignment of car[Position].x. */
  lemma TestCarries(ss: seq<Stmt>, j: nat, i: nat, b: string, m: Member)
    requires Analyzed(ss, 0, Top(ss)) && j < i < |ss| && ss[i].If?
    requires ss[j].Assign? && ss[j].target == Field(b, m) && ReadsMember(ss[i].test, b, m)
    ensures b in ss[i].args
  {
    var c := Top(ss);
    var d := c.(seen := c.seen + Assigned(ss[..i]));
    AnalyzedAt(ss, 0, c, i);
    AssignedAt(ss[..i], j);
    DefinitionAt(ss, [], 0, j);
    assert Definition(Field(b, m), []) in c.defs && InFirst(i, d).block == Code([] + [i]);
    assert [] != [] + [i];
    ReadsMemberUses(ss[i].test, b, m, InFirst(i, d));
    AnalyzedArgs(ss[i], i, d, b);
  }

  /** So such a statement that writes to this entity only is isolated. */
  lemma TestIsolates(ss: seq<Stmt>, j: nat, i: nat, b: string, m: Member)
    requires Analyzed(ss, 0, Top(ss)) && j < i < |ss| && ss[i].If?
    requires ss[j].Assign? && ss[j].target == Field(b, m) && ReadsMember(ss[i].test, b, m)
    requires forall x :: x in Stored(ss[i].body) && x.Field? ==> x.base == b
    ensures Covered(ss[i].body, ss[i].args)
  {
    TestCarries(ss, j, i, b, m);
  }

  /** After the passes have run on a function's tree, its statements are analyzed. */
  lemma PassesAnalyze(ss: seq<Stmt>, root: Ast)
    requires root.Valid() && root.Labelled() && root.tree == Tree(true, Option.None, BlockTrees(ss, 0, Top(ss)))
    requires (forall n :: n in root.children ==> n.Valid()) && TakesFrom(ss, root.children)
    ensures Analyzed(ss, 0, Top(ss))
  {
    assert forall k :: 0 <= k < |root.children| ==> root.children[k].tree == root.tree.children[k];
    LabelledAnalyzed(ss, root.children, 0, Top(ss));
  }

  /** The collision of the mountain car example: the test reads the position, the branch writes the velocity of the same
      entity, so the entity is an argument and the branch is isolated. */
  lemma CollisionIsolated(moved: Expr, low: Value, still: Value, args: seq<string>, outs: seq<Symbol>)
    requires var x, v := Member("position", "x"), Member("velocity", "x");
      var ss := [Assign(Field("car", x), moved),
                 If(Oper(AtMost, Attr("car", x), Lit(low)), [Assign(Field("car", v), Lit(still))], [], args, outs)];
      Analyzed(ss, 0, Top(ss))
    ensures "car" in args && Covered([Assign(Field("car", Member("velocity", "x")), Lit(still))], args)
  {
    var x, v := Member("position", "x"), Member("velocity", "x");
    var ss := [Assign(Field("car", x), moved),
               If(Oper(AtMost, Attr("car", x), Lit(low)), [Assign(Field("car", v), Lit(still))], [], args, outs)];
    assert ReadsMember(ss[1].test, "car", x);
    TestIsolates(ss, 0, 1, "car", x);
    TestCarries(ss, 0, 1, "car", x);
  }

  // ---------------------------------------------------------------- the text of a function

  /** A symbol stored or loaded in a block. */
  datatype Event = Event(stores: bool, sym: Symbol, block: Block)

  function ExprEvents(e: Expr, block: Block): seq<Event> {
    match e
    case Lit(_) => []
    case Var(x) => [Event(false, Name(x), block)]
    case Attr(b, m) => [Event(false, Field(b, m), block)]
    case Oper(_, x, y) => ExprEvents(x, block) + ExprEvents(y, block)
    case IfExp(k, x, y) =>
      ExprEvents(k, Conditional) + (ExprEvents(x, Conditional) + ExprEvents(y, Conditional))
  }

  /** The stores and loads of a block in the order of the text, the target of an assignment before its value. */
  function Events(ss: seq<Stmt>, path: seq<nat>, i: nat): seq<Event>
    decreases ss, 0
  {
    if ss == [] then [] else StmtEvents(ss[0], path, i) + Events(ss[1..], path, i + 1)
  }

  function StmtEvents(s: Stmt, path: seq<nat>, i: nat): seq<Event>
    decreases s, 1
  {
    match s
    case Assign(target, e) => [Event(true, target, Code(path))] + ExprEvents(e, Code(path))
    case If(test, body, orelse, _, _) =>
      ExprEvents(test, Code(path + [i])) +
      (Events(body, path + [i], 0) + Events(orelse, path + [i], |body|))
  }

  function StoredIn(es: seq<Event>): set<Symbol> {
    set e | e in es && e.stores :: e.sym
  }

  /** Some definition of the event's symbol stands in another block. */
  ghost predicate DefinedElsewhere(defs: set<Definition>, e: Event) {
    exists d :: d in defs && d.sym == e.sym && Code(d.path) != e.block
  }

  /** Event k loads a symbol of the base that was stored before, and is stored somewhere in another block. */
  ghost predicate UsedAt(es: seq<Event>, seen: set<Symbol>, defs: set<Definition>, b: string, k: nat) {
    k < |es| && !es[k].stores && Base(es[k].sym) == b &&
    (es[k].sym in seen || exists j :: 0 <= j < k && es[j].stores && es[j].sym == es[k].sym) &&
    DefinedElsewhere(defs, es[k])
  }

  ghost predicate UsedIn(es: seq<Event>, seen: set<Symbol>, defs: set<Definition>, b: string) {
    exists k :: UsedAt(es, seen, defs, b, k)
  }

  lemma UsedConcat(x: seq<Event>, y: seq<Event>, seen: set<Symbol>, defs: set<Definition>, b: string)
    ensures UsedIn(x + y, seen, defs, b) <==> UsedIn(x, seen, defs, b) || UsedIn(y, seen + StoredIn(x), defs, b)
    ensures StoredIn(x + y) == StoredIn(x) + StoredIn(y)
  {
    if k :| UsedAt(x, seen, defs, b, k) { UsedFirst(x, y, seen, defs, b, k); }
    if k: nat :| UsedAt(y, seen + StoredIn(x), defs, b, k) { UsedSecond(x, y, seen, defs, b, k); }
    if k: nat :| UsedAt(x + y, seen, defs, b, k) {
      if k < |x| { UsedFirst(x, y, seen, defs, b, k); } else { UsedSecond(x, y, seen, defs, b, k - |x|); }
    }
  }

  lemma UsedFirst(x: seq<Event>, y: seq<Event>, seen: set<Symbol>, defs: set<Definition>, b: string, k: nat)
    requires k < |x|
    ensures UsedAt(x + y, seen, defs, b, k) <==> UsedAt(x, seen, defs, b, k)
  {
    assert forall j :: 0 <= j <= k ==> (x + y)[j] == x[j];
  }

  lemma UsedSecond(x: seq<Event>, y: seq<Event>, seen: set<Symbol>, defs: set<Definition>, b: string, k: nat)
    requires k < |y|
    ensures UsedAt(x + y, seen, defs, b, |x| + k) <==> UsedAt(y, seen + StoredIn(x), defs, b, k)
  {
    var q := y[k].sym;
    if q in StoredIn(x) {
      var e :| e in x && e.stores && e.sym == q;
      var j :| 0 <= j < |x| && x[j] == e;
      assert (x + y)[j] == e;
    }
    if j :| 0 <= j < |x| + k && (x + y)[j].stores && (x + y)[j].sym == q {
      if j < |x| { assert x[j] in x; } else { assert y[j - |x|] == (x + y)[j]; }
    }
    if j :| 0 <= j < k && y[j].stores && y[j].sym == q { assert (x + y)[|x| + j] == y[j]; }
  }

  lemma NothingUsed(seen: set<Symbol>, defs: set<Definition>, b: string)
    ensures !UsedIn([], seen, defs, b) && StoredIn([]) == {}
  {
  }

  lemma OneEvent(e: Event, seen: set<Symbol>, defs: set<Definition>, b: string)
    ensures UsedIn([e], seen, defs, b) <==>
            !e.stores && Base(e.sym) == b && e.sym in seen && DefinedElsewhere(defs, e)
    ensures StoredIn([e]) == if e.stores then {e.sym} else {}
  {
    assert UsedAt([e], seen, defs, b, 0) <==>
           !e.stores && Base(e.sym) == b && e.sym in seen && DefinedElsewhere(defs, e);
  }

  lemma {:induction false} ExprUsed(e: Expr, b: string, c: Scope)
    ensures Uses(e, b, c) <==> UsedIn(ExprEvents(e, c.block), c.seen, c.defs, b)
    ensures StoredIn(ExprEvents(e, c.block)) == {}
    decreases e
  {
    hide UsedIn;
    match e
    case Lit(_) => NothingUsed(c.seen, c.defs, b);
    case Var(x) => OneEvent(Event(false, Name(x), c.block), c.seen, c.defs, b);
    case Attr(a, m) => OneEvent(Event(false, Field(a, m), c.block), c.seen, c.defs, b);
    case Oper(_, x, y) =>
      ExprUsed(x, b, c);
      ExprUsed(y, b, c);
      UsedConcat(ExprEvents(x, c.block), ExprEvents(y, c.block), c.seen, c.defs, b);
      assert c.seen + {} == c.seen;
    case IfExp(k, x, y) =>
      var d := c.(block := Conditional);
      ExprUsed(k, b, d);
      ExprUsed(x, b, d);
      ExprUsed(y, b, d);
      var p, q, r := ExprEvents(k, Conditional), ExprEvents(x, Conditional), ExprEvents(y, Conditional);
      UsedConcat(q, r, c.seen, c.defs, b);
      UsedConcat(p, q + r, c.seen, c.defs, b);
      assert c.seen + {} == c.seen;
  }

  lemma {:induction false} StmtUsed(s: Stmt, b: string, i: nat, c: Scope)
    requires c.block.Code?
    ensures UsesStmt(s, b, i, c) <==> UsedIn(StmtEvents(s, c.block.path, i), c.seen, c.defs, b)
    ensures StoredIn(StmtEvents(s, c.block.path, i)) == AssignedBy(s)
    decreases s, 1
  {
    hide UsedIn, Uses, UsesBlock;
    match s
    case Assign(target, e) =>
      var first := Event(true, target, c.block);
      ExprUsed(e, b, c.(seen := c.seen + {target}));
      OneEvent(first, c.seen, c.defs, b);
      UsedConcat([first], ExprEvents(e, c.block), c.seen, c.defs, b);
    case If(test, body, orelse, _, _) =>
      var d, e := InFirst(i, c), InSecond(s, i, c);
      var x, y, z := ExprEvents(test, d.block), Events(body, d.block.path, 0), Events(orelse, d.block.path, |body|);
      ExprUsed(test, b, d);
      BlockUsed(body, b, 0, d);
      BlockUsed(orelse, b, |body|, e);
      UsedConcat(y, z, c.seen, c.defs, b);
      UsedConcat(x, y + z, c.seen, c.defs, b);
      assert c.seen + {} == c.seen;
  }

  /** What a block uses from outside, read off its text. */
  lemma {:induction false} BlockUsed(ss: seq<Stmt>, b: string, i: nat, c: Scope)
    requires c.block.Code?
    ensures UsesBlock(ss, b, i, c) <==> UsedIn(Events(ss, c.block.path, i), c.seen, c.defs, b)
    ensures StoredIn(Events(ss, c.block.path, i)) == Assigned(ss)
    decreases ss, 0
  {
    hide UsedIn, UsesStmt;
    if ss == [] {
      NothingUsed(c.seen, c.defs, b);
    } else {
      StmtUsed(ss[0], b, i, c);
      BlockUsed(ss[1..], b, i + 1, Later(ss[0], c));
      UsedConcat(StmtEvents(ss[0], c.block.path, i), Events(ss[1..], c.block.path, i + 1), c.seen, c.defs, b);
    }
  }

  /** The definitions of a function are the stores of its text. */
  lemma {:induction false} DefinitionsAre(ss: seq<Stmt>, path: seq<nat>, i: nat, d: Definition)
    ensures d in Definitions(ss, path, i) <==> Event(true, d.sym, Code(d.path)) in Events(ss, path, i)
    decreases ss, 0
  {
    if ss != [] {
      DefinedByAre(ss[0], path, i, d);
      DefinitionsAre(ss[1..], path, i + 1, d);
    }
  }

  lemma {:induction false} DefinedByAre(s: Stmt, path: seq<nat>, i: nat, d: Definition)
    ensures d in DefinedBy(s, path, i) <==> Event(true, d.sym, Code(d.path)) in StmtEvents(s, path, i)
    decreases s, 1
  {
    match s
    case Assign(target, e) => OnlyLoads(e, Code(path));
    case If(test, body, orelse, _, _) =>
      OnlyLoads(test, Code(path + [i]));
      DefinitionsAre(body, path + [i], 0, d);
      DefinitionsAre(orelse, path + [i], |body|, d);
  }

  lemma {:induction false} OnlyLoads(e: Expr, block: Block)
    ensures forall x :: x in ExprEvents(e, block) ==> !x.stores
    decreases e
  {
    match e
    case Oper(_, x, y) =>
      OnlyLoads(x, block);
      OnlyLoads(y, block);
    case IfExp(k, x, y) =>
      OnlyLoads(k, Conditional);
      OnlyLoads(x, Conditional);
      OnlyLoads(y, Conditional);
    case _ =>
  }

  lemma {:induction false} EventsSplit(ss: seq<Stmt>, path: seq<nat>, k: nat, i: nat)
    requires i < |ss|
    ensures Events(ss, path, k) ==
            Events(ss[..i], path, k) + (StmtEvents(ss[i], path, k + i) + Events(ss[i + 1..], path, k + i + 1))
    decreases ss
  {
    if i == 0 {
      assert Events(ss[..0], path, k) == [] && ss[1..] == ss[0 + 1..];
    } else {
      EventsSplit(ss[1..], path, k + 1, i - 1);
      assert ss[..i][0] == ss[0] && ss[..i][1..] == ss[1..][..i - 1] && ss[1..][i..] == ss[i + 1..];
    }
  }

  /** The symbol is stored in another block. */
  ghost predicate OtherBlock(all: seq<Event>, x: Event) {
    exists j :: 0 <= j < |all| && all[j].stores && all[j].sym == x.sym && all[j].block != x.block
  }

  /** Event k loads a symbol of the base that is stored earlier in the text and, anywhere in it, in another block. */
  ghost predicate FromOutside(all: seq<Event>, b: string, k: nat) {
    k < |all| && !all[k].stores && Base(all[k].sym) == b &&
    (exists j :: 0 <= j < k && all[j].stores && all[j].sym == all[k].sym) && OtherBlock(all, all[k])
  }

  /** The arguments of an if statement of a function, read off the function's text: an entity or variable is an argument
      exactly when an event of the statement loads a symbol of it from outside. */
  lemma ArgsAreUsed(ss: seq<Stmt>, i: nat, b: string)
    requires Analyzed(ss, 0, Top(ss)) && i < |ss| && ss[i].If?
    ensures var all, from, es := Events(ss, [], 0), |Events(ss[..i], [], 0)|, StmtEvents(ss[i], [], i);
      from + |es| <= |all| && all[from..from + |es|] == es &&
      (b in ss[i].args <==> exists k :: from <= k < from + |es| && FromOutside(all, b, k))
  {
    hide Events, StmtEvents, Definitions, UsesStmt, UsedIn, FromOutside, OtherBlock, DefinedElsewhere;
    var before, es, after := Events(ss[..i], [], 0), StmtEvents(ss[i], [], i), Events(ss[i + 1..], [], i + 1);
    var c := Top(ss);
    var d := c.(seen := c.seen + Assigned(ss[..i]));
    EventsSplit(ss, [], 0, i);
    AnalyzedAt(ss, 0, c, i);
    AnalyzedArgs(ss[i], i, d, b);
    StmtUsed(ss[i], b, i, d);
    BlockUsed(ss[..i], b, 0, c);
    assert d.seen == StoredIn(before);
    forall x: Event
      ensures DefinedElsewhere(c.defs, x) <==> OtherBlock(Events(ss, [], 0), x)
    {
      ElsewhereIsOther(ss, x);
    }
    UsedInMiddle(before, es, after, c.defs, b);
  }

  lemma ElsewhereIsOther(ss: seq<Stmt>, x: Event)
    ensures DefinedElsewhere(Definitions(ss, [], 0), x) <==> OtherBlock(Events(ss, [], 0), x)
  {
    var all := Events(ss, [], 0);
    if e :| e in Definitions(ss, [], 0) && e.sym == x.sym && Code(e.path) != x.block {
      DefinitionsAre(ss, [], 0, e);
      var j :| 0 <= j < |all| && all[j] == Event(true, e.sym, Code(e.path));
    }
    if j :| 0 <= j < |all| && all[j].stores && all[j].sym == x.sym && all[j].block != x.block {
      StoresInCode(ss, [], 0, all[j]);
      DefinitionsAre(ss, [], 0, Definition(x.sym, all[j].block.path));
    }
  }

  lemma {:induction false} StoresInCode(ss: seq<Stmt>, path: seq<nat>, i: nat, x: Event)
    requires x in Events(ss, path, i) && x.stores
    ensures x.block.Code?
    decreases ss, 0
  {
    if x in StmtEvents(ss[0], path, i) {
      match ss[0]
      case Assign(_, e) => OnlyLoads(e, Code(path));
      case If(test, body, orelse, _, _) =>
        OnlyLoads(test, Code(path + [i]));
        if x in Events(body, path + [i], 0) {
          StoresInCode(body, path + [i], 0, x);
        } else {
          StoresInCode(orelse, path + [i], |body|, x);
        }
    } else {
      StoresInCode(ss[1..], path, i + 1, x);
    }
  }

  /** Using from the middle of a text, by positions in the whole. */
  lemma UsedInMiddle(x: seq<Event>, y: seq<Event>, z: seq<Event>, defs: set<Definition>, b: string)
    requires forall e: Event :: DefinedElsewhere(defs, e) <==> OtherBlock(x + (y + z), e)
    ensures var all := x + (y + z);
      all[|x|..|x| + |y|] == y &&
      (UsedIn(y, StoredIn(x), defs, b) <==> exists k :: |x| <= k < |x| + |y| && FromOutside(all, b, k))
  {
    var all := x + (y + z);
    forall k: nat | k < |y|
      ensures UsedAt(y, StoredIn(x), defs, b, k) <==> FromOutside(all, b, |x| + k)
    {
      MiddleEvent(x, y, z, defs, b, k);
    }
    if k: nat :| UsedAt(y, StoredIn(x), defs, b, k) { assert FromOutside(all, b, |x| + k); }
    if k :| |x| <= k < |x| + |y| && FromOutside(all, b, k) { assert UsedAt(y, StoredIn(x), defs, b, k - |x|); }
  }

  lemma MiddleEvent(x: seq<Event>, y: seq<Event>, z: seq<Event>, defs: set<Definition>, b: string, k: nat)
    requires k < |y| && forall e: Event :: DefinedElsewhere(defs, e) <==> OtherBlock(x + (y + z), e)
    ensures UsedAt(y, StoredIn(x), defs, b, k) <==> FromOutside(x + (y + z), b, |x| + k)
  {
    hide DefinedElsewhere, OtherBlock;
    assert {} + StoredIn(x) == StoredIn(x) && x + (y + z) == (x + y) + z;
    UsedSecond(x, y, {}, defs, b, k);
    UsedFirst(x + y, z, {}, defs, b, |x| + k);
  }

  // ---------------------------------------------------------------- an if statement alone

  predicate Flat(ss: seq<Stmt>) {
    forall s :: s in ss ==> s.Assign? && Plain(s.e)
  }

  /** No conditional expression. */
  predicate Plain(e: Expr) {
    match e
    case Oper(_, a, b) => Plain(a) && Plain(b)
    case IfExp(_, _, _) => false
    case _ => true
  }

  lemma {:induction false} FlatDefinitions(ss: seq<Stmt>, path: seq<nat>, i: nat)
    requires Flat(ss)
    ensures forall d :: d in Definitions(ss, path, i) ==> d.path == path
    decreases ss
  {
    if ss != [] { FlatDefinitions(ss[1..], path, i + 1); }
  }

  lemma {:induction false} PlainUses(e: Expr, b: string, c: Scope)
    requires Plain(e) && forall d :: d in c.defs ==> Code(d.path) == c.block
    ensures !Uses(e, b, c)
    decreases e
  {
    if e.Oper? {
      PlainUses(e.a, b, c);
      PlainUses(e.b, b, c);
    }
  }

  lemma {:induction false} FlatUses(ss: seq<Stmt>, b: string, i: nat, c: Scope)
    requires Flat(ss) && c.block.Code? && forall d :: d in c.defs ==> Code(d.path) == c.block
    ensures !UsesBlock(ss, b, i, c)
    decreases ss
  {
    if ss != [] {
      PlainUses(ss[0].e, b, c.(seen := c.seen + {ss[0].target}));
      FlatUses(ss[1..], b, i + 1, Later(ss[0], c));
    }
  }

  /** The branches of an if statement that is all of a function get no arguments, whatever they read and write. */
  lemma LoneIfUnprotected(s: Stmt)
    requires s.If? && Plain(s.test) && Flat(s.body) && Flat(s.orelse) && AnalyzedStmt(s, 0, Top([s]))
    ensures s.args == []
  {
    var c := Top([s]);
    var path: seq<nat> := [];
    assert [s][1..] == [] && Definitions([], path, 1) == {};
    assert Definitions([s], path, 0) == DefinedBy(s, path, 0) + Definitions([s][1..], path, 1);
    FlatDefinitions(s.body, path + [0], 0);
    FlatDefinitions(s.orelse, path + [0], |s.body|);
    if s.args != [] {
      var b := s.args[0];
      AnalyzedArgs(s, 0, c, b);
      PlainUses(s.test, b, InFirst(0, c));
      FlatUses(s.body, b, 0, InFirst(0, c));
      FlatUses(s.orelse, b, |s.body|, InSecond(s, 0, c));
    }
  }

  lemma {:induction false} FlatIsolated(ss: seq<Stmt>)
    requires Flat(ss)
    ensures Isolated(ss)
  {
    if ss != [] { FlatIsolated(ss[1..]); }
  }

  /** So its trace shows what the direct run leaves in an output symbol exactly when the second branch is not taken, or
      leaves the same in it run after the first branch as run alone. */
  lemma LoneIfMeaning(s: Stmt, ents: map<string, Ent>, s0: Store, i: nat)
    requires s.If? && Plain(s.test) && Flat(s.body) && Flat(s.orelse) && AnalyzedStmt(s, 0, Top([s])) && i < |s.outs|
    requires Apart(ents) && ExecStmt(s, BeginDirect(ents, s0)).Ok?
    requires TraceStmt(s, Begin(ents)).Some? && !TraceStmt(s, Begin(ents)).value.stale
    ensures var d, u := BeginDirect(ents, s0), TraceStmt(s, Begin(ents)).value;
      var v := ViewOf(d);
      Shows(u.env, u.heap, ViewOf(ExecStmt(s, d).value), s0, s.outs[i]) <==>
      (!TakesSecond(ViewExpr(s.test, v)) ||
       Reads(s.outs[i], RunBlock(s.orelse, Leaked(v, RunBlock(s.body, v), []))) ==
       Reads(s.outs[i], RunBlock(s.orelse, v)))
  {
    var t, d := Begin(ents), BeginDirect(ents, s0);
    var v := ViewOf(d);
    LoneIfUnprotected(s);
    AnalyzedListed(s, 0, Top([s]));
    BeginRelated(ents, s0);
    FlatIsolated(s.body);
    FlatIsolated(s.orelse);
    var c, t0, m, t1, n, t2 := IfParts(s, t);
    IsolatedSoundBranch(s.body, s.args, s.outs, t0, v);
    IsolatedSoundBranch(s.orelse, s.args, s.outs, t1, Leaked(v, RunBlock(s.body, v), s.args));
    SharedBranchMeaning(s, t, v, s0, i);
    RunIsExecStmt(s, d, v);
    assert Reads(s.outs[i], RunStmt(s, v)) == Reads(s.outs[i], ViewOf(ExecStmt(s, d).value));
  }
}
