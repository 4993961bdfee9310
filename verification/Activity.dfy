/** The activity analysis: which symbols each block of an AST uses and assigns, recorded on the block and passed up to
    the blocks around it. */
module Activity {
  import opened Values
  import opened Tracer

  // ---------------------------------------------------------------- dictionaries

  /** The keys of a dictionary after updating it with another: old keys keep their place. */
  function Merged<T(==, !new)>(d: seq<T>, e: seq<T>): (r: seq<T>)
    ensures forall x :: x in r <==> x in d || x in e
    ensures Unique(d) ==> Unique(r)
    decreases e
  {
    if e == [] then d else Merged(if e[0] in d then d else d + [e[0]], e[1..])
  }

  predicate Unique<T(==)>(d: seq<T>) {
    forall i, j :: 0 <= i < j < |d| ==> d[i] != d[j]
  }

  /** The keys of input_syms, output_syms, base_in_syms and base_out_syms of a block. */
  datatype Active = Active(ins: seq<Symbol>, outs: seq<Symbol>, baseIns: seq<string>, baseOuts: seq<string>) {
    function Update(a: Active): Active {
      Active(Merged(ins, a.ins), Merged(outs, a.outs), Merged(baseIns, a.baseIns), Merged(baseOuts, a.baseOuts))
    }

    /** No key twice. */
    predicate Tidy() {
      Unique(ins) && Unique(outs) && Unique(baseIns) && Unique(baseOuts)
    }
  }

  const NOTHING := Active([], [], [], [])

  /** A key of one of the four dictionaries. */
  datatype Key = In(s: Symbol) | Out(s: Symbol) | BaseIn(x: string) | BaseOut(x: string)

  predicate Has(a: Active, k: Key) {
    match k
    case In(s) => s in a.ins
    case Out(s) => s in a.outs
    case BaseIn(x) => x in a.baseIns
    case BaseOut(x) => x in a.baseOuts
  }

  lemma UpdateHas(a: Active, b: Active)
    ensures forall k :: Has(a.Update(b), k) <==> Has(a, k) || Has(b, k)
    ensures a.Tidy() ==> a.Update(b).Tidy()
  {
  }

  // ---------------------------------------------------------------- symbols and trees

  datatype Context = Load | Store | Del | Param

  /** A symbol node. It is outside when it has been defined and some definition of it stands in another block. */
  datatype Occurrence = Occurrence(sym: Symbol, ctx: Context, outside: bool)

  function Base(s: Symbol): string {
    match s
    case Name(x) => x
    case Field(b, _) => b
  }

  /** What the analysis is to find: symbols used from outside are inputs, symbols stored or deleted are outputs. */
  predicate Offers(o: Option<Occurrence>, k: Key) {
    o.Some? &&
    match k
    case In(s) => o.value.ctx.Load? && o.value.outside && o.value.sym == s
    case BaseIn(x) => o.value.ctx.Load? && o.value.outside && Base(o.value.sym) == x
    case Out(s) => (o.value.ctx.Store? || o.value.ctx.Del?) && o.value.sym == s
    case BaseOut(x) => (o.value.ctx.Store? || o.value.ctx.Del?) && Base(o.value.sym) == x
  }

  /** The entries the first pass makes for an occurrence. */
  function Entries(o: Occurrence): (a: Active)
    ensures forall k :: Has(a, k) <==> Offers(Some(o), k)
  {
    if o.ctx.Load? && o.outside then Active([o.sym], [], [Base(o.sym)], [])
    else if o.ctx.Store? || o.ctx.Del? then Active([], [o.sym], [], [Base(o.sym)])
    else NOTHING
  }

  datatype Tree = Tree(isBlock: bool, symbol: Option<Occurrence>, children: seq<Tree>)

  /** A node that is a child of a tree, or inside one. */
  ghost predicate Inside(n: Tree, t: Tree)
    decreases t
  {
    exists i :: 0 <= i < |t.children| && (n == t.children[i] || Inside(n, t.children[i]))
  }

  /** Some node inside the tree offers the key. */
  ghost predicate Within(t: Tree, k: Key) {
    exists n :: Inside(n, t) && Offers(n.symbol, k)
  }

  /** Some node offers it whose nearest block is the root's. */
  predicate Direct(t: Tree, k: Key)
    decreases t
  {
    exists i :: 0 <= i < |t.children| &&
                (Offers(t.children[i].symbol, k) || (!t.children[i].isBlock && Direct(t.children[i], k)))
  }

  /** What propagate_activity returns for a tree: only blocks pass anything up. */
  ghost predicate Returned(t: Tree, k: Key)
    decreases t
  {
    if t.isBlock then Within(t, k) else exists i :: 0 <= i < |t.children| && Returned(t.children[i], k)
  }

  lemma WithinChildren(t: Tree, k: Key)
    ensures Within(t, k) <==>
            exists i :: 0 <= i < |t.children| && (Offers(t.children[i].symbol, k) || Within(t.children[i], k))
  {
    if Within(t, k) {
      var n :| Inside(n, t) && Offers(n.symbol, k);
      var i :| 0 <= i < |t.children| && (n == t.children[i] || Inside(n, t.children[i]));
      assert Offers(t.children[i].symbol, k) || Within(t.children[i], k);
    }
    if i :| 0 <= i < |t.children| && (Offers(t.children[i].symbol, k) || Within(t.children[i], k)) {
      if Offers(t.children[i].symbol, k) {
        assert Inside(t.children[i], t);
      } else {
        var n :| Inside(n, t.children[i]) && Offers(n.symbol, k);
        assert Inside(n, t);
      }
    }
  }

  /** A block's own entries and what its children return are all there is inside it. */
  lemma {:induction false} WithinParts(t: Tree, k: Key)
    ensures Within(t, k) <==> Direct(t, k) || exists i :: 0 <= i < |t.children| && Returned(t.children[i], k)
    decreases t
  {
    WithinChildren(t, k);
    forall i | 0 <= i < |t.children|
      ensures Within(t.children[i], k) <==>
          (!t.children[i].isBlock && Direct(t.children[i], k)) || Returned(t.children[i], k)
    {
      WithinParts(t.children[i], k);
    }
  }

  /** The dictionary is what the tree returns, or what the trees return together. */
  ghost predicate Returns(a: Active, t: Tree) {
    a.Tidy() && forall k :: Has(a, k) <==> Returned(t, k)
  }

  ghost predicate Collects(a: Active, ts: seq<Tree>) {
    a.Tidy() && forall k :: Has(a, k) <==> exists i :: 0 <= i < |ts| && Returned(ts[i], k)
  }

  /** The dictionary holds the entries of the symbols directly in the block. */
  ghost predicate Holds(a: Active, t: Tree) {
    a.Tidy() && forall k :: Has(a, k) <==> Direct(t, k)
  }

  /** The dictionary has exactly the keys offered inside the block. */
  ghost predicate Exact(a: Active, t: Tree) {
    a.Tidy() && forall k :: Has(a, k) <==> Within(t, k)
  }

  lemma CollectsNone()
    ensures Collects(NOTHING, [])
  {
  }

  lemma CollectsMore(a: Active, ts: seq<Tree>, b: Active, t: Tree)
    requires Collects(a, ts) && Returns(b, t)
    ensures Collects(a.Update(b), ts + [t])
  {
    UpdateHas(a, b);
    forall k
      ensures Has(a.Update(b), k) <==> exists i :: 0 <= i < |ts + [t]| && Returned((ts + [t])[i], k)
    {
      if i :| 0 <= i < |ts| && Returned(ts[i], k) { assert (ts + [t])[i] == ts[i]; }
      if Returned(t, k) { assert (ts + [t])[|ts|] == t; }
    }
  }

  lemma CollectsBlock(a: Active, own: Active, t: Tree)
    requires t.isBlock && Collects(a, t.children) && Holds(own, t)
    ensures Exact(a.Update(own), t) && Returns(a.Update(own), t)
  {
    UpdateHas(a, own);
    forall k
      ensures Has(a.Update(own), k) <==> Within(t, k)
    {
      WithinParts(t, k);
    }
  }

  lemma CollectsOther(a: Active, t: Tree)
    requires !t.isBlock && Collects(a, t.children)
    ensures Returns(a, t)
  {
  }

  lemma {:induction false} InsideTrans(n: Tree, b: Tree, t: Tree)
    requires Inside(n, b) && Inside(b, t)
    ensures Inside(n, t)
    decreases t
  {
    var i :| 0 <= i < |t.children| && (b == t.children[i] || Inside(b, t.children[i]));
    if b != t.children[i] { InsideTrans(n, b, t.children[i]); }
  }

  /** Every key of a nested block is a key of each block around it. */
  lemma NestedKeys(b: Tree, t: Tree, k: Key)
    requires Inside(b, t) && Within(b, k)
    ensures Within(t, k)
  {
    var n :| Inside(n, b) && Offers(n.symbol, k);
    InsideTrans(n, b, t);
  }

  // ---------------------------------------------------------------- in place

  /** An AST node with the attributes the passes attach to it. */
  class Ast {
    const isBlock: bool
    const symbol: Option<Occurrence>
    const children: seq<Ast>
    var block: Ast?
    var active: Active
    ghost const tree: Tree
    ghost const nodes: set<Ast>

    constructor (isBlock: bool, symbol: Option<Occurrence>, children: seq<Ast>)
      requires forall i :: 0 <= i < |children| ==> children[i].Valid()
      requires forall i, j :: 0 <= i < j < |children| ==> children[i].nodes !! children[j].nodes
      ensures Valid() && active == NOTHING && block == null
      ensures tree == Tree(isBlock, symbol, seq(|children|, i requires 0 <= i < |children| => children[i].tree))
      ensures nodes == {this} + (set i, n | 0 <= i < |children| && n in children[i].nodes :: n)
    {
      this.isBlock, this.symbol, this.children := isBlock, symbol, children;
      block, active := null, NOTHING;
      tree := Tree(isBlock, symbol, seq(|children|, i requires 0 <= i < |children| => children[i].tree));
      nodes := {this} + (set i, n | 0 <= i < |children| && n in children[i].nodes :: n);
    }

    /** A finite tree: no node is reached twice. */
    ghost predicate Valid()
      decreases tree
    {
      this in nodes && tree.isBlock == isBlock && tree.symbol == symbol && |tree.children| == |children| &&
      (forall i :: 0 <= i < |children| ==>
         children[i].tree == tree.children[i] && children[i].nodes <= nodes && this !in children[i].nodes &&
             children[i].Valid()) &&
      (forall i, j :: 0 <= i < j < |children| ==> children[i].nodes !! children[j].nodes) &&
      forall n :: n in nodes && n != this ==> exists i :: 0 <= i < |children| && n in children[i].nodes
    }

    /** The block of the node's children. */
    function Inner(block: Ast?): Ast? {
      if isBlock then this else block
    }

    /** The subtrees, for proofs that need no more of Valid. */
    ghost predicate Subtrees() {
      this in nodes && tree.isBlock == isBlock && |tree.children| == |children| &&
      (forall i :: 0 <= i < |children| ==>
         children[i].tree == tree.children[i] && children[i].nodes <= nodes && this !in children[i].nodes &&
             children[i].Valid()) &&
      forall i, j :: 0 <= i < j < |children| ==> children[i].nodes !! children[j].nodes
    }

    lemma ValidSubtrees()
      requires Valid()
      ensures Subtrees()
    {
    }

    /** Every node knows the nearest block around it. */
    ghost predicate Blocked(block: Ast?)
      requires Valid()
      reads nodes`block
      decreases tree
    {
      this.block == block && forall i :: 0 <= i < |children| ==> children[i].Blocked(Inner(block))
    }

    /** No node has been told its block. */
    ghost predicate Unblocked()
      requires Valid()
      reads nodes`block
      decreases tree
    {
      this.block == null && forall i :: 0 <= i < |children| ==> children[i].Unblocked()
    }

    /** analyze_block: tells every node its block. */
    method AnalyzeBlock(block: Ast?)
      requires Valid() && Unblocked()
      modifies nodes`block
      ensures Blocked(block)
      decreases tree
    {
      hide Valid, Unblocked, Blocked;
      ValidSubtrees();
      UnblockedSubtrees();
      if block != null {
        this.block := block;
      }
      var inner := Inner(block);
      for i := 0 to |children|
        invariant this.block == block
        invariant forall j :: 0 <= j < i ==> children[j].Blocked(inner)
        invariant forall j :: i <= j < |children| ==> children[j].Unblocked()
      {
        children[i].AnalyzeBlock(inner);
      }
      BlockedFrom(block);
    }

    lemma UnblockedSubtrees()
      requires Valid() && Unblocked()
      ensures block == null && forall i :: 0 <= i < |children| ==> children[i].Valid() && children[i].Unblocked()
    {
    }

    lemma BlockedFrom(block: Ast?)
      requires Valid() && this.block == block && forall i :: 0 <= i < |children| ==>
          children[i].Valid() && children[i].Blocked(Inner(block))
      ensures Blocked(block)
    {
    }

    /** Every block holds the entries of the symbols directly in it. */
    ghost predicate Recorded()
      requires Valid()
      reads nodes`active
      decreases tree
    {
      (isBlock ==> Holds(active, tree)) && forall i :: 0 <= i < |children| ==> children[i].Recorded()
    }

    /** Every block has exactly the keys offered inside it. */
    ghost predicate Labelled()
      requires Valid()
      reads nodes`active
      decreases tree
    {
      (isBlock ==> Exact(active, tree)) &&
      forall i :: 0 <= i < |children| ==> children[i].Labelled()
    }

    /** propagate_activity: labels every block of the tree. */
    method PropagateActivity() returns (r: Active)
      requires Valid() && Recorded()
      modifies nodes`active
      ensures Labelled() && Returns(r, tree)
      decreases tree
    {
      hide Valid, Recorded, Labelled, Returns, Collects, Holds, Exact;
      ValidSubtrees();
      RecordedSubtrees();
      r := NOTHING;
      CollectsNone();
      for i := 0 to |children|
        invariant Collects(r, tree.children[..i])
        invariant isBlock ==> Holds(active, tree)
        invariant forall j :: 0 <= j < i ==> children[j].Labelled()
        invariant forall j :: i <= j < |children| ==> children[j].Recorded()
      {
        var below := children[i].PropagateActivity();
        CollectsMore(r, tree.children[..i], below, tree.children[i]);
        assert tree.children[..i] + [tree.children[i]] == tree.children[..i + 1];
        r := r.Update(below);
      }
      assert tree.children[..|children|] == tree.children;
      if isBlock {
        CollectsBlock(r, active, tree);
        r := r.Update(active);
        active := r;
      } else {
        CollectsOther(r, tree);
      }
      LabelledFrom();
    }

    lemma RecordedSubtrees()
      requires Valid() && Recorded()
      ensures isBlock ==> Holds(active, tree)
      ensures forall i :: 0 <= i < |children| ==> children[i].Valid() && children[i].Recorded()
    {
    }

    lemma LabelledFrom()
      requires Valid() && (isBlock ==> Exact(active, tree))
      requires forall i :: 0 <= i < |children| ==> children[i].Valid() && children[i].Labelled()
      ensures Labelled()
    {
    }
  }

  /** What the dictionaries of a labelled block hold: its inputs are the symbols loaded inside it from outside, its
      outputs those stored or deleted inside it, and the base entries are the variables these symbols start with. */
  lemma LabelledMeans(b: Ast, s: Symbol, x: string)
    requires b.Valid() && b.isBlock && b.Labelled()
    ensures s in b.active.ins <==> exists o :: Occurs(b.tree, o) && o.ctx == Load && o.outside && o.sym == s
    ensures s in b.active.outs <==> exists o :: Occurs(b.tree, o) && (o.ctx == Store || o.ctx == Del) && o.sym == s
    ensures x in b.active.baseIns <==>
            exists o :: Occurs(b.tree, o) && o.ctx == Load && o.outside && StartsWith(o.sym, x)
    ensures x in b.active.baseOuts <==>
            exists o :: Occurs(b.tree, o) && (o.ctx == Store || o.ctx == Del) && StartsWith(o.sym, x)
  {
    hide Occurs, Offers, Ast.Labelled, Ast.Valid;
    LabelledHas(b, In(s));
    LabelledHas(b, Out(s));
    LabelledHas(b, BaseIn(x));
    LabelledHas(b, BaseOut(x));
    OffersCases(s, x);
  }

  lemma LabelledHas(b: Ast, k: Key)
    requires b.Valid() && b.isBlock && b.Labelled()
    ensures Has(b.active, k) <==> exists o :: Occurs(b.tree, o) && Offers(Some(o), k)
  {
    OffersOccur(b.tree, k);
    assert Exact(b.active, b.tree);
  }

  lemma OffersCases(s: Symbol, x: string)
    ensures forall o :: Offers(Some(o), In(s)) <==> o.ctx == Load && o.outside && o.sym == s
    ensures forall o :: Offers(Some(o), Out(s)) <==> (o.ctx == Store || o.ctx == Del) && o.sym == s
    ensures forall o :: Offers(Some(o), BaseIn(x)) <==> o.ctx == Load && o.outside && StartsWith(o.sym, x)
    ensures forall o :: Offers(Some(o), BaseOut(x)) <==> (o.ctx == Store || o.ctx == Del) && StartsWith(o.sym, x)
  {
  }

  /** Some node inside the tree is the occurrence. */
  ghost predicate Occurs(t: Tree, o: Occurrence) {
    exists n :: Inside(n, t) && n.symbol == Some(o)
  }

  /** The variable a symbol starts with. */
  predicate StartsWith(s: Symbol, x: string) {
    s == Name(x) || (s.Field? && s.base == x)
  }

  lemma OffersOccur(t: Tree, k: Key)
    ensures Within(t, k) <==> exists o :: Occurs(t, o) && Offers(Some(o), k)
  {
    if n :| Inside(n, t) && Offers(n.symbol, k) {
      assert Occurs(t, n.symbol.value) && Offers(Some(n.symbol.value), k);
    }
    if o :| Occurs(t, o) && Offers(Some(o), k) {
      var n :| Inside(n, t) && n.symbol == Some(o);
      assert Offers(n.symbol, k);
    }
  }

  ghost predicate OfferedTo(symbols: seq<Ast>, b: Ast, k: Key)
    reads symbols`block
  {
    exists n :: n in symbols && n.block == b && Offers(n.symbol, k)
  }

  /** The first loop of analyze_activity: makes entries on the block of each symbol. */
  method Record(symbols: seq<Ast>)
    requires forall n :: n in symbols ==> n.symbol.Some? && n.block != null
    modifies (set n | n in symbols :: n.block)`active
    ensures forall b: Ast, k: Key :: old(allocated(b)) ==>
        (Has(b.active, k) <==> Has(old(b.active), k) || OfferedTo(symbols, b, k))
    ensures forall b: Ast :: old(allocated(b)) && old(b.active).Tidy() ==> b.active.Tidy()
  {
    for i := 0 to |symbols|
      invariant forall b: Ast, k: Key :: old(allocated(b)) ==>
          (Has(b.active, k) <==> Has(old(b.active), k) || OfferedTo(symbols[..i], b, k))
      invariant forall b: Ast :: old(allocated(b)) && old(b.active).Tidy() ==> b.active.Tidy()
    {
      var n := symbols[i];
      UpdateHas(n.block.active, Entries(n.symbol.value));
      n.block.active := n.block.active.Update(Entries(n.symbol.value));
      assert symbols[..i + 1] == symbols[..i] + [n];
    }
    assert symbols[..|symbols|] == symbols;
  }

  /** A node's block is the one around the whole tree, or in the tree. */
  lemma {:induction false} BlocksInside(c: Ast, block: Ast?, n: Ast)
    requires c.Valid() && c.Blocked(block) && n in c.nodes && n != c
    ensures n.block == c.Inner(block) || n.block in c.nodes
    decreases c.tree
  {
    var i :| 0 <= i < |c.children| && n in c.children[i].nodes;
    if n != c.children[i] { BlocksInside(c.children[i], c.Inner(block), n); }
  }

  /** The symbols directly in a tree are its nodes whose block is the one around its children. */
  lemma {:induction false} DirectNodes(c: Ast, block: Ast?, k: Key)
    requires c.Valid() && c.Blocked(block) && c.Inner(block) != null
    requires c.isBlock || block !in c.nodes
    ensures Direct(c.tree, k) <==> BelongsTo(c.nodes - {c}, c.Inner(block), k)
    decreases c.tree
  {
    var m := c.Inner(block);
    forall i | 0 <= i < |c.children|
      ensures (Offers(c.tree.children[i].symbol, k) ||
          (!c.tree.children[i].isBlock && Direct(c.tree.children[i], k))) <==>
              BelongsTo(c.children[i].nodes, m, k)
    {
      DirectChild(c, block, i, k);
    }
    BelongsToChild(c, m, k);
  }

  /** One of the nodes offers the key to the block. */
  ghost predicate BelongsTo(nodes: set<Ast>, b: Ast?, k: Key)
    reads nodes`block
  {
    exists n :: n in nodes && n.block == b && Offers(n.symbol, k)
  }

  lemma ChildOf(c: Ast, n: Ast) returns (i: nat)
    requires c.Valid() && n in c.nodes - {c}
    ensures i < |c.children| && n in c.children[i].nodes
  {
    i :| 0 <= i < |c.children| && n in c.children[i].nodes;
  }

  lemma ChildNodes(c: Ast, i: nat)
    requires c.Valid() && i < |c.children|
    ensures c.children[i].nodes <= c.nodes - {c}
  {
  }

  lemma BelongsToChild(c: Ast, b: Ast?, k: Key)
    requires c.Valid()
    ensures BelongsTo(c.nodes - {c}, b, k) <==>
        exists i :: 0 <= i < |c.children| && BelongsTo(c.children[i].nodes, b, k)
  {
    hide Ast.Valid, Offers;
    if BelongsTo(c.nodes - {c}, b, k) {
      var n :| n in c.nodes - {c} && n.block == b && Offers(n.symbol, k);
      var i := ChildOf(c, n);
      assert BelongsTo(c.children[i].nodes, b, k);
    }
    if i :| 0 <= i < |c.children| && BelongsTo(c.children[i].nodes, b, k) {
      var n :| n in c.children[i].nodes && n.block == b && Offers(n.symbol, k);
      ChildNodes(c, i);
      assert n in c.nodes - {c};
    }
  }

  lemma {:induction false} DirectChild(c: Ast, block: Ast?, i: nat, k: Key)
    requires c.Valid() && c.Blocked(block) && c.Inner(block) != null && i < |c.children|
    requires c.isBlock || block !in c.nodes
    ensures Offers(c.tree.children[i].symbol, k) || (!c.tree.children[i].isBlock && Direct(c.tree.children[i], k)) <==>
            BelongsTo(c.children[i].nodes, c.Inner(block), k)
    decreases c.tree, 0
  {
    var child, m := c.children[i], c.Inner(block);
    if child.isBlock {
      forall n | n in child.nodes && n != child
        ensures n.block != m
      {
        BlocksInside(child, m, n);
      }
    } else {
      DirectNodes(child, m, k);
    }
  }

  /** Entries made from all symbols of the tree are on every block those of the symbols directly in it. */
  lemma {:induction false} RecordedFrom(c: Ast, block: Ast?, symbols: seq<Ast>)
    requires c.Valid() && c.Blocked(block) && block !in c.nodes
    requires forall n :: n in c.nodes && n.symbol.Some? ==> n in symbols
    requires forall n :: n in symbols && n.block in c.nodes ==> n in c.nodes
    requires forall b :: b in c.nodes && b.isBlock ==> MadeFrom(b, symbols)
    ensures c.Recorded()
    decreases c.tree
  {
    var m := c.Inner(block);
    if c.isBlock {
      forall k
        ensures Has(c.active, k) <==> Direct(c.tree, k)
      {
        DirectNodes(c, block, k);
        OwnSymbols(c, block, symbols, k);
      }
    }
    forall i | 0 <= i < |c.children|
      ensures c.children[i].Recorded()
    {
      forall n | n in symbols && n.block in c.children[i].nodes
        ensures n in c.children[i].nodes
      {
        SameChild(c, block, n, i);
      }
      RecordedFrom(c.children[i], m, symbols);
    }
  }

  ghost predicate MadeFrom(b: Ast, symbols: seq<Ast>)
    reads b`active, symbols`block
  {
    b.active.Tidy() && forall k :: Has(b.active, k) <==> OfferedTo(symbols, b, k)
  }

  lemma OwnSymbols(c: Ast, block: Ast?, symbols: seq<Ast>, k: Key)
    requires c.Valid() && c.Blocked(block) && block !in c.nodes && c.isBlock
    requires forall n :: n in c.nodes && n.symbol.Some? ==> n in symbols
    requires forall n :: n in symbols && n.block in c.nodes ==> n in c.nodes
    ensures OfferedTo(symbols, c, k) <==> BelongsTo(c.nodes - {c}, c, k)
  {
  }

  /** A node whose block is in a child's tree is in that tree too. */
  lemma SameChild(c: Ast, block: Ast?, n: Ast, i: nat)
    requires c.Valid() && c.Blocked(block) && block !in c.nodes && i < |c.children|
    requires n in c.nodes && n.block in c.children[i].nodes
    ensures n in c.children[i].nodes
  {
    var j :| 0 <= j < |c.children| && n in c.children[j].nodes;
    if j != i {
      var child := c.children[j];
      if n != child { BlocksInside(child, c.Inner(block), n); }
    }
  }

  /** analyze_activity, given the symbol nodes of the tree in any order: afterwards the keys of every block are exactly
      the symbols used from outside, stored or deleted inside it. */
  method AnalyzeActivity(root: Ast, symbols: seq<Ast>)
    requires root.Valid() && root.Blocked(null) && root.isBlock && root.symbol.None?
    requires forall n :: n in symbols ==> n in root.nodes && n.symbol.Some?
    requires forall n :: n in root.nodes && n.symbol.Some? ==> n in symbols
    requires forall n :: n in root.nodes ==> n.active == NOTHING
    modifies root.nodes`active
    ensures root.Labelled()
  {
    assert root in root.nodes;
    hide Ast.Valid, Ast.Blocked, Ast.Recorded, Ast.Labelled, Offers, Returned;
    forall n | n in root.nodes && n != root
      ensures n.block in root.nodes
    {
      BlocksInside(root, null, n);
    }
    assert NOTHING.Tidy();
    Record(symbols);
    forall b | b in root.nodes
      ensures MadeFrom(b, symbols)
    {
    }
    RecordedFrom(root, null, symbols);
    var _ := root.PropagateActivity();
  }
}
