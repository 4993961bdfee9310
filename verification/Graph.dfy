/** Computation graphs: nodes, what they evaluate to on a store, and the nodes the SDK's operators build. */
module Graph {
  import opened Values

  /** An attribute of a component of an entity. */
  datatype Ref = Ref(entity: nat, component: string, attribute: string)

  datatype Node =
    | Unset
    | Const(v: Value)
    | Retrieve(ref: Ref)
    | Mutate(target: Ref, to: Node)
    | Switch(condition: Node, ifTrue: Node, ifFalse: Node)
    | Binary(op: Op, x: Node, y: Node)
    | Not(x: Node)

  /** The values of the attributes that are set. */
  type Store = map<Ref, Value>

  /** evaluateNode: only the chosen side of a switch is evaluated; both operands of an operation always are. */
  function Eval(n: Node, s: Store): Result<Value> {
    match n
    case Unset => Throws
    case Const(v) => Ok(v)
    case Retrieve(ref) => if ref in s then Ok(s[ref]) else Throws
    case Mutate(_, _) => Throws
    case Switch(c, t, f) =>
      (match Eval(c, s)
       case Ok(v) => if v.Stored().Boolean? then (if v.Stored().t then Eval(t, s) else Eval(f, s)) else Throws
       case Throws => Throws
       case Undefined => Undefined)
    case Binary(op, x, y) => Combine(op, Eval(x, s), Eval(y, s))
    case Not(x) =>
      (match Eval(x, s)
       case Ok(v) => ApplyNot(v)
       case Throws => Throws
       case Undefined => Undefined)
  }

  /** An operation on what its operands evaluate to; the first operand's failure comes first. */
  function Combine(op: Op, x: Result<Value>, y: Result<Value>): Result<Value> {
    if !x.Ok? then x else if !y.Ok? then y else Apply(op, x.value, y.value)
  }

  /** Attributes a node retrieves anywhere, in a branch not taken too. */
  function Retrieves(n: Node): set<Ref> {
    match n
    case Retrieve(ref) => {ref}
    case Mutate(_, to) => Retrieves(to)
    case Switch(c, t, f) => Retrieves(c) + Retrieves(t) + Retrieves(f)
    case Binary(_, x, y) => Retrieves(x) + Retrieves(y)
    case Not(x) => Retrieves(x)
    case _ => {}
  }

  /** A node sees only what it retrieves. */
  lemma {:induction false} EvalFrame(n: Node, s: Store, t: Store)
    requires forall r :: r in Retrieves(n) ==> (r in s <==> r in t) && (r in s ==> s[r] == t[r])
    ensures Eval(n, s) == Eval(n, t)
  {
    match n
    case Switch(c, x, y) =>
      EvalFrame(c, s, t);
      EvalFrame(x, s, t);
      EvalFrame(y, s, t);
    case Binary(_, x, y) =>
      EvalFrame(x, s, t);
      EvalFrame(y, s, t);
    case Not(x) => EvalFrame(x, s, t);
    case _ =>
  }

  // ---------------------------------------------------------------- operators of graph nodes

  /** Operators and plotter calls a traced function can apply to two nodes. */
  datatype Operator =
    | Plus | Minus | Times | Over | Modulo
    | Less | Greater | Equal | AtMost | AtLeast
    | Larger | Smaller

  /** The node an operator builds: "at most" is "less or equal" and "greater" swaps the operands. */
  function Build(o: Operator, x: Node, y: Node): Node {
    match o
    case Plus => Binary(Add, x, y)
    case Minus => Binary(Sub, x, y)
    case Times => Binary(Mul, x, y)
    case Over => Binary(Div, x, y)
    case Modulo => Binary(Mod, x, y)
    case Less => Binary(Lt, x, y)
    case Greater => Binary(Lt, y, x)
    case Equal => Binary(Eq, x, y)
    case AtMost => Binary(Or, Binary(Lt, x, y), Binary(Eq, x, y))
    case AtLeast => Binary(Or, Binary(Lt, y, x), Binary(Eq, x, y))
    case Larger => Binary(Max, x, y)
    case Smaller => Binary(Min, x, y)
  }

  /** The engine operation an operator stands for. */
  function Meant(o: Operator): Op {
    match o
    case Plus => Add
    case Minus => Sub
    case Times => Mul
    case Over => Div
    case Modulo => Mod
    case Less => Lt
    case Greater => Gt
    case Equal => Eq
    case AtMost => Le
    case AtLeast => Ge
    case Larger => Max
    case Smaller => Min
  }

  /** What the built node gives for its operands' results. */
  function Effect(o: Operator, x: Result<Value>, y: Result<Value>): Result<Value> {
    match o
    case Greater => Combine(Lt, y, x)
    case AtMost => Combine(Or, Combine(Lt, x, y), Combine(Eq, x, y))
    case AtLeast => Combine(Or, Combine(Lt, y, x), Combine(Eq, x, y))
    case _ => Combine(Meant(o), x, y)
  }

  lemma EffectMeaning(o: Operator, v: Value, w: Value)
    ensures Effect(o, Ok(v), Ok(w)) == Apply(Meant(o), v, w)
  {
    hide Apply;
    match o
    case Greater => Swapped(v, w);
    case AtMost => LessOrEqual(v, w);
    case AtLeast => GreaterOrEqual(v, w);
    case _ =>
  }

  lemma BuildEffect(o: Operator, x: Node, y: Node, s: Store)
    ensures Eval(Build(o, x, y), s) == Effect(o, Eval(x, s), Eval(y, s))
  {
    hide Eval, Combine;
    EvalBinary(Meant(o), x, y, s);
    EvalBinary(Lt, x, y, s);
    EvalBinary(Lt, y, x, s);
    EvalBinary(Eq, x, y, s);
    EvalBinary(Or, Binary(Lt, x, y), Binary(Eq, x, y), s);
    EvalBinary(Or, Binary(Lt, y, x), Binary(Eq, x, y), s);
  }

  /** The built node means the engine's operation on the operands' values. */
  lemma BuildMeaning(o: Operator, x: Node, y: Node, s: Store)
    requires Eval(x, s).Ok? && Eval(y, s).Ok?
    ensures Eval(Build(o, x, y), s) == Apply(Meant(o), Eval(x, s).value, Eval(y, s).value)
  {
    hide Eval, Apply, Effect;
    BuildEffect(o, x, y, s);
    EffectMeaning(o, Eval(x, s).value, Eval(y, s).value);
  }

  lemma EvalBinary(op: Op, x: Node, y: Node, s: Store)
    ensures Eval(Binary(op, x, y), s) == Combine(op, Eval(x, s), Eval(y, s))
  {
  }

  lemma Swapped(v: Value, w: Value)
    ensures Apply(Lt, w, v) == Apply(Gt, v, w)
  {
  }

  lemma LessOrEqual(v: Value, w: Value)
    ensures Combine(Or, Apply(Lt, v, w), Apply(Eq, v, w)) == Apply(Le, v, w)
  {
  }

  lemma GreaterOrEqual(v: Value, w: Value)
    ensures Combine(Or, Apply(Lt, w, v), Apply(Eq, v, w)) == Apply(Ge, v, w)
  {
  }

  /** What an operator's node gives on two numbers: the sum, difference, product, quotient, remainder, larger or
      smaller, and whether the first is less than, more than, equal to, at most or at least the second. */
  lemma OperatorValue(o: Operator, x: Node, y: Node, s: Store)
    requires Eval(x, s).Ok? && Eval(y, s).Ok? && Eval(Build(o, x, y), s).Ok?
    requires NumericCase(Eval(x, s).value.Stored()) && NumericCase(Eval(y, s).value.Stored())
    ensures var c, d, e := Eval(x, s).value.Stored(), Eval(y, s).value.Stored(), Eval(Build(o, x, y), s).value.Stored();
      var a, b := AsReal(c), AsReal(d);
      match o
      case Plus => NumericCase(e) && AsReal(e) == a + b
      case Minus => NumericCase(e) && AsReal(e) == a - b
      case Times => NumericCase(e) && AsReal(e) == a * b
      case Over =>
        if IntCase(c) && IntCase(d) then IntCase(e) && exists m :: Truncates(AsInt(c), AsInt(d), AsInt(e), m)
        else NumericCase(e) && b != 0.0 && AsReal(e) == a / b
      case Modulo =>
        IntCase(c) && IntCase(d) && IntCase(e) && exists q :: Truncates(AsInt(c), AsInt(d), q, AsInt(e))
      case Less => e == Boolean(a < b)
      case Greater => e == Boolean(a > b)
      case Equal => e == Boolean(a == b)
      case AtMost => e == Boolean(a <= b)
      case AtLeast => e == Boolean(a >= b)
      case Larger => NumericCase(e) && (AsReal(e) == a || AsReal(e) == b) && AsReal(e) >= a && AsReal(e) >= b
      case Smaller => NumericCase(e) && (AsReal(e) == a || AsReal(e) == b) && AsReal(e) <= a && AsReal(e) <= b
  {
    hide Eval, Build, Apply, AsReal;
    BuildMeaning(o, x, y, s);
    var v, w := Eval(x, s).value, Eval(y, s).value;
    match o
    case Over => DivisionValue(v, w);
    case Modulo => RemainderValue(v, w);
    case Less => ComparisonValue(Lt, v, w);
    case Greater => ComparisonValue(Gt, v, w);
    case Equal => ComparisonValue(Eq, v, w);
    case AtMost => ComparisonValue(Le, v, w);
    case AtLeast => ComparisonValue(Ge, v, w);
    case _ => ArithmeticValue(Meant(o), v, w);
  }

  /** The node for "not" negates a boolean, and fails on anything else. */
  lemma NotValue(x: Node, s: Store)
    ensures Eval(x, s).Ok? && Eval(x, s).value.Stored().Boolean? ==>
              Eval(Not(x), s).Ok? && Eval(Not(x), s).value.Stored() == Boolean(!Eval(x, s).value.Stored().t)
    ensures Eval(x, s).Ok? && !Eval(x, s).value.Stored().Boolean? ==> Eval(Not(x), s) == Throws
    ensures !Eval(x, s).Ok? ==> Eval(Not(x), s) == Eval(x, s)
  {
  }

  // ---------------------------------------------------------------- keys of the tracer's dictionaries

  function Digits(n: nat): string {
    if n < 10 then [('0' as int + n) as char] else Digits(n / 10) + [('0' as int + n % 10) as char]
  }

  /** The text the tracer uses as a key for an attribute. */
  function Key(r: Ref): string {
    Digits(r.entity) + "/" + r.component + "/" + r.attribute
  }

  lemma {:induction false} DigitsNoSlash(n: nat)
    ensures '/' !in Digits(n)
  {
    if n >= 10 { DigitsNoSlash(n / 10); }
  }

  lemma {:induction false} DigitsInjective(m: nat, n: nat)
    requires Digits(m) == Digits(n)
    ensures m == n
  {
    var a, b := Digits(m), Digits(n);
    assert a[|a| - 1] == b[|b| - 1];
    DigitsLength(m);
    DigitsLength(n);
    if m >= 10 && n >= 10 {
      assert a[..|a| - 1] == Digits(m / 10) && b[..|b| - 1] == Digits(n / 10);
      DigitsInjective(m / 10, n / 10);
    }
  }

  lemma DigitsLength(n: nat)
    ensures |Digits(n)| == 1 <==> n < 10
  {
    if n >= 10 { assert |Digits(n / 10)| > 0; }
  }

  /** Texts cut at their first slash. */
  lemma SplitAtSlash(a: string, b: string, c: string, d: string)
    requires '/' !in a && '/' !in c && a + "/" + b == c + "/" + d
    ensures a == c && b == d
  {
    var s, t := a + "/" + b, c + "/" + d;
    assert s[|a|] == '/' && forall i :: 0 <= i < |a| ==> s[i] == a[i];
    assert t[|c|] == '/' && forall i :: 0 <= i < |c| ==> t[i] == c[i];
    assert |a| == |c|;
    assert a == s[..|a|] && c == t[..|a|];
    assert b == s[|a| + 1..] && d == t[|a| + 1..];
  }

  /** The component's name of q runs on into what is the attribute's name in r. */
  ghost predicate RunsOn(q: Ref, r: Ref) {
    q.entity == r.entity &&
    exists x :: q.component == r.component + "/" + x && r.attribute == x + "/" + q.attribute
  }

  lemma LongerName(q: Ref, r: Ref)
    requires q.entity == r.entity && |q.component| > |r.component|
    requires q.component + "/" + q.attribute == r.component + "/" + r.attribute
    ensures RunsOn(q, r)
  {
    var s, t, n := q.component + "/" + q.attribute, r.component + "/" + r.attribute, |r.component|;
    var x := q.component[n + 1..];
    assert forall i :: 0 <= i < |q.component| ==> s[i] == q.component[i];
    assert t[..n] == r.component && t[n] == '/' && q.component[n] == t[n] && q.component[..n] == t[..n];
    assert q.component == r.component + "/" + x;
    assert t[n + 1..] == r.attribute;
    assert s == r.component + "/" + (x + "/" + q.attribute);
    assert s[n + 1..] == x + "/" + q.attribute;
  }

  lemma KeyParts(q: Ref, r: Ref)
    ensures Key(q) == Key(r) <==>
            q.entity == r.entity && q.component + "/" + q.attribute == r.component + "/" + r.attribute
  {
    assert Key(q) == Digits(q.entity) + "/" + (q.component + "/" + q.attribute);
    assert Key(r) == Digits(r.entity) + "/" + (r.component + "/" + r.attribute);
    if Key(q) == Key(r) {
      DigitsNoSlash(q.entity);
      DigitsNoSlash(r.entity);
      SplitAtSlash(Digits(q.entity), q.component + "/" + q.attribute, Digits(r.entity),
          r.component + "/" + r.attribute);
      DigitsInjective(q.entity, r.entity);
    }
  }

  lemma RunsOnCollides(q: Ref, r: Ref)
    requires RunsOn(q, r)
    ensures Key(q) == Key(r)
  {
    var x :| q.component == r.component + "/" + x && r.attribute == x + "/" + q.attribute;
    assert r.component + "/" + x + "/" + q.attribute == r.component + "/" + (x + "/" + q.attribute);
    KeyParts(q, r);
  }

  /** Two attributes share a key exactly when they are the same or the name of one's component runs on into the name
      of the other's attribute. */
  lemma KeyCollision(q: Ref, r: Ref)
    ensures Key(q) == Key(r) <==> q == r || RunsOn(q, r) || RunsOn(r, q)
  {
    if Key(q) == Key(r) {
      KeyParts(q, r);
      if |q.component| > |r.component| {
        LongerName(q, r);
      } else if |q.component| < |r.component| {
        LongerName(r, q);
      } else {
        SameLengthName(q, r);
      }
    }
    if RunsOn(q, r) { RunsOnCollides(q, r); }
    if RunsOn(r, q) { RunsOnCollides(r, q); }
  }

  lemma SameLengthName(q: Ref, r: Ref)
    requires q.entity == r.entity && |q.component| == |r.component|
    requires q.component + "/" + q.attribute == r.component + "/" + r.attribute
    ensures q == r
  {
    var s, t, n := q.component + "/" + q.attribute, r.component + "/" + r.attribute, |r.component|;
    assert s[..n] == q.component && t[..n] == r.component;
    assert s[n + 1..] == q.attribute && t[n + 1..] == r.attribute;
  }

  /** So keys are distinct when attribute names have no slash, as names in Python have none, and also when component
      names have none. */
  lemma KeyInjective(q: Ref, r: Ref)
    requires ('/' !in q.attribute && '/' !in r.attribute) || ('/' !in q.component && '/' !in r.component)
    requires Key(q) == Key(r)
    ensures q == r
  {
    KeyCollision(q, r);
    if RunsOn(q, r) { RunsOnSlash(q, r); }
    if RunsOn(r, q) { RunsOnSlash(r, q); }
  }

  lemma RunsOnSlash(q: Ref, r: Ref)
    requires RunsOn(q, r)
    ensures '/' in q.component && '/' in r.attribute
  {
    var x :| q.component == r.component + "/" + x && r.attribute == x + "/" + q.attribute;
    assert q.component[|r.component|] == '/' && r.attribute[|x|] == '/';
  }
}
