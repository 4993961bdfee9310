/** Typed values and the operations of the graph interpreter on them. Floating point numbers are reals. */
module Values {

  datatype Option<T> = None | Some(value: T)

  /** Outcome of code that may throw, or whose behaviour C++ leaves undefined. */
  datatype Result<T> = Ok(value: T) | Throws | Undefined

  datatype Primitive = INVALID | BYTE | INT32 | INT64 | FLOAT32 | FLOAT64 | BOOL | STRING

  /** A Type message; its kind may be unset. */
  datatype Type = NoKind | Prim(p: Primitive) | ArrayOf(dimensions: seq<int>, element: Primitive)

  type I32 = i: int | -0x8000_0000 <= i < 0x8000_0000
  type I64 = i: int | -0x8000_0000_0000_0000 <= i < 0x8000_0000_0000_0000

  /** The oneof of a primitive value. */
  datatype Case =
    | NotSet
    | Int8(b: I32)
    | Int32(i32: I32)
    | Int64(i64: I64)
    | Float32(x: real)
    | Float64(x: real)
    | Str(s: string)
    | Boolean(t: bool)

  datatype Kind = NoValue | Single(c: Case) | Many(cs: seq<Case>)

  /** A Value message: the declared type and what is stored. */
  datatype Value = Value(dataType: Option<Type>, kind: Kind) {

    /** The stored case, NotSet without a primitive. */
    function Stored(): Case {
      if kind.Single? then kind.c else NotSet
    }
  }

  /** Primitive() of a Type message: the default when it is not a primitive. */
  function PrimitiveOf(t: Type): Primitive {
    if t.Prim? then t.p else INVALID
  }

  /** The types the program's templates know: the declared type of each stored case. */
  function TypeOfCase(c: Case): Option<Primitive> {
    match c
    case Int32(_) => Some(INT32)
    case Int64(_) => Some(INT64)
    case Float32(_) => Some(FLOAT32)
    case Float64(_) => Some(FLOAT64)
    case Str(_) => Some(STRING)
    case Boolean(_) => Some(BOOL)
    case _ => None
  }

  predicate Numeric(p: Primitive) {
    p == INT32 || p == INT64 || p == FLOAT32 || p == FLOAT64
  }

  predicate NumericCase(c: Case) {
    c.Int32? || c.Int64? || c.Float32? || c.Float64?
  }

  predicate InRange(p: Primitive, i: int) {
    if p == INT32 then -0x8000_0000 <= i < 0x8000_0000 else -0x8000_0000_0000_0000 <= i < 0x8000_0000_0000_0000
  }

  /** setVal: a value whose declared type is the type of the stored case. */
  function Wrap(c: Case): (v: Value)
    requires TypeOfCase(c).Some?
    ensures WellTyped(v) && v.Stored() == c
  {
    Value(Some(Prim(TypeOfCase(c).value)), Single(c))
  }

  /** The declared type is the type of the stored case. */
  predicate WellTyped(v: Value) {
    TypeOfCase(v.Stored()).Some? && v.dataType == Some(Prim(TypeOfCase(v.Stored()).value))
  }

  predicate HasType(v: Value, p: Primitive) {
    WellTyped(v) && TypeOfCase(v.Stored()) == Some(p)
  }

  // ---------------------------------------------------------------- arithmetic

  datatype Op = Add | Sub | Mul | Div | Max | Min | Mod | And | Or | Eq | Gt | Lt | Ge | Le

  predicate Comparison(op: Op) {
    op == Eq || op == Gt || op == Lt || op == Ge || op == Le
  }

  /** C++'s arithmetic conversions: the type of a sum of the two. */
  function Common(p: Primitive, q: Primitive): Primitive
    requires Numeric(p) && Numeric(q)
  {
    if p == FLOAT64 || q == FLOAT64 then FLOAT64
    else if p == FLOAT32 || q == FLOAT32 then FLOAT32
    else if p == INT64 || q == INT64 then INT64
    else INT32
  }

  predicate IntCase(c: Case) {
    c.Int32? || c.Int64?
  }

  function AsInt(c: Case): int
    requires IntCase(c)
  {
    if c.Int32? then c.i32 else c.i64
  }

  function AsReal(c: Case): real
    requires NumericCase(c)
  {
    if IntCase(c) then AsInt(c) as real else c.x
  }

  function Make(p: Primitive, i: int): Case
    requires (p == INT32 || p == INT64) && InRange(p, i)
  {
    if p == INT32 then Int32(i) else Int64(i)
  }

  function MakeReal(p: Primitive, x: real): Case {
    if p == FLOAT32 then Float32(x) else Float64(x)
  }

  function Abs(a: int): nat {
    if a < 0 then -a else a
  }

  function DivNat(m: nat, d: nat): nat
    requires d > 0
  {
    if m < d then 0 else 1 + DivNat(m - d, d)
  }

  function ModNat(m: nat, d: nat): (r: nat)
    requires d > 0
    ensures r < d
  {
    if m < d then m else ModNat(m - d, d)
  }

  /** Integer division of C++: towards zero. */
  function Quotient(a: int, b: int): int
    requires b != 0
  {
    var q: int := DivNat(Abs(a), Abs(b));
    if (a < 0) == (b < 0) then q else -q
  }

  function Remainder(a: int, b: int): int
    requires b != 0
  {
    var r: int := ModNat(Abs(a), Abs(b));
    if a < 0 then -r else r
  }

  /** An integer result, which must fit its type. */
  function Fit(p: Primitive, i: int): Result<Case>
    requires p == INT32 || p == INT64
  {
    if InRange(p, i) then Ok(Make(p, i)) else Undefined
  }

  function IntArith(op: Op, p: Primitive, a: int, b: int): Result<Case>
    requires (p == INT32 || p == INT64) && op in {Add, Sub, Mul, Div, Max, Min, Mod}
  {
    match op
    case Add => Fit(p, a + b)
    case Sub => Fit(p, a - b)
    case Mul => Fit(p, a * b)
    case Div => if b == 0 then Undefined else Fit(p, Quotient(a, b))
    case Mod => if b == 0 || !InRange(p, Quotient(a, b)) then Undefined else Fit(p, Remainder(a, b))
    case Max => Fit(p, if a > b then a else b)
    case Min => Fit(p, if a < b then a else b)
  }

  function RealArith(op: Op, p: Primitive, a: real, b: real): Result<Case>
    requires op in {Add, Sub, Mul, Div, Max, Min}
  {
    match op
    case Add => Ok(MakeReal(p, a + b))
    case Sub => Ok(MakeReal(p, a - b))
    case Mul => Ok(MakeReal(p, a * b))
    case Div => if b == 0.0 then Undefined else Ok(MakeReal(p, a / b))
    case Max => Ok(MakeReal(p, if a > b then a else b))
    case Min => Ok(MakeReal(p, if a < b then a else b))
  }

  function Compare(op: Op, a: real, b: real): bool
    requires Comparison(op)
  {
    match op
    case Eq => a == b
    case Gt => a > b
    case Lt => a < b
    case Ge => a >= b
    case Le => a <= b
  }

  /** The operation on two numbers, after the conversions. */
  function NumericOp(op: Op, x: Case, y: Case): Result<Case>
    requires NumericCase(x) && NumericCase(y) && op != And && op != Or && op != Mod
  {
    if Comparison(op) then Ok(Boolean(Compare(op, AsReal(x), AsReal(y))))
    else
      var p := Common(TypeOfCase(x).value, TypeOfCase(y).value);
      if p == INT32 || p == INT64 then IntArith(op, p, AsInt(x), AsInt(y)) else RealArith(op, p, AsReal(x), AsReal(y))
  }

  /** The operation on two stored cases. */
  function CaseOp(op: Op, x: Case, y: Case): Result<Case> {
    match op
    case And => if x.Boolean? && y.Boolean? then Ok(Boolean(x.t && y.t)) else Throws
    case Or => if x.Boolean? && y.Boolean? then Ok(Boolean(x.t || y.t)) else Throws
    case Mod =>
      if IntCase(x) && IntCase(y) then IntArith(Mod, Common(TypeOfCase(x).value, TypeOfCase(y).value), AsInt(x),
          AsInt(y))
      else Throws
    case Eq =>
      if NumericCase(x) then if NumericCase(y) then NumericOp(Eq, x, y) else Throws
      else if x.Str? then if y.Str? then Ok(Boolean(x.s == y.s)) else Throws
      else if x.Boolean? then if y.Boolean? then Ok(Boolean(x.t == y.t)) else Throws
      else Throws
    case _ => if NumericCase(x) && NumericCase(y) then NumericOp(op, x, y) else Throws
  }

  /** The operation on two values: dispatched on what they store, whatever type they declare. */
  function Apply(op: Op, x: Value, y: Value): Result<Value> {
    match CaseOp(op, x.Stored(), y.Stored())
    case Ok(c) => if TypeOfCase(c).Some? then Ok(Wrap(c)) else Throws
    case Throws => Throws
    case Undefined => Undefined
  }

  function ApplyNot(x: Value): Result<Value> {
    if x.Stored().Boolean? then Ok(Wrap(Boolean(!x.Stored().t))) else Throws
  }

  /** The type of a result by the conversions, or None when the operation throws on these types. */
  function ResultType(op: Op, p: Primitive, q: Primitive): Option<Primitive> {
    if op == And || op == Or then if p == BOOL && q == BOOL then Some(BOOL) else None
    else if op == Mod then
      if (p == INT32 || p == INT64) && (q == INT32 || q == INT64) then Some(Common(p, q)) else None
    else if Numeric(p) && Numeric(q) then Some(if Comparison(op) then BOOL else Common(p, q))
    else if op == Eq && p == q && (p == STRING || p == BOOL) then Some(BOOL)
    else None
  }

  lemma IntArithType(op: Op, p: Primitive, a: int, b: int)
    requires (p == INT32 || p == INT64) && op in {Add, Sub, Mul, Div, Max, Min, Mod}
    ensures IntArith(op, p, a, b).Ok? ==>
              TypeOfCase(IntArith(op, p, a, b).value) == Some(p)
    ensures !IntArith(op, p, a, b).Throws?
  {
  }

  lemma RealArithType(op: Op, p: Primitive, a: real, b: real)
    requires (p == FLOAT32 || p == FLOAT64) && op in {Add, Sub, Mul, Div, Max, Min}
    ensures RealArith(op, p, a, b).Ok? ==> TypeOfCase(RealArith(op, p, a, b).value) == Some(p)
    ensures !RealArith(op, p, a, b).Throws?
  {
  }

  lemma NumericOpType(op: Op, x: Case, y: Case)
    requires NumericCase(x) && NumericCase(y) && op != And && op != Or && op != Mod
    ensures !NumericOp(op, x, y).Throws?
    ensures NumericOp(op, x, y).Ok? ==>
              var r := NumericOp(op, x, y).value;
              TypeOfCase(r) == Some(if Comparison(op) then BOOL else Common(TypeOfCase(x).value, TypeOfCase(y).value))
  {
    hide IntArith, RealArith, Compare, AsInt, AsReal;
    if !Comparison(op) {
      var p := Common(TypeOfCase(x).value, TypeOfCase(y).value);
      if p == INT32 || p == INT64 {
        IntArithType(op, p, AsInt(x), AsInt(y));
      } else {
        RealArithType(op, p, AsReal(x), AsReal(y));
      }
    }
  }

  /** The result type for the stored cases of two values. */
  function ApplyResult(op: Op, x: Value, y: Value): Option<Primitive> {
    var p, q := TypeOfCase(x.Stored()), TypeOfCase(y.Stored());
    if p.Some? && q.Some? then ResultType(op, p.value, q.value) else None
  }

  /** An operation throws exactly when the conversions give no type, whatever types the operands declare, and
      a result has the type the conversions give. */
  lemma ApplyType(op: Op, x: Value, y: Value)
    ensures Apply(op, x, y).Throws? <==> ApplyResult(op, x, y).None?
    ensures Apply(op, x, y).Ok? ==> HasType(Apply(op, x, y).value, ApplyResult(op, x, y).value)
  {
    hide IntArith, RealArith, NumericOp, Compare;
    var c, d := x.Stored(), y.Stored();
    if op == Mod {
      if IntCase(c) && IntCase(d) { IntArithType(Mod, Common(TypeOfCase(c).value, TypeOfCase(d).value), AsInt(c),
          AsInt(d)); }
    } else if op != And && op != Or && NumericCase(c) && NumericCase(d) {
      NumericOpType(op, c, d);
    }
  }

  lemma {:induction false} DivModNat(m: nat, d: nat)
    requires d > 0
    ensures m == DivNat(m, d) * d + ModNat(m, d)
  {
    if m >= d { DivModNat(m - d, d); }
  }

  lemma SignedProduct(q: int, b: int)
    ensures (-q) * b == -(q * b) && q * (-b) == -(q * b)
  {
  }

  /** Quotient and remainder make up the dividend; the quotient is cut towards zero, so the remainder has the
      dividend's sign and is smaller than the divisor. */
  lemma DivisionTruncates(a: int, b: int)
    requires b != 0
    ensures a == Quotient(a, b) * b + Remainder(a, b) && Abs(Remainder(a, b)) < Abs(b)
    ensures if a >= 0 then Remainder(a, b) >= 0 else Remainder(a, b) <= 0
  {
    DivModNat(Abs(a), Abs(b));
    SignedProduct(DivNat(Abs(a), Abs(b)), b);
  }

  // ---------------------------------------------------------------- what an operation returns

  /** What a number is: each integer case is its integer, each floating point case its real; and its type. */
  lemma NumbersOfCases(i: I32, j: I64, x: real)
    ensures AsInt(Int32(i)) == i && AsReal(Int32(i)) == i as real && TypeOfCase(Int32(i)) == Some(INT32)
    ensures AsInt(Int64(j)) == j && AsReal(Int64(j)) == j as real && TypeOfCase(Int64(j)) == Some(INT64)
    ensures AsReal(Float32(x)) == x && TypeOfCase(Float32(x)) == Some(FLOAT32)
    ensures AsReal(Float64(x)) == x && TypeOfCase(Float64(x)) == Some(FLOAT64)
  {
  }

  /** The common type of two numbers is one of theirs: the wider, a floating point type before any integer. */
  lemma CommonIsWider(p: Primitive, q: Primitive)
    requires Numeric(p) && Numeric(q)
    ensures Common(p, q) == p || Common(p, q) == q
    ensures Common(p, q) == INT32 <==> p == INT32 && q == INT32
    ensures Common(p, q) == FLOAT64 <==> p == FLOAT64 || q == FLOAT64
    ensures Common(p, q) == FLOAT32 ==> p == FLOAT32 || q == FLOAT32
    ensures Common(p, q) == INT64 ==> p != FLOAT32 && q != FLOAT32
  {
  }

  lemma RealOfProduct(a: int, b: int)
    ensures (a * b) as real == (a as real) * (b as real)
  {
  }

  /** An operation on numbers that is no comparison: on the integers of two integer cases, on the reals otherwise. */
  lemma ApplyNumbers(op: Op, x: Value, y: Value)
    requires op in {Add, Sub, Mul, Div, Max, Min}
    ensures var c, d, r := x.Stored(), y.Stored(), Apply(op, x, y);
      (r.Throws? <==> !(NumericCase(c) && NumericCase(d))) &&
      (!r.Throws? ==>
        var p := Common(TypeOfCase(c).value, TypeOfCase(d).value);
        var s := if IntCase(c) && IntCase(d) then IntArith(op, p, AsInt(c), AsInt(d))
            else RealArith(op, p, AsReal(c), AsReal(d));
        (r.Ok? <==> s.Ok?) && (r.Ok? ==> r.value.Stored() == s.value))
  {
    hide IntArith, RealArith;
    var c, d := x.Stored(), y.Stored();
    if NumericCase(c) && NumericCase(d) {
      var p := Common(TypeOfCase(c).value, TypeOfCase(d).value);
      if IntCase(c) && IntCase(d) {
        IntArithType(op, p, AsInt(c), AsInt(d));
      } else {
        RealArithType(op, p, AsReal(c), AsReal(d));
      }
    }
  }

  lemma IntArithValue(op: Op, p: Primitive, a: int, b: int)
    requires (p == INT32 || p == INT64) && op in {Add, Sub, Mul, Div, Max, Min, Mod} && IntArith(op, p, a, b).Ok?
    ensures IntCase(IntArith(op, p, a, b).value)
    ensures var r := AsInt(IntArith(op, p, a, b).value);
      (op == Add ==> r == a + b) && (op == Sub ==> r == a - b) && (op == Mul ==> r == a * b) &&
      (op == Max ==> (r == a || r == b) && r >= a && r >= b) &&
      (op == Min ==> (r == a || r == b) && r <= a && r <= b) &&
      (op == Div ==> b != 0 && r == Quotient(a, b)) && (op == Mod ==> b != 0 && r == Remainder(a, b))
  {
    hide Quotient, Remainder;
  }

  lemma RealArithValue(op: Op, p: Primitive, a: real, b: real)
    requires (p == FLOAT32 || p == FLOAT64) && op in {Add, Sub, Mul, Div, Max, Min} && RealArith(op, p, a, b).Ok?
    ensures RealArith(op, p, a, b).value.Float32? || RealArith(op, p, a, b).value.Float64?
    ensures var r := AsReal(RealArith(op, p, a, b).value);
      (op == Add ==> r == a + b) && (op == Sub ==> r == a - b) && (op == Mul ==> r == a * b) &&
      (op == Max ==> (r == a || r == b) && r >= a && r >= b) &&
      (op == Min ==> (r == a || r == b) && r <= a && r <= b) &&
      (op == Div ==> b != 0.0 && r == a / b)
  {
  }

  /** r is what the operation makes of the numbers a and b. */
  predicate Makes(op: Op, a: real, b: real, r: real) {
    match op
    case Add => r == a + b
    case Sub => r == a - b
    case Mul => r == a * b
    case Max => (r == a || r == b) && r >= a && r >= b
    case Min => (r == a || r == b) && r <= a && r <= b
    case _ => false
  }

  lemma IntsMake(op: Op, p: Primitive, a: int, b: int)
    requires (p == INT32 || p == INT64) && op in {Add, Sub, Mul, Max, Min} && IntArith(op, p, a, b).Ok?
    ensures NumericCase(IntArith(op, p, a, b).value)
    ensures Makes(op, a as real, b as real, AsReal(IntArith(op, p, a, b).value))
  {
    IntArithValue(op, p, a, b);
    RealOfProduct(a, b);
  }

  lemma RealsMake(op: Op, p: Primitive, a: real, b: real)
    requires (p == FLOAT32 || p == FLOAT64) && op in {Add, Sub, Mul, Max, Min} && RealArith(op, p, a, b).Ok?
    ensures NumericCase(RealArith(op, p, a, b).value) && Makes(op, a, b, AsReal(RealArith(op, p, a, b).value))
  {
  }

  /** Sums, differences, products, maxima and minima are those of the operands' numbers. */
  lemma ArithmeticValue(op: Op, x: Value, y: Value)
    requires op in {Add, Sub, Mul, Max, Min} && Apply(op, x, y).Ok?
    ensures NumericCase(x.Stored()) && NumericCase(y.Stored()) && NumericCase(Apply(op, x, y).value.Stored())
    ensures Makes(op, AsReal(x.Stored()), AsReal(y.Stored()), AsReal(Apply(op, x, y).value.Stored()))
  {
    hide Apply, IntArith, RealArith, Makes;
    ApplyNumbers(op, x, y);
    var c, d := x.Stored(), y.Stored();
    var p := Common(TypeOfCase(c).value, TypeOfCase(d).value);
    if IntCase(c) && IntCase(d) {
      IntsMake(op, p, AsInt(c), AsInt(d));
    } else {
      RealsMake(op, p, AsReal(c), AsReal(d));
    }
  }

  /** q and r are quotient and remainder of a by b, the quotient cut towards zero. */
  predicate Truncates(a: int, b: int, q: int, r: int) {
    a == q * b + r && Abs(r) < Abs(b) && (if a >= 0 then r >= 0 else r <= 0)
  }

  /** Division: of reals the quotient; of integers the quotient cut towards zero. */
  lemma DivisionValue(x: Value, y: Value)
    requires Apply(Div, x, y).Ok?
    ensures NumericCase(x.Stored()) && NumericCase(y.Stored()) && NumericCase(Apply(Div, x, y).value.Stored())
    ensures var c, d, r := x.Stored(), y.Stored(), Apply(Div, x, y).value.Stored();
      if IntCase(c) && IntCase(d) then
        IntCase(r) && exists m :: Truncates(AsInt(c), AsInt(d), AsInt(r), m)
      else AsReal(d) != 0.0 && AsReal(r) == AsReal(c) / AsReal(d)
  {
    hide Apply, IntArith, RealArith, Quotient, Remainder;
    ApplyNumbers(Div, x, y);
    var c, d := x.Stored(), y.Stored();
    var p := Common(TypeOfCase(c).value, TypeOfCase(d).value);
    if !(IntCase(c) && IntCase(d)) {
      RealArithValue(Div, p, AsReal(c), AsReal(d));
    } else {
      IntArithValue(Div, p, AsInt(c), AsInt(d));
      DivisionTruncates(AsInt(c), AsInt(d));
      assert Truncates(AsInt(c), AsInt(d), Quotient(AsInt(c), AsInt(d)), Remainder(AsInt(c), AsInt(d)));
    }
  }

  lemma RemainderValue(x: Value, y: Value)
    requires Apply(Mod, x, y).Ok?
    ensures IntCase(x.Stored()) && IntCase(y.Stored()) && IntCase(Apply(Mod, x, y).value.Stored())
    ensures var a, b, r := AsInt(x.Stored()), AsInt(y.Stored()), AsInt(Apply(Mod, x, y).value.Stored());
      exists q :: Truncates(a, b, q, r)
    ensures Apply(Div, x, y).Ok? && IntCase(Apply(Div, x, y).value.Stored()) &&
            Truncates(AsInt(x.Stored()), AsInt(y.Stored()), AsInt(Apply(Div, x, y).value.Stored()),
                      AsInt(Apply(Mod, x, y).value.Stored()))
  {
    hide Quotient, Remainder;
    var a, b := AsInt(x.Stored()), AsInt(y.Stored());
    var p := Common(TypeOfCase(x.Stored()).value, TypeOfCase(y.Stored()).value);
    assert IntArith(Mod, p, a, b).Ok? && IntArith(Div, p, a, b).Ok?;
    ApplyNumbers(Div, x, y);
    IntArithValue(Mod, p, a, b);
    IntArithValue(Div, p, a, b);
    DivisionTruncates(a, b);
    assert Truncates(a, b, Quotient(a, b), Remainder(a, b));
  }

  /** A comparison is true exactly when it holds of the numbers, and equality also of two strings or two booleans. */
  lemma ComparisonValue(op: Op, x: Value, y: Value)
    requires Comparison(op) && Apply(op, x, y).Ok?
    ensures var c, d, r := x.Stored(), y.Stored(), Apply(op, x, y).value.Stored();
      r.Boolean? &&
      if NumericCase(c) then
        NumericCase(d) &&
        (op == Eq ==> (r.t <==> AsReal(c) == AsReal(d))) &&
        (op == Lt ==> (r.t <==> AsReal(c) < AsReal(d))) && (op == Gt ==> (r.t <==> AsReal(c) > AsReal(d))) &&
        (op == Le ==> (r.t <==> AsReal(c) <= AsReal(d))) && (op == Ge ==> (r.t <==> AsReal(c) >= AsReal(d)))
      else if c.Str? then op == Eq && d.Str? && (r.t <==> c.s == d.s)
      else op == Eq && c.Boolean? && d.Boolean? && (r.t <==> c.t == d.t)
  {
  }

  /** And, or and not on booleans. */
  lemma LogicValue(x: Value, y: Value)
    ensures Apply(And, x, y).Ok? ==>
      x.Stored().Boolean? && y.Stored().Boolean? &&
      Apply(And, x, y).value.Stored() == Boolean(x.Stored().t && y.Stored().t)
    ensures Apply(Or, x, y).Ok? ==>
      x.Stored().Boolean? && y.Stored().Boolean? &&
      Apply(Or, x, y).value.Stored() == Boolean(x.Stored().t || y.Stored().t)
    ensures ApplyNot(x).Ok? <==> x.Stored().Boolean?
    ensures ApplyNot(x).Ok? ==> ApplyNot(x).value.Stored() == Boolean(!x.Stored().t)
  {
  }

  /** The exact result of an integer operation leaves the type of the result, or there is none: the divisor is zero, or
      the smallest number is divided by -1. */
  predicate Overflows(op: Op, p: Primitive, a: int, b: int) {
    var (low, high) := if p == INT32 then (-0x8000_0000, 0x7FFF_FFFF)
        else (-0x8000_0000_0000_0000, 0x7FFF_FFFF_FFFF_FFFF);
    match op
    case Add => !(low <= a + b <= high)
    case Sub => !(low <= a - b <= high)
    case Mul => !(low <= a * b <= high)
    case Div => b == 0 || (a == low && b == -1)
    case Mod => b == 0 || (a == low && b == -1)
    case _ => false
  }

  lemma {:induction false} QuotientSmaller(m: nat, d: nat)
    requires d > 0
    ensures DivNat(m, d) <= m && (d == 1 ==> DivNat(m, d) == m) && (d > 1 ==> 2 * DivNat(m, d) <= m)
  {
    if m >= d { QuotientSmaller(m - d, d); }
  }

  /** Only the smallest number divided by -1 has a quotient out of range. */
  lemma QuotientFits(p: Primitive, a: int, b: int)
    requires (p == INT32 || p == INT64) && InRange(p, a) && b != 0
    ensures InRange(p, Quotient(a, b)) <==> !Overflows(Div, p, a, b)
  {
    QuotientSmaller(Abs(a), Abs(b));
  }

  /** An operation is undefined exactly when its exact result overflows, or a real is divided by zero. */
  lemma UndefinedExactly(op: Op, x: Value, y: Value)
    ensures var c, d := x.Stored(), y.Stored();
      Apply(op, x, y).Undefined? <==>
      NumericCase(c) && NumericCase(d) &&
      if IntCase(c) && IntCase(d) then
        Overflows(op, if c.Int32? && d.Int32? then INT32 else INT64, AsInt(c), AsInt(d))
      else op == Div && AsReal(d) == 0.0
  {
    hide Quotient, Remainder, IntArith, Overflows, InRange;
    var c, d := x.Stored(), y.Stored();
    if IntCase(c) && IntCase(d) {
      var p := if c.Int32? && d.Int32? then INT32 else INT64;
      assert Common(TypeOfCase(c).value, TypeOfCase(d).value) == p;
      OperandsFit(c, d);
      OverflowsExactly(op, p, AsInt(c), AsInt(d));
    }
  }

  lemma OperandsFit(c: Case, d: Case)
    requires IntCase(c) && IntCase(d)
    ensures var p := if c.Int32? && d.Int32? then INT32 else INT64; InRange(p, AsInt(c)) && InRange(p, AsInt(d))
  {
  }

  lemma OverflowsExactly(op: Op, p: Primitive, a: int, b: int)
    requires (p == INT32 || p == INT64) && InRange(p, a) && InRange(p, b)
    ensures if op in {Add, Sub, Mul, Div, Max, Min, Mod} then
              IntArith(op, p, a, b).Undefined? <==> Overflows(op, p, a, b)
            else !Overflows(op, p, a, b)
  {
    hide Quotient, Remainder;
    if b != 0 {
      QuotientFits(p, a, b);
      RemainderFits(p, a, b);
    }
  }

  lemma RemainderFits(p: Primitive, a: int, b: int)
    requires (p == INT32 || p == INT64) && InRange(p, a) && InRange(p, b) && b != 0
    ensures InRange(p, Remainder(a, b))
  {
    DivisionTruncates(a, b);
  }
}
