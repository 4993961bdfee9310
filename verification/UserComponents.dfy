/** Components of the engine: attributes with a schema, set and read by name. */
module UserComponents {
  import opened Values

  type Schema = map<string, Type>

  /** The attribute map; an entry without a primitive or an array counts as not set. */
  type Attributes = map<string, Value>

  const EMPTY := Value(None, NoValue)

  predicate IsSet(v: Value) {
    v.kind != NoValue
  }

  /** The attributes a read can return. */
  function View(values: Attributes): Attributes {
    map a | a in values && IsSet(values[a]) :: values[a]
  }

  /** A map access in the program: a missing entry is inserted empty. */
  function Touch(values: Attributes, attr: string): Attributes {
    if attr in values then values else values[attr := EMPTY]
  }

  predicate NumericType(t: Type) {
    Numeric(PrimitiveOf(t))
  }

  /** valHasCorrectDataType. */
  function HasCorrectType(v: Value): Result<bool> {
    if v.dataType.None? then Ok(false)
    else if v.dataType.value.ArrayOf? || PrimitiveOf(v.dataType.value) == INVALID ||
        PrimitiveOf(v.dataType.value) == BYTE then Throws
    else if TypeOfCase(v.Stored()).None? then Throws
    else Ok(TypeOfCase(v.Stored()).value == PrimitiveOf(v.dataType.value))
  }

  /** Truncation towards zero. */
  function Truncate(x: real): int {
    if x >= 0.0 then x.Floor else -((-x).Floor)
  }

  /** A cast between numeric types: to a narrower integer modulo its width; a real out of range is undefined. */
  function Cast(c: Case, p: Primitive): Result<Case>
    requires NumericCase(c) && Numeric(p)
  {
    if p == FLOAT32 || p == FLOAT64 then Ok(MakeReal(p, AsReal(c)))
    else if c.Float32? || c.Float64? then Fit(p, Truncate(c.x))
    else if p == INT64 then Ok(Int64(AsInt(c)))
    else Ok(Int32((AsInt(c) + 0x8000_0000) % 0x1_0000_0000 - 0x8000_0000))
  }

  /** What is stored when a value is assigned to an attribute of a type: numbers are cast to the type, other
      values must declare it. An attribute of an array type takes any value. */
  function StoredAs(t: Type, v: Value): Result<Value> {
    if HasCorrectType(v) != Ok(true) then Throws
    else if t.ArrayOf? then Ok(v)
    else if NumericType(t) && NumericCase(v.Stored()) then
      match Cast(v.Stored(), PrimitiveOf(t))
      case Ok(c) => Ok(Wrap(c))
      case Throws => Throws
      case Undefined => Undefined
    else if v.dataType == Some(t) then Ok(v)
    else Throws
  }

  /** The result of assigning a value that declares what it stores has the attribute's type, or the assignment
      throws; it throws exactly when neither both are numbers nor the types are equal. */
  lemma StoredType(t: Type, v: Value)
    requires !t.ArrayOf?
    ensures StoredAs(t, v).Ok? ==> t.Prim? && HasType(StoredAs(t, v).value, t.p)
    ensures WellTyped(v) ==>
              var p := TypeOfCase(v.Stored()).value;
              (StoredAs(t, v).Throws? <==> !(Numeric(p) && NumericType(t)) && t != Prim(p))
    ensures !WellTyped(v) ==> StoredAs(t, v).Throws?
  {
  }

  /** A number assigned to a floating point attribute keeps its value. */
  lemma StoredReal(t: Type, v: Value)
    requires t == Prim(FLOAT32) || t == Prim(FLOAT64)
    requires WellTyped(v) && NumericCase(v.Stored())
    ensures StoredAs(t, v).Ok? && HasType(StoredAs(t, v).value, t.p)
    ensures AsReal(StoredAs(t, v).value.Stored()) == AsReal(v.Stored())
  {
  }

  /** An integer assigned to an integer attribute: unchanged in 64 bits, congruent modulo 2^32 in 32 bits, and so
      unchanged when it fits. */
  lemma StoredInt(t: Type, v: Value)
    requires t == Prim(INT32) || t == Prim(INT64)
    requires WellTyped(v) && IntCase(v.Stored())
    ensures StoredAs(t, v).Ok? && HasType(StoredAs(t, v).value, t.p)
    ensures var a, i := AsInt(v.Stored()), AsInt(StoredAs(t, v).value.Stored());
      (t.p == INT64 ==> i == a) &&
      (t.p == INT32 ==> -0x8000_0000 <= i <= 0x7FFF_FFFF && (a - i) % 0x1_0000_0000 == 0) &&
      (-0x8000_0000 <= a <= 0x7FFF_FFFF ==> i == a)
  {
  }

  /** A real assigned to an integer attribute is cut towards zero; that is undefined exactly when the result is out of
      the type's range. */
  lemma StoredCut(t: Type, v: Value)
    requires t == Prim(INT32) || t == Prim(INT64)
    requires WellTyped(v) && (v.Stored().Float32? || v.Stored().Float64?)
    ensures var x := v.Stored().x;
      var low, high := if t.p == INT32 then -2147483648.0 else -9223372036854775808.0,
          if t.p == INT32 then 2147483647.0 else 9223372036854775807.0;
      (StoredAs(t, v).Undefined? <==> x <= low - 1.0 || x >= high + 1.0) && !StoredAs(t, v).Throws? &&
      (StoredAs(t, v).Ok? ==>
        HasType(StoredAs(t, v).value, t.p) &&
        var i := AsInt(StoredAs(t, v).value.Stored()) as real;
        if x >= 0.0 then 0.0 <= i <= x < i + 1.0 else i - 1.0 < x <= i <= 0.0)
  {
  }

  /** A value that already has the attribute's type is stored as it is. */
  lemma StoredSame(p: Primitive, v: Value)
    requires HasType(v, p)
    ensures StoredAs(Prim(p), v) == Ok(v)
  {
    if p == INT32 {
      var i := v.Stored().i32;
      assert 0 <= i + 0x8000_0000 < 0x1_0000_0000;
    }
  }

  /** An attribute of an array type takes any primitive, as it is, and nothing else: its value then has another type
      than its schema. */
  lemma ArrayTakesPrimitive(dimensions: seq<int>, element: Primitive, v: Value)
    ensures StoredAs(ArrayOf(dimensions, element), v) == if WellTyped(v) then Ok(v) else Throws
    ensures WellTyped(v) ==> v.dataType != Some(ArrayOf(dimensions, element))
  {
  }

  /** Every attribute of a primitive type that a read can return has that type. */
  predicate TypedBy(schema: Schema, values: Attributes) {
    forall a :: a in View(values) ==>
      a in schema && (schema[a].ArrayOf? || (schema[a].Prim? && HasType(values[a], schema[a].p)))
  }

  class UserComponent {
    const typeName: string
    const schema: Schema
    var values: Attributes

    constructor (typeName: string, schema: Schema)
      ensures this.typeName == typeName && this.schema == schema && values == map[]
    {
      this.typeName, this.schema, values := typeName, schema, map[];
    }

    /** A failed read may insert an empty entry but changes nothing a read can return. */
    method GetMutableValue(attr: string) returns (r: Result<Value>)
      modifies this
      ensures values == Touch(old(values), attr) && View(values) == View(old(values))
      ensures r == if attr in View(values) then Ok(View(values)[attr]) else Throws
      ensures TypedBy(schema, old(values)) ==> TypedBy(schema, values)
    {
      if attr !in values {
        values := values[attr := EMPTY];
      }
      if values[attr].kind == NoValue {
        return Throws;
      }
      return Ok(values[attr]);
    }

    /** Sets an attribute. A failed write changes nothing a read can return. */
    method SetValue(attr: string, value: Value) returns (r: Result<()>)
      modifies this
      ensures r.Ok? <==> attr in schema && StoredAs(schema[attr], value).Ok?
      ensures r.Ok? ==> r == Ok(())
      ensures r.Ok? ==> View(values) == View(old(values))[attr := StoredAs(schema[attr], value).value]
      ensures !r.Ok? ==> View(values) == View(old(values))
      ensures r.Throws? <==> attr !in schema || StoredAs(schema[attr], value).Throws?
      ensures TypedBy(schema, old(values)) ==> TypedBy(schema, values)
    {
      hide Cast;
      if attr !in schema {
        return Throws;
      }
      if value.dataType.None? {
        return Throws;
      }
      if HasCorrectType(value) != Ok(true) {
        return Throws;
      }
      if attr !in values {
        values := values[attr := EMPTY];
      }
      var t := schema[attr];
      if t.ArrayOf? {
        values := values[attr := value];
        return Ok(());
      }
      StoredType(t, value);
      if NumericType(t) && NumericCase(value.Stored()) {
        var c := Cast(value.Stored(), PrimitiveOf(t));
        if c.Ok? {
          values := values[attr := Wrap(c.value)];
          return Ok(());
        }
        return Undefined;
      }
      if value.dataType.value != t {
        return Throws;
      }
      values := values[attr := value];
      return Ok(());
    }
  }
}
