/**
 * The dynamically typed values that the option validators inspect.
 * A JavaScript value is `undefined`, `null`, a boolean, a finite number,
 * a string, an object (arrays included, keyed by their property names)
 * or one of the remaining primitive kinds. `typeof`, truthiness, `??`
 * and property lookup are defined here once.
 */
module Values {

  /** Value kinds that the validators never accept but whose `typeof` and truthiness still matter. */
  datatype OtherKind = FunctionValue | SymbolValue | BigIntValue(isZero: bool)

  datatype Value =
    | Undef
    | Null
    | Bool(b: bool)
    | Num(n: real)
    | Str(s: string)
    | Obj(fields: map<string, Value>)
    | Other(kind: OtherKind)

  /** JavaScript's `typeof`. */
  function TypeOf(v: Value): (t: string)
    ensures t == "object" <==> v.Null? || v.Obj?
    ensures t == "number" <==> v.Num?
    ensures t == "boolean" <==> v.Bool?
    ensures t == "undefined" <==> v.Undef?
  {
    match v
    case Undef => "undefined"
    case Null => "object"
    case Bool(_) => "boolean"
    case Num(_) => "number"
    case Str(_) => "string"
    case Obj(_) => "object"
    case Other(FunctionValue) => "function"
    case Other(SymbolValue) => "symbol"
    case Other(BigIntValue(_)) => "bigint"
  }

  /** JavaScript truthiness: what `if (v)`, `v && w` and `!v` test. */
  predicate Truthy(v: Value) {
    match v
    case Undef => false
    case Null => false
    case Bool(b) => b
    case Num(n) => n != 0.0
    case Str(s) => s != ""
    case Obj(_) => true
    case Other(k) => !(k.BigIntValue? && k.isZero)
  }

  /** `null` or `undefined`: the values `??` and `?.` skip. */
  predicate Nullish(v: Value) {
    v.Undef? || v.Null?
  }

  /** `v ?? d`. */
  function Coalesce(v: Value, d: Value): (r: Value)
    ensures Nullish(v) ==> r == d
    ensures !Nullish(v) ==> r == v
  {
    if Nullish(v) then d else v
  }

  /** `record[key]`: a missing property reads as `undefined`. */
  function Get(m: map<string, Value>, key: string): (r: Value)
    ensures key !in m ==> r == Undef
    ensures key in m ==> r == m[key]
  {
    if key in m then m[key] else Undef
  }

  /** `Number.isInteger` on a finite number. */
  predicate IsInteger(n: real) {
    n.Floor as real == n
  }

  /** The own enumerable properties that an object spread `{...v}` copies, for the shapes the options take. */
  function OwnProps(v: Value): (m: map<string, Value>)
    requires Nullish(v) || v.Obj?
    ensures v.Obj? ==> m == v.fields
    ensures Nullish(v) ==> m == map[]
  {
    if v.Obj? then v.fields else map[]
  }
}
