/** The JavaScript values a component's props and attributes hold, and the
    primitive coercions `Boolean(v)`, `Number(v)` and `String(v)` that
    `castToPropType` and `setAttribute` apply to them. */
module JsValues {

  /** A JavaScript number. `-0` is not told apart from `0`: `===`,
      truthiness and `String(...)` (which prints both as `"0"`) treat them
      alike, so a prop holding either reflects to the same attribute and
      compares equal to the other. */
  datatype Number = NaN | Finite(r: real) | Infinity(negative: bool)

  /** A JavaScript value. Objects and functions are compared by reference,
      which `ref` stands for. */
  datatype Value =
    | Bool(b: bool)
    | Num(n: Number)
    | Str(s: string)
    | Null
    | Undefined
    | Obj(ref: nat)
    | Func(ref: nat)

  /** What the component takes from its surroundings without seeing it:
      the attribute-name converter of src/attrToPropName.js, and the parts
      of `Number(...)` and `String(...)` that parse or print numbers and
      convert objects. */
  datatype Host = Host(
    attrToPropName: string -> string,
    parseNumber: string -> Number,
    formatNumber: real -> string,
    objectToNumber: nat -> Number,
    objectToString: nat -> string)

  /** `typeof v`. */
  function TypeOf(v: Value): (t: string)
    ensures t in {"boolean", "number", "string", "object", "undefined", "function"}
  {
    match v
    case Bool(_) => "boolean"
    case Num(_) => "number"
    case Str(_) => "string"
    case Null => "object"
    case Undefined => "undefined"
    case Obj(_) => "object"
    case Func(_) => "function"
  }

  /** The `typeof` results that the casting table of `castToPropType` lists. */
  predicate IsPrimitiveType(t: string) {
    t == "boolean" || t == "number" || t == "string"
  }

  /** `Boolean(v)`: JavaScript truthiness. */
  predicate Truthy(v: Value) {
    match v
    case Bool(b) => b
    case Num(n) => n != NaN && n != Finite(0.0)
    case Str(s) => s != ""
    case Null => false
    case Undefined => false
    case Obj(_) => true
    case Func(_) => true
  }

  /** `Number(v)`. */
  function ToNumber(h: Host, v: Value): Number {
    match v
    case Bool(b) => Finite(if b then 1.0 else 0.0)
    case Num(n) => n
    case Str(s) => h.parseNumber(s)
    case Null => Finite(0.0)
    case Undefined => NaN
    case Obj(r) => h.objectToNumber(r)
    case Func(r) => h.objectToNumber(r)
  }

  /** `String(v)`, also the coercion `setAttribute` applies to its value. */
  function ToStr(h: Host, v: Value): string {
    match v
    case Bool(b) => if b then "true" else "false"
    case Num(NaN) => "NaN"
    case Num(Infinity(neg)) => if neg then "-Infinity" else "Infinity"
    case Num(Finite(r)) => h.formatNumber(r)
    case Str(s) => s
    case Null => "null"
    case Undefined => "undefined"
    case Obj(r) => h.objectToString(r)
    case Func(r) => h.objectToString(r)
  }

  /** `a === b`: equal values of one type, except that `NaN` equals nothing. */
  predicate StrictEquals(a: Value, b: Value) {
    a == b && a != Num(NaN)
  }

  /** `castToPropType`: the prop's current value `stored` picks, by its
      `typeof`, the primitive constructor applied to `value`; for any other
      type `value` passes through unchanged. */
  function CastToPropType(h: Host, stored: Value, value: Value): (r: Value)
    ensures IsPrimitiveType(TypeOf(stored)) ==> TypeOf(r) == TypeOf(stored)
    ensures !IsPrimitiveType(TypeOf(stored)) ==> r == value
    ensures TypeOf(stored) == "boolean" ==> (r == Bool(true) <==> Truthy(value))
    ensures TypeOf(stored) == "string" && value.Str? ==> r == value
  {
    var t := TypeOf(stored);
    if t == "boolean" then Bool(Truthy(value))
    else if t == "number" then Num(ToNumber(h, value))
    else if t == "string" then Str(ToStr(h, value))
    else value
  }

  /** Casting two attribute strings in a row leaves what the second cast
      alone gives. A boolean or number result selects its own cast again. A
      string result, which any other stored type passes through, selects
      `String`, and `String(s)` is `s` itself. */
  lemma CastAbsorbs(h: Host, stored: Value, a: string, b: string)
    ensures CastToPropType(h, CastToPropType(h, stored, Str(a)), Str(b))
         == CastToPropType(h, stored, Str(b))
  {
  }

  /** A boolean prop reads an attribute string as `false` exactly when the
      string is empty, so the `''` written for `true` reads back as `false`. */
  lemma BooleanCastOfString(h: Host, b: bool, s: string)
    ensures CastToPropType(h, Bool(b), Str(s)) == Bool(s != "")
    ensures CastToPropType(h, Bool(b), Str("")) == Bool(false)
  {
  }

  /** `===` is symmetric, and fails to be reflexive only on `NaN`. */
  lemma StrictEqualsProperties(a: Value, b: Value)
    ensures StrictEquals(a, b) <==> StrictEquals(b, a)
    ensures StrictEquals(a, a) <==> a != Num(NaN)
  {
  }
}
