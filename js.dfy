/**
 * The JavaScript values the token handler reads: the parsed request body and the
 * parsed JSON of the two upstream responses, with the two operations the handler
 * applies to them, truthiness (`!v`, `v || d`) and property access (`v.name`, `v[0]`).
 */
module Js {

  datatype Value =
    | Undefined
    | Null
    | Bool(b: bool)
    | Num(n: real)
    | Str(s: string)
    | Arr(items: seq<Value>)
    | Obj(props: map<string, Value>)

  /** `undefined`, `null`, `false`, `0` and `""` are falsy; arrays and objects are truthy. */
  predicate Truthy(v: Value)
    ensures Truthy(v) ==> !Nullish(v)
    ensures v.Arr? || v.Obj? ==> Truthy(v)
  {
    match v
    case Undefined => false
    case Null => false
    case Bool(b) => b
    case Num(n) => n != 0.0
    case Str(s) => s != []
    case Arr(_) => true
    case Obj(_) => true
  }

  /** Reading a property of these throws a TypeError. */
  predicate Nullish(v: Value) {
    v.Undefined? || v.Null?
  }

  /** `v.name` for a value that is not nullish: an own property of an object, the
      `length` of an array or a string, and `undefined` otherwise. */
  function Get(v: Value, name: string): (r: Value)
    requires !Nullish(v)
    ensures v.Obj? && name !in v.props ==> r == Undefined
    ensures (v.Arr? || v.Str?) && name == "length" ==>
              r.Num? && (Truthy(r) <==> (v.Arr? && v.items != []) || (v.Str? && v.s != []))
    ensures (v.Bool? || v.Num?) ==> r == Undefined
  {
    match v
    case Obj(props) => if name in props then props[name] else Undefined
    case Arr(items) => if name == "length" then Num(|items| as real) else Undefined
    case Str(s) => if name == "length" then Num(|s| as real) else Undefined
    case _ => Undefined
  }

  /** `v[0]` for a value that is not nullish. */
  function First(v: Value): (r: Value)
    requires !Nullish(v)
    ensures v.Arr? && v.items != [] ==> r == v.items[0]
    ensures (v.Arr? || v.Str?) && !Truthy(Get(v, "length")) ==> r == Undefined
    ensures (v.Bool? || v.Num?) ==> r == Undefined
  {
    match v
    case Obj(props) => if "0" in props then props["0"] else Undefined
    case Arr(items) => if items != [] then items[0] else Undefined
    case Str(s) => if s != [] then Str([s[0]]) else Undefined
    case _ => Undefined
  }

  /**
   * Whether JavaScript's string conversion (as in a template literal) of a value
   * read from JSON returns rather than throws. A plain object converts through the
   * inherited `toString`; an own `toString` property, which JSON cannot make
   * callable, leaves only `valueOf`, which yields no primitive, so it throws. An
   * array converts by joining its items, each converted in turn.
   */
  predicate Stringifiable(v: Value) {
    match v
    case Obj(props) => "toString" !in props
    case Arr(items) => forall i | 0 <= i < |items| :: Stringifiable(items[i])
    case _ => true
  }

  /** `a || b`: the first operand when it is truthy, else the second. */
  function Or(a: Value, b: Value): (r: Value)
    ensures r == a || r == b
    ensures Truthy(r) || r == b
    ensures Truthy(a) ==> r == a
  {
    if Truthy(a) then a else b
  }
}
