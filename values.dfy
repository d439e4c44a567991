/** JavaScript values as the engine's configuration and helpers see them.
    Only the distinctions the engine's code makes are kept: whether a value
    is truthy, whether `typeof` calls it an object, whether it is a
    function, and which enumerable properties `for..in` visits. */
module JsValues {

  datatype Option<+T> = None | Some(value: T)

  /** A JavaScript value. `Num` holds the integral numbers the model is
      restricted to; `Fn` stands for a function object, named for reference;
      `Obj` is a plain object with its own enumerable properties. */
  datatype Value =
    | Undefined
    | Null
    | Bool(b: bool)
    | Num(n: int)
    | Str(s: string)
    | Fn(name: string)
    | Obj(fields: map<string, Value>)

  /** JavaScript truthiness: `undefined`, `null`, `false`, `0` and `""` are falsy. */
  predicate Truthy(v: Value) {
    match v
    case Undefined => false
    case Null => false
    case Bool(b) => b
    case Num(n) => n != 0
    case Str(s) => s != ""
    case Fn(_) => true
    case Obj(_) => true
  }

  /** `typeof v === 'object'`, which holds for `null` as well as for objects. */
  predicate IsObject(v: Value) {
    v.Null? || v.Obj?
  }

  /** The properties `for (p in v)` visits: those of a plain object, none for
      anything else (`undefined` and `null` visit nothing, and functions here
      carry no enumerable properties). */
  function Enum(v: Value): (m: map<string, Value>)
    ensures !v.Obj? ==> m == map[]
  {
    if v.Obj? then v.fields else map[]
  }

  /** `o[k]` on a plain object: `undefined` when the property is missing. */
  function Get(m: map<string, Value>, k: string): Value {
    if k in m then m[k] else Undefined
  }

  /** Strict equality `===` restricted to what the engine compares: numbers
      with numbers and numbers with booleans. Values of different types are
      never strictly equal. */
  predicate StrictEquals(a: Value, b: Value) {
    match (a, b)
    case (Num(x), Num(y)) => x == y
    case (Bool(x), Bool(y)) => x == y
    case (Str(x), Str(y)) => x == y
    case (Undefined, Undefined) => true
    case (Null, Null) => true
    case _ => false
  }

  /** Every object reachable from `v` is a plain object without `null`
      leaves: the shape every result of the deep merge has. */
  predicate Normalized(v: Value) {
    match v
    case Null => false
    case Obj(m) => forall k :: k in m ==> Normalized(m[k])
    case _ => true
  }

  /** `v` nests objects at most `d` levels deep (`null` counts as an object
      level, because `typeof` says so). Used to bound the deep merge's recursion. */
  predicate NestedAtMost(v: Value, d: nat) {
    match v
    case Null => d >= 1
    case Obj(m) => d >= 1 && forall k :: k in m ==> NestedAtMost(m[k], d - 1)
    case _ => true
  }

  /** The nesting depth of `v`. */
  ghost function Height(v: Value): nat {
    match v
    case Null => 1
    case Obj(m) => 1 + MaxOf(set k | k in m :: Height(m[k]))
    case _ => 0
  }

  ghost function MaxOf(s: set<nat>): (r: nat)
    ensures forall x :: x in s ==> x <= r
  {
    if s == {} then 0
    else
      var x :| x in s;
      var r := MaxOf(s - {x});
      assert forall y :: y in s ==> y == x || y in s - {x};
      if x > r then x else r
  }

  lemma {:induction false} NestedAtMostMonotone(v: Value, d: nat, e: nat)
    requires NestedAtMost(v, d) && d <= e
    ensures NestedAtMost(v, e)
  {
    match v
    case Obj(m) =>
      forall k | k in m ensures NestedAtMost(m[k], e - 1) {
        NestedAtMostMonotone(m[k], d - 1, e - 1);
      }
    case _ =>
  }

  /** Every value has a finite nesting depth. */
  lemma {:induction false} HeightBounds(v: Value)
    ensures NestedAtMost(v, Height(v))
  {
    match v
    case Obj(m) =>
      var heights := set k' | k' in m :: Height(m[k']);
      assert Height(v) == 1 + MaxOf(heights);
      forall k | k in m ensures NestedAtMost(m[k], Height(v) - 1) {
        HeightBounds(m[k]);
        assert Height(m[k]) in heights;
        NestedAtMostMonotone(m[k], Height(m[k]), Height(v) - 1);
      }
    case _ =>
  }
}
