/** The dynamically typed values the timer's parameters can hold, with the
    few Python built-ins the validator and the default path depend on:
    truthiness, `isinstance(v, int)` (which a `bool` also satisfies), the
    integer a `bool` stands for, and `str` of an integer. */
module PyValue {
  import Decimal

  datatype Value =
    | None
    | Bool(b: bool)
    | Int(i: int)
    | Float(f: real)
    | Str(s: string)
    | Tuple(items: seq<Value>)
    | List(items: seq<Value>)

  /** `bool(v)`: empty containers, zero and `None` are falsy. */
  predicate Truthy(v: Value)
    ensures IsInt(v) ==> (Truthy(v) <==> IntValue(v) != 0)
  {
    match v
    case None => false
    case Bool(b) => b
    case Int(i) => i != 0
    case Float(f) => f != 0.0
    case Str(s) => s != []
    case Tuple(items) => items != []
    case List(items) => items != []
  }

  /** `isinstance(v, int)`: `bool` is a subclass of `int`. */
  predicate IsInt(v: Value)
  {
    v.Int? || v.Bool?
  }

  /** The integer an `int` or a `bool` compares as. */
  function IntValue(v: Value): (n: int)
    requires IsInt(v)
    ensures v.Bool? ==> 0 <= n <= 1 && (n == 1 <==> v.b)
    ensures v.Int? ==> n == v.i
  {
    match v
    case Bool(b) => if b then 1 else 0
    case Int(i) => i
  }

  /** `str(v)` (and f-string formatting) of an `int` or a `bool`. */
  function IntFormat(v: Value): (s: string)
    requires IsInt(v)
    ensures v.Int? ==> |s| >= 1 && (s[0] == '-' <==> v.i < 0)
    ensures v.Bool? ==> (s == "True" <==> v.b) && (s == "False" <==> !v.b)
  {
    match v
    case Bool(b) => if b then "True" else "False"
    case Int(i) => Decimal.IntText(i)
  }
}
