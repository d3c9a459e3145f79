/** The JavaScript values the interpreter produces, with the language's notion
    of truthiness, and the `Option` wrapper used for "may be absent". */
module Values {

  datatype Option<+T> = None | Some(value: T)

  /** A JavaScript value as far as the interpreter can observe it: rendered
      text, whatever a filter returns, arrays and plain objects. Numbers are
      modelled as integers (floating point and NaN are not part of the model).
      An object keeps its own keys in insertion order. */
  datatype Value =
    | Undef
    | Null
    | Bool(b: bool)
    | Num(n: int)
    | Text(s: string)
    | List(items: seq<Value>)
    | Obj(entries: seq<(string, Value)>)

  /** JavaScript truthiness: `undefined`, `null`, `false`, `0` and `""` are
      falsy; every array and every object (even an empty one) is truthy. */
  predicate Truthy(v: Value) {
    match v
    case Undef => false
    case Null => false
    case Bool(b) => b
    case Num(n) => n != 0
    case Text(s) => |s| > 0
    case List(_) => true
    case Obj(_) => true
  }

  /** `xs[0]` on a JavaScript array: `undefined` when the array is empty. */
  function First(xs: seq<Value>): (r: Value)
    ensures |xs| == 0 ==> r == Undef
    ensures |xs| > 0 ==> r == xs[0]
  {
    if |xs| == 0 then Undef else xs[0]
  }

  /** `o[k]` on a plain object: the value stored under key `k`, if any. */
  function Lookup(entries: seq<(string, Value)>, k: string): (r: Option<Value>)
    ensures r.None? <==> forall j :: 0 <= j < |entries| ==> entries[j].0 != k
    ensures r.Some? ==> exists j :: 0 <= j < |entries| && entries[j] == (k, r.value)
  {
    if |entries| == 0 then None
    else if entries[0].0 == k then Some(entries[0].1)
    else Lookup(entries[1..], k)
  }
}
