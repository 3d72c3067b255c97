/** JavaScript values as the store and the array layer see them, with the two
    coercions the code relies on: truthiness (`if (!x)`, `x || y`) and the
    nullish-coalescing operator `??`. Numbers are integers here. */
module JsValues {

  /** A stored or returned value. `Arr` is a JavaScript array. */
  datatype Value =
    | Undefined
    | Null
    | Bool(b: bool)
    | Num(n: int)
    | Str(s: string)
    | Arr(items: seq<Value>)

  /** The errors the modelled code throws. */
  datatype Error =
    | IndexNotNumber      // "Index must be a number."
    | AmountNotNumber     // "Amount must be a number."
    | NamespaceAlreadySet // Sifbase#table() on an instance that has a namespace
    | MalformedIndexRecord

  datatype Option<+T> = None | Some(value: T)

  /** A call that either returns a value or throws. */
  datatype Result<+T> = Ok(value: T) | Err(error: Error)

  /** A call whose only outcome is "completed" or "threw". */
  datatype Outcome = Pass | Fail(error: Error)

  /** A positional argument after the source's `isNaN` test: either a number or not one. */
  datatype Index = Number(n: int) | NotANumber

  /** JavaScript truthiness. */
  predicate Truthy(v: Value)
  {
    match v
    case Undefined => false
    case Null => false
    case Bool(b) => b
    case Num(n) => n != 0
    case Str(s) => s != ""
    case Arr(_) => true
  }

  /** A string that may be absent (`undefined`/`null`) is truthy when present and non-empty. */
  predicate TruthyText(s: Option<string>)
  {
    s.Some? && s.value != ""
  }

  /** `v ?? d`: the fallback is taken for `null` and `undefined` only. */
  function Coalesce(v: Value, d: Value): (r: Value)
    ensures v.Undefined? || v.Null? ==> r == d
    ensures !v.Undefined? && !v.Null? ==> r == v
  {
    if v.Undefined? || v.Null? then d else v
  }
}
