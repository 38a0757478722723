/** How the userscripts see the values they read out of parsed JSON objects. */
module JsValues {

  datatype Option<+T> = None | Some(value: T)

  /** A JSON object of counters. A key that is absent reads as `undefined`,
      a key mapped to None holds `null`, a key mapped to Some(n) holds n. */
  type Record = map<string, Option<int>>

  /** The value a property read `obj[k]` yields. */
  datatype Value = Undefined | Null | Num(n: int)

  function Get(r: Record, k: string): Value
  {
    if k !in r then Undefined
    else match r[k]
      case None => Null
      case Some(n) => Num(n)
  }

  /** `Number(v)` for a value that is present: `null` coerces to 0. */
  function Numeric(o: Option<int>): int
  {
    match o
    case None => 0
    case Some(n) => n
  }

  /** JavaScript's `v >= need` (and `Number(v) >= Number(need)`) for a numeric
      `need`: `undefined` becomes NaN, which compares false; `null` becomes 0. */
  predicate AtLeast(v: Value, need: int)
  {
    match v
    case Undefined => false
    case Null => 0 >= need
    case Num(n) => n >= need
  }

  /** JavaScript's `v == null`, true of both `null` and `undefined`. */
  predicate IsNullish(v: Value)
  {
    v.Undefined? || v.Null?
  }

  /** JavaScript's `v ?? 0`. */
  function OrZero(v: Value): Value
  {
    if IsNullish(v) then Num(0) else v
  }

  /** The JavaScript comparisons above, stated on the record itself. */
  lemma AtLeastGet(r: Record, k: string, need: int)
    ensures AtLeast(Get(r, k), need) <==> (k in r && Numeric(r[k]) >= need)
    ensures AtLeast(OrZero(Get(r, k)), need) <==> (if k in r then Numeric(r[k]) else 0) >= need
  {
  }
}
