/**
 * The values the sheet evaluator hands around and `formatValue`, which turns a value into
 * the text shown beside a line.
 */
module Values {
  import opened Wrappers

  /**
   * What the mathematical evaluator can produce. `Undefined` and `Null` are the two nullish
   * JavaScript values the evaluator tests for; numbers, quantities with a unit and dates are
   * the kinds `formatValue` renders specially; anything else (booleans, matrices, strings,
   * functions) is `Other`.
   */
  datatype Value =
    | Undefined
    | Null
    | Number(x: real)
    | Quantity(magnitude: real, unit: string)
    | Date(time: int)
    | Other(description: string)

  /** `value === null || value === undefined` */
  predicate IsNullish(v: Value) {
    v.Undefined? || v.Null?
  }

  /** The scope object shared by all lines of a pass. */
  type Scope = map<string, Value>

  /**
   * The library renderers `formatValue` delegates to: unit formatting, locale number and
   * date formatting, and `toString`, each of which may throw (`None`); and `String(value)`,
   * the fallback, which does not.
   */
  datatype Renderers = Renderers(
    unitFormat: Value -> Option<string>,
    numberFormat: Value -> Option<string>,
    dateFormat: Value -> Option<string>,
    toText: Value -> Option<string>,
    stringOf: Value -> string)

  /** The renderer the `try` block picks for a non-nullish value. */
  function Attempt(v: Value, r: Renderers): Option<string> {
    match v
    case Quantity(_, _) => r.unitFormat(v)
    case Number(_) => r.numberFormat(v)
    case Date(_) => r.dateFormat(v)
    case _ => r.toText(v)
  }

  /**
   * `formatValue`: nullish values show as the empty text; any other value shows as what its
   * renderer produces, and when that renderer throws, as `String(value)` instead, so the
   * function always yields a text.
   */
  function FormatValue(v: Value, r: Renderers): (out: string)
    ensures IsNullish(v) ==> out == ""
    ensures !IsNullish(v) && Attempt(v, r).Some? ==> out == Attempt(v, r).value
    ensures !IsNullish(v) && Attempt(v, r).None? ==> out == r.stringOf(v)
  {
    if IsNullish(v) then ""
    else
      match Attempt(v, r)
      case Some(text) => text
      case None => r.stringOf(v)
  }
}
