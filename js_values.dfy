/**
 * The JavaScript values that reach the handlers through a parsed JSON request body,
 * JavaScript truthiness, the `||` operator, and the type check Prisma applies when a
 * value is written into a column.
 */
module JsValues {
  import opened Basics

  /** A field of `req.body`. JSON numbers are modelled as integers. */
  datatype JsVal = Undefined | Null | Str(s: string) | Num(n: int) | Bool(b: bool)

  /** JavaScript's ToBoolean: `undefined`, `null`, `''`, `0` and `false` are the falsy values. */
  predicate Truthy(v: JsVal) {
    match v
    case Undefined => false
    case Null => false
    case Str(s) => s != ""
    case Num(n) => n != 0
    case Bool(b) => b
  }

  /** JavaScript's `a || b`: the left operand when it is truthy, otherwise the right one. */
  function Or(a: JsVal, b: JsVal): JsVal {
    if Truthy(a) then a else b
  }

  /** Prisma accepts a value for a String column only when it is a JavaScript string. */
  function StringColumn(v: JsVal): Option<string> {
    if v.Str? then Some(v.s) else None
  }

  /** Prisma accepts a value for an Int column only when it is a JavaScript number. */
  function IntColumn(v: JsVal): Option<int> {
    if v.Num? then Some(v.n) else None
  }

  /** Prisma accepts a value for a Boolean column only when it is a JavaScript boolean. */
  function BoolColumn(v: JsVal): Option<bool> {
    if v.Bool? then Some(v.b) else None
  }
}
