/** SQL values that may be NULL, and the three-valued comparisons the generated
    fragments rely on. A `CASE WHEN c` branch and a `WHERE c` filter are taken
    only when `c` is TRUE; a NULL condition behaves like FALSE there. */
module Sql {

  datatype Nullable<+T> = Null | Value(v: T)

  /** `IFNULL(x, fallback)`. */
  function IfNull<T>(x: Nullable<T>, fallback: T): T
  {
    match x
    case Null => fallback
    case Value(v) => v
  }

  /** A condition selects a `CASE WHEN` branch or a row only when it is TRUE. */
  predicate IsTrue(b: Nullable<bool>)
  {
    b == Value(true)
  }

  /** `x > t`, NULL when `x` is NULL. */
  function Greater(x: Nullable<real>, t: real): Nullable<bool>
  {
    match x
    case Null => Null
    case Value(v) => Value(v > t)
  }

  /** `x < t`, NULL when `x` is NULL. */
  function Less(x: Nullable<int>, t: int): Nullable<bool>
  {
    match x
    case Null => Null
    case Value(v) => Value(v < t)
  }

  /** `x >= t`, NULL when `x` is NULL. */
  function AtLeast(x: Nullable<int>, t: int): Nullable<bool>
  {
    match x
    case Null => Null
    case Value(v) => Value(v >= t)
  }

  /** `x IN (l0, l1, ...)` over a list of non-NULL literals: NULL when `x` is NULL. */
  function InList<T(==)>(x: Nullable<T>, list: seq<T>): Nullable<bool>
  {
    match x
    case Null => Null
    case Value(v) => Value(v in list)
  }
}
