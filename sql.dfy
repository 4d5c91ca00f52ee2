/**
 * The fragment of SQL/JPQL semantics the shift queries rely on: three-valued
 * (Kleene) logic, in which any comparison with NULL is Unknown and a WHERE
 * clause keeps a row only when it evaluates to True, and the way a
 * single-result query turns its rows into an answer.
 */
module Sql {
  import opened Wrappers

  datatype Truth = True | False | Unknown

  /** A comparison of two non-null values is never Unknown. */
  function Of(b: bool): (t: Truth)
    ensures t != Unknown
    ensures t == True <==> b
  {
    if b then True else False
  }

  /** Kleene conjunction: False dominates, then Unknown. */
  function And(a: Truth, b: Truth): (t: Truth)
    ensures t == True <==> a == True && b == True
    ensures t == False <==> a == False || b == False
  {
    match (a, b)
    case (False, _) => False
    case (_, False) => False
    case (True, True) => True
    case _ => Unknown
  }

  /** Kleene disjunction: True dominates, then Unknown. */
  function Or(a: Truth, b: Truth): (t: Truth)
    ensures t == True <==> a == True || b == True
    ensures t == False <==> a == False && b == False
  {
    match (a, b)
    case (True, _) => True
    case (_, True) => True
    case (False, False) => False
    case _ => Unknown
  }

  /** `a = b` on nullable values: Unknown as soon as either side is NULL. */
  function Eq<T(==)>(a: Option<T>, b: Option<T>): (t: Truth)
    ensures t == Unknown <==> a.None? || b.None?
    ensures t == True <==> a.Some? && a == b
  {
    match (a, b)
    case (Some(x), Some(y)) => Of(x == y)
    case _ => Unknown
  }

  /** `a IS NULL`, which is never Unknown. */
  function IsNull<T>(a: Option<T>): (t: Truth)
    ensures t != Unknown
    ensures t == True <==> a.None?
  {
    Of(a.None?)
  }

  /** `x BETWEEN lo AND hi`, which SQL defines as `x >= lo AND x <= hi`. */
  function Between(x: int, lo: int, hi: int): (t: Truth)
    ensures t != Unknown
    ensures t == True <==> lo <= x && x <= hi
  {
    And(Of(x >= lo), Of(x <= hi))
  }

  /**
   * The answer of a query that expects at most one row: no row gives an
   * empty result, one row gives that row, and more rows are an error
   * (JPA's NonUniqueResultException).
   */
  datatype Single<T> = NoResult | One(value: T) | TooMany

  function SingleResult<T>(rows: seq<T>): (r: Single<T>)
    ensures r.NoResult? <==> rows == []
    ensures r.One? <==> |rows| == 1
    ensures r.One? ==> rows == [r.value]
  {
    if rows == [] then NoResult
    else if |rows| == 1 then One(rows[0])
    else TooMany
  }
}
