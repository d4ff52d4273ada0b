/** Small types, predicates and facts that several of the models share. */
module Wrappers {

  datatype Option<T> = None | Some(value: T)

  datatype Result<T> = Ok(value: T) | Err

  predicate Distinct<T(==)>(s: seq<T>) {
    forall i, j :: 0 <= i < j < |s| ==> s[i] != s[j]
  }

  /** Quotient and remainder are the only numbers that fit. */
  lemma Remainder(x: int, q: int, r: int, m: int)
    requires 0 <= r < m && x == q * m + r
    ensures x / m == q && x % m == r
  {
    assert x == x / m * m + x % m;
    if x / m > q {
      Scaled(q + 1, x / m, m);
    } else if x / m < q {
      Scaled(x / m + 1, q, m);
    }
  }

  lemma Scaled(a: int, b: int, m: int)
    requires a <= b && m > 0
    ensures a * m <= b * m
  {}
}
