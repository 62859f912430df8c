/** What several modules share: optional values, lists without duplicates, and division facts. */
module Helpers {

  datatype Option<+T> = None | Some(value: T)

  predicate NoDup<T(==)>(s: seq<T>) {
    forall i, j | 0 <= i < j < |s| :: s[i] != s[j]
  }

  function Min(x: int, y: int): int { if x < y then x else y }

  function Max(x: int, y: int): int { if x < y then y else x }

  // -------------------------------------------------------------- arithmetic

  /** Quotient and remainder are determined by where they lead. */
  lemma DivUnique(x: int, m: int, q: int, r: int)
    requires m > 0 && x == m * q + r && 0 <= r < m
    ensures x / m == q && x % m == r
  {
    var d := x / m - q;
    assert m * d == r - x % m;
    assert d >= 1 ==> m * d >= m;
    assert d <= -1 ==> m * d <= 0 - m;
  }

  lemma Distribute(m: int, x: int, y: int)
    ensures m * (x + y) == m * x + m * y
  {
  }

  lemma MulMono(m: nat, x: int, y: int)
    requires x <= y
    ensures m * x <= m * y
  {
  }

  lemma QuotientMono(c: int, x: int, m: int)
    requires m > 0 && c <= x
    ensures c / m <= x / m
  {
    var d := x / m - c / m;
    assert m * d == x - c + c % m - x % m;
    assert d <= -1 ==> m * d <= 0 - m;
  }
}
