/** What several components share. */
module Basics {

  datatype Option<+T> = None | Some(value: T)

  function Min(a: int, b: int): int { if a < b then a else b }

  function One(b: bool): int { if b then 1 else 0 }

  ghost predicate Distinct<T>(s: seq<T>) {
    forall i, j :: 0 <= i < j < |s| ==> s[i] != s[j]
  }

  /** Some member of a nonempty set, the next one a loop over the set takes. */
  method Pick<T>(s: set<T>) returns (x: T)
    requires s != {}
    ensures x in s
  {
    x :| x in s;
  }

  /** q * size + m has the quotient q and the remainder m, and nothing else does. */
  lemma DivMod(size: nat, q: int, m: int)
    requires 0 <= m < size
    ensures (q * size + m) / size == q && (q * size + m) % size == m
  {
    var i := q * size + m;
    var q', m' := i / size, i % size;
    assert i == q' * size + m' && 0 <= m' < size;
    assert (q - q') * size == m' - m;
    assert q - q' >= 1 ==> (q - q') * size >= size;
    assert q' - q >= 1 ==> (q' - q) * size >= size;
  }
}
