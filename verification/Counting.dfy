/** Counting and adding over a finite map from thread (or account, or worker) to its state. */
module Counting {

  /** The keys of m whose value satisfies p. */
  ghost function Where<K, V>(m: map<K, V>, p: V -> bool): set<K> {
    set k | k in m && p(m[k])
  }

  /** How many keys of m hold a value satisfying p. */
  ghost function Count<K, V>(m: map<K, V>, p: V -> bool): nat {
    |Where(m, p)|
  }

  lemma CountUpdate<K, V>(m: map<K, V>, k: K, v: V, p: V -> bool)
    requires k in m
    ensures Count(m[k := v], p)
         == Count(m, p) - (if p(m[k]) then 1 else 0) + (if p(v) then 1 else 0)
  {
    var rest := Where(m, p) - {k};
    assert Where(m[k := v], p) == if p(v) then rest + {k} else rest;
    assert Where(m, p) == if p(m[k]) then rest + {k} else rest;
  }

  lemma CountWitness<K, V>(m: map<K, V>, p: V -> bool) returns (k: K)
    requires Count(m, p) > 0
    ensures k in m && p(m[k])
  {
    k :| k in Where(m, p);
  }

  lemma CountPositive<K, V>(m: map<K, V>, k: K, p: V -> bool)
    requires k in m && p(m[k])
    ensures Count(m, p) > 0
  {
    assert k in Where(m, p);
  }

  lemma CountNone<K, V>(m: map<K, V>, p: V -> bool)
    requires forall k :: k in m ==> !p(m[k])
    ensures Count(m, p) == 0
  {
    assert Where(m, p) == {};
  }

  /** Disjoint p and q, both within r, share r's count. */
  lemma CountSplit<K, V(!new)>(m: map<K, V>, p: V -> bool, q: V -> bool, r: V -> bool)
    requires forall v :: (p(v) || q(v)) ==> r(v)
    requires forall v :: !(p(v) && q(v))
    ensures Count(m, p) + Count(m, q) <= Count(m, r)
  {
    SubsetSize(Where(m, p) + Where(m, q), Where(m, r));
  }

  lemma SubsetSize<K>(a: set<K>, b: set<K>)
    requires a <= b
    ensures |a| <= |b|
  {
    assert b == a + (b - a);
  }

  /** The sum of w over the values of m. */
  ghost function Sum<K, V>(m: map<K, V>, w: V -> int): int {
    if m == map[] then 0 else
      var k :| k in m;
      w(m[k]) + Sum(m - {k}, w)
  }

  /** The weight of a value that is itself a number. */
  function Same(v: int): int { v }

  lemma {:induction false} SumRemove<K, V>(m: map<K, V>, k: K, w: V -> int)
    requires k in m
    ensures Sum(m, w) == w(m[k]) + Sum(m - {k}, w)
  {
    var j :| j in m && Sum(m, w) == w(m[j]) + Sum(m - {j}, w);
    if j != k {
      SumRemove(m - {j}, k, w);
      SumRemove(m - {k}, j, w);
      assert m - {j} - {k} == m - {k} - {j};
    }
  }

  lemma SumUpdate<K, V>(m: map<K, V>, k: K, v: V, w: V -> int)
    requires k in m
    ensures Sum(m[k := v], w) == Sum(m, w) - w(m[k]) + w(v)
  {
    SumRemove(m, k, w);
    SumRemove(m[k := v], k, w);
    assert m[k := v] - {k} == m - {k};
  }

  lemma {:induction false} SumNonNegative<K, V>(m: map<K, V>, w: V -> int)
    requires forall k :: k in m ==> w(m[k]) >= 0
    ensures Sum(m, w) >= 0
  {
    if m != map[] {
      var k :| k in m;
      SumRemove(m, k, w);
      SumNonNegative(m - {k}, w);
    }
  }
}
