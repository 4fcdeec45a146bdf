/** The fewest dice to change so that no two neighbours show equal or opposite faces: the dynamic program and its
    optimality. */
module Dice {

  const INF: int := 1000000000

  predicate Face(v: int) { 1 <= v <= 6 }

  /** Neither equal nor, on a die, opposite. */
  predicate Compatible(u: int, v: int) { u != v && u + v != 7 }

  ghost predicate Joined(b: seq<int>, i: nat)
    requires i + 1 < |b|
  {
    Compatible(b[i], b[i + 1])
  }

  ghost predicate Proper(b: seq<int>) {
    (forall i :: 0 <= i < |b| ==> Face(b[i])) && forall i: nat :: i + 1 < |b| ==> Joined(b, i)
  }

  /** Positions at which b differs from a. */
  ghost function Changes(a: seq<int>, b: seq<int>): nat
    requires |a| == |b|
  {
    if a == [] then 0
    else
      var n := |a| - 1;
      Changes(a[..n], b[..n]) + Cost(a[n], b[n])
  }

  function Cost(x: int, v: int): nat { if x == v then 0 else 1 }

  /** b is a proper row in place of a that ends with face v. */
  ghost predicate Ends(a: seq<int>, b: seq<int>, v: int) {
    |b| == |a| > 0 && Proper(b) && b[|b| - 1] == v
  }

  /** m is the least number of changes to a row that ends with v. */
  ghost predicate IsLeast(a: seq<int>, v: int, m: int) {
    (exists b :: Ends(a, b, v) && Changes(a, b) == m) && forall b :: Ends(a, b, v) ==> m <= Changes(a, b)
  }

  /** r changes are enough for some proper row, and no proper row needs fewer. */
  ghost predicate IsFewest(a: seq<int>, r: int) {
    (exists b :: |b| == |a| && Proper(b) && Changes(a, b) == r) &&
    forall b :: |b| == |a| && Proper(b) ==> r <= Changes(a, b)
  }

  lemma {:induction false} AtMostAll(a: seq<int>, b: seq<int>)
    requires |a| == |b|
    ensures Changes(a, b) <= |a|
  {
    if a != [] {
      AtMostAll(a[..|a| - 1], b[..|a| - 1]);
    }
  }

  lemma ChangesPush(a: seq<int>, b: seq<int>, x: int, v: int)
    requires |a| == |b|
    ensures Changes(a + [x], b + [v]) == Changes(a, b) + Cost(x, v)
  {
    assert (a + [x])[..|a|] == a && (b + [v])[..|b|] == b;
  }

  lemma ProperPush(b: seq<int>, v: int)
    requires Proper(b) && b != [] && Face(v) && Compatible(b[|b| - 1], v)
    ensures Proper(b + [v])
  {
    var b' := b + [v];
    forall i: nat | i + 1 < |b'| ensures Joined(b', i) {
      if i + 1 < |b| { assert Joined(b, i); }
    }
  }

  lemma ProperPop(b: seq<int>)
    requires Proper(b) && |b| > 1
    ensures Proper(b[..|b| - 1]) && Compatible(b[|b| - 2], b[|b| - 1])
  {
    var b' := b[..|b| - 1];
    assert Joined(b, |b| - 2);
    forall i: nat | i + 1 < |b'| ensures Joined(b', i) {
      assert Joined(b, i);
    }
  }

  lemma FirstDie(x: int, v: int)
    requires Face(v)
    ensures IsLeast([x], v, Cost(x, v))
  {
    ChangesPush([], [], x, v);
    assert [] + [x] == [x] && [] + [v] == [v];
    assert Ends([x], [v], v);
    forall b | Ends([x], b, v) ensures Cost(x, v) <= Changes([x], b) {
      assert b == [v];
    }
  }

  /** One more die: the best over the compatible faces before it is the best there is. */
  lemma NextDie(a: seq<int>, x: int, v: int, least: seq<int>, u: int, best: int)
    requires a != [] && |least| == 7 && Face(v) && Face(u) && Compatible(u, v)
    requires forall w :: Face(w) ==> IsLeast(a, w, least[w])
    requires best == least[u] + Cost(x, v)
    requires forall w :: Face(w) && Compatible(w, v) ==> best <= least[w] + Cost(x, v)
    ensures IsLeast(a + [x], v, best)
  {
    assert IsLeast(a, u, least[u]);
    var b :| Ends(a, b, u) && Changes(a, b) == least[u];
    ProperPush(b, v);
    ChangesPush(a, b, x, v);
    assert Ends(a + [x], b + [v], v);
    forall c | Ends(a + [x], c, v) ensures best <= Changes(a + [x], c) {
      var c0 := c[..|a|];
      ProperPop(c);
      var w := c[|a| - 1];
      assert c == c0 + [v] && Ends(a, c0, w) && Face(w);
      assert IsLeast(a, w, least[w]);
      ChangesPush(a, c0, x, v);
    }
  }

  lemma LeastIsSmall(a: seq<int>, v: int, m: int)
    requires IsLeast(a, v, m)
    ensures 0 <= m <= |a|
  {
    var b :| Ends(a, b, v) && Changes(a, b) == m;
    AtMostAll(a, b);
  }

  /** Entries 1 to 6 are the least numbers of changes by last face; entry 0 is not used. */
  ghost predicate Table(a: seq<int>, dp: seq<int>) {
    |dp| == 7 && forall v :: Face(v) ==> IsLeast(a, v, dp[v])
  }

  /** The inner loop: the cheapest compatible face before v. INF is never taken for an answer, rows being shorter. */
  method BestBefore(ghost a: seq<int>, dp: seq<int>, x: int, v: int) returns (best: int)
    requires a != [] && |a| < INF - 1 && Table(a, dp) && Face(v)
    ensures IsLeast(a + [x], v, best)
  {
    forall w | Face(w) ensures 0 <= dp[w] < INF - 1 {
      assert IsLeast(a, w, dp[w]);
      LeastIsSmall(a, w, dp[w]);
    }
    ghost var from := 0;
    best, from := CheapestCompatible(dp, x, v);
    NextDie(a, x, v, dp, from, best);
  }

  method CheapestCompatible(dp: seq<int>, x: int, v: int) returns (best: int, ghost from: int)
    requires |dp| == 7 && Face(v) && forall w :: Face(w) ==> 0 <= dp[w] < INF - 1
    ensures Face(from) && Compatible(from, v) && best == dp[from] + Cost(x, v)
    ensures forall w :: Face(w) && Compatible(w, v) ==> best <= dp[w] + Cost(x, v)
  {
    var add := if x == v then 0 else 1;
    best, from := INF, 0;
    for u := 1 to 7
      invariant forall w :: Face(w) && w < u && Compatible(w, v) ==> best <= dp[w] + add
      invariant (u <= 2 && best == INF) || (Face(from) && Compatible(from, v) && best == dp[from] + add)
    {
      assert u == 2 && Compatible(1, v) ==> best <= dp[1] + add;
      if u != v && u + v != 7 {
        var cand := dp[u] + add;
        if cand < best {
          best := cand;
          from := u;
        }
      }
    }
  }

  /** The number returned is reached by some proper row, and no proper row has fewer changes. */
  method Solve(a: seq<int>) returns (r: int)
    requires 0 < |a| < INF
    ensures IsFewest(a, r)
  {
    var dp := FirstTable(a[0]);
    ghost var done := [a[0]];
    for i := 1 to |a|
      invariant done == a[..i] && Table(done, dp)
    {
      dp := NextTable(done, dp, a[i]);
      done := done + [a[i]];
    }
    assert done == a;
    r := LeastOfTable(a, dp);
  }

  method LeastOfTable(ghost a: seq<int>, dp: seq<int>) returns (r: int)
    requires a != [] && Table(a, dp)
    ensures IsFewest(a, r)
  {
    ghost var at := 0;
    r, at := LeastEntry(dp);
    LeastOverall(a, dp, at);
  }

  method LeastEntry(dp: seq<int>) returns (r: int, ghost at: int)
    requires |dp| == 7
    ensures forall w :: 1 <= w < 7 ==> r <= dp[w]
    ensures Face(at) && r == dp[at]
  {
    at := 1;
    r := dp[1];
    for v := 2 to 7
      invariant Face(at) && r == dp[at] && forall w :: 1 <= w < v ==> r <= dp[w]
    {
      if dp[v] < r {
        r := dp[v];
        at := v;
      }
    }
  }

  method FirstTable(x: int) returns (dp: seq<int>)
    ensures Table([x], dp)
  {
    dp := seq(7, _ => INF);
    for v := 1 to 7
      invariant |dp| == 7 && forall w :: 1 <= w < v ==> IsLeast([x], w, dp[w])
    {
      dp := dp[v := if x == v then 0 else 1];
      FirstDie(x, v);
    }
  }

  method NextTable(ghost a: seq<int>, dp: seq<int>, x: int) returns (ndp: seq<int>)
    requires a != [] && |a| < INF - 1 && Table(a, dp)
    ensures Table(a + [x], ndp)
  {
    ndp := seq(7, _ => INF);
    for v := 1 to 7
      invariant |ndp| == 7 && forall w :: 1 <= w < v ==> IsLeast(a + [x], w, ndp[w])
    {
      var best := BestBefore(a, dp, x, v);
      ndp := ndp[v := best];
    }
  }

  lemma LeastOverall(a: seq<int>, dp: seq<int>, at: int)
    requires a != [] && Table(a, dp) && Face(at) && forall w :: 1 <= w < 7 ==> dp[at] <= dp[w]
    ensures IsFewest(a, dp[at])
  {
    assert IsLeast(a, at, dp[at]);
    forall b | |b| == |a| && Proper(b) ensures dp[at] <= Changes(a, b) {
      var v := b[|b| - 1];
      assert Ends(a, b, v) && Face(v);
      assert IsLeast(a, v, dp[v]);
    }
  }
}
