/** Byte-string search: naive, by rolling hash, and by rolling hash over a stream read in chunks. */
module BytePattern {

  type byte = b: int | 0 <= b < 256

  const BASE := 256
  const MOD := 2305843009213693951       // 2^61 - 1

  // --- the naive search -------------------------------------------------------------------

  predicate MatchAt(haystack: seq<byte>, needle: seq<byte>, start: nat) {
    start + |needle| <= |haystack| && haystack[start..start + |needle|] == needle
  }

  /** The match positions in lo..hi, ascending. */
  function Matches(haystack: seq<byte>, needle: seq<byte>, lo: nat, hi: nat): (r: seq<nat>)
    requires lo <= hi
    ensures forall p :: p in r <==> lo <= p < hi && MatchAt(haystack, needle, p)
    ensures forall i, j :: 0 <= i < j < |r| ==> r[i] < r[j]
    decreases hi - lo
  {
    if lo == hi then []
    else
      var rest := Matches(haystack, needle, lo, hi - 1);
      assert forall i :: 0 <= i < |rest| ==> rest[i] in rest;
      if MatchAt(haystack, needle, hi - 1) then rest + [hi - 1] else rest
  }

  /** NaiveSearch.search */
  function Naive(haystack: seq<byte>, needle: seq<byte>): (r: seq<nat>)
    ensures needle != [] ==> forall p :: p in r <==> MatchAt(haystack, needle, p)
    ensures forall i, j :: 0 <= i < j < |r| ==> r[i] < r[j]
  {
    if |needle| == 0 || |needle| > |haystack| then []
    else Matches(haystack, needle, 0, |haystack| - |needle| + 1)
  }

  // --- the rolling hash -------------------------------------------------------------------

  function Pow(b: int, e: nat): int { if e == 0 then 1 else b * Pow(b, e - 1) }

  /** The window read as a number in base 256. */
  function Value(w: seq<byte>): int {
    if w == [] then 0 else Value(w[..|w| - 1]) * BASE + w[|w| - 1]
  }

  function Hash(w: seq<byte>): int { Value(w) % MOD }

  /** Congruence modulo MOD, witnessed by a multiple. */
  lemma ModUnique(a: int, b: int, k: int)
    requires a == b + k * MOD
    ensures a % MOD == b % MOD
  {
    var qa, qb := a / MOD, b / MOD;
    assert a == qa * MOD + a % MOD && b == qb * MOD + b % MOD;
    var d := qa - qb - k;
    assert d * MOD == b % MOD - a % MOD;
    assert d >= 1 ==> d * MOD >= MOD;
    assert d <= -1 ==> d * MOD <= -MOD;
  }

  /** One Horner step may be taken on the hash in place of the value. */
  lemma Horner(v: int, b: int)
    ensures ((v % MOD) * BASE + b) % MOD == (v * BASE + b) % MOD
  {
    ModUnique(v * BASE + b, (v % MOD) * BASE + b, (v / MOD) * BASE);
  }

  lemma {:induction false} ValueFront(b: byte, w: seq<byte>)
    ensures Value([b] + w) == b * Pow(BASE, |w|) + Value(w)
  {
    if w == [] {
      assert [b] + w == [b];
      assert Value([b]) == Value([]) * BASE + b;
    } else {
      ValueFront(b, w[..|w| - 1]);
      assert ([b] + w)[..|w|] == [b] + w[..|w| - 1];
    }
  }

  /** The O(1) update: drop the leading byte's weight, shift, add the new byte. */
  function Rolled(hash: int, first: int, high: int, next: int): int {
    ((hash - first * high) * BASE + next) % MOD
  }

  /** Rolling a window's hash gives the next window's hash. */
  lemma Roll(first: byte, w: seq<byte>, next: byte, high: int, hash: int)
    requires high == Pow(BASE, |w|) % MOD && hash == Hash([first] + w)
    ensures Rolled(hash, first, high, next) == Hash(w + [next])
  {
    var v, p := Value([first] + w), Pow(BASE, |w|);
    ValueFront(first, w);
    assert (w + [next])[..|w|] == w;
    assert Value(w + [next]) == (v - first * p) * BASE + next;
    var k := v / MOD - first * (p / MOD);
    assert v == (v / MOD) * MOD + hash && p == (p / MOD) * MOD + high;
    RollArithmetic(v, v / MOD, hash, first, p, p / MOD, high, next);
  }

  lemma RollArithmetic(v: int, qv: int, hash: int, first: int, p: int, qp: int, high: int, next: int)
    requires v == qv * MOD + hash && p == qp * MOD + high
    ensures Rolled(hash, first, high, next) == ((v - first * p) * BASE + next) % MOD
  {
    var k := (qv - first * qp) * BASE;
    assert first * p == first * qp * MOD + first * high;
    assert (v - first * p) * BASE + next == ((hash - first * high) * BASE + next) + k * MOD;
    ModUnique((v - first * p) * BASE + next, (hash - first * high) * BASE + next, k);
  }

  /** Rolls the window of length m at start to the next one. */
  method RollWindow(haystack: seq<byte>, m: nat, start: nat, high: int, hash: int) returns (rolled: int)
    requires m > 0 && start + m < |haystack|
    requires high == Pow(BASE, m - 1) % MOD && hash == Hash(haystack[start..start + m])
    ensures rolled == Hash(haystack[start + 1..start + 1 + m])
  {
    rolled := Rolled(hash, haystack[start], high, haystack[start + m]);
    ghost var w := haystack[start + 1..start + m];
    assert haystack[start..start + m] == [haystack[start]] + w;
    assert haystack[start + 1..start + 1 + m] == w + [haystack[start + m]];
    Roll(haystack[start], w, haystack[start + m], high, hash);
  }

  /** The hash loop over a needle and a first window of the same length. */
  method HashPair(needle: seq<byte>, window: seq<byte>) returns (needleHash: int, windowHash: int)
    requires |needle| == |window|
    ensures needleHash == Hash(needle) && windowHash == Hash(window)
  {
    needleHash, windowHash := 0, 0;
    for i := 0 to |needle|
      invariant needleHash == Hash(needle[..i]) && windowHash == Hash(window[..i])
    {
      assert needle[..i + 1][..i] == needle[..i] && window[..i + 1][..i] == window[..i];
      Horner(Value(needle[..i]), needle[i]);
      Horner(Value(window[..i]), window[i]);
      needleHash := (needleHash * BASE + needle[i]) % MOD;
      windowHash := (windowHash * BASE + window[i]) % MOD;
    }
    assert needle[..|needle|] == needle && window[..|needle|] == window;
  }

  lemma MatchesNext(haystack: seq<byte>, needle: seq<byte>, start: nat)
    requires start + |needle| <= |haystack|
    ensures Matches(haystack, needle, 0, start + 1)
         == Matches(haystack, needle, 0, start) + if haystack[start..start + |needle|] == needle then [start] else []
  {
  }

  /** RabinKarpSearch.search: the hash only filters, and it never filters out a match. */
  method RabinKarp(haystack: seq<byte>, needle: seq<byte>) returns (result: seq<nat>)
    ensures result == Naive(haystack, needle)
  {
    var n, m := |haystack|, |needle|;
    if m == 0 || m > n {
      return [];
    }
    var high := Pow(BASE, m - 1) % MOD;
    var needleHash, windowHash := HashPair(needle, haystack[..m]);
    assert haystack[0..0 + m] == haystack[..m];
    result := [];
    for start := 0 to n - m + 1
      invariant result == Matches(haystack, needle, 0, start)
      invariant start <= n - m ==> windowHash == Hash(haystack[start..start + m])
    {
      MatchesNext(haystack, needle, start);
      if windowHash == needleHash && haystack[start..start + m] == needle {
        result := result + [start];
      }
      if start < n - m {
        windowHash := RollWindow(haystack, m, start, high, windowHash);
      }
    }
  }

  // --- the stream -------------------------------------------------------------------------

  function Concat(chunks: seq<seq<byte>>): seq<byte> {
    if chunks == [] then [] else Concat(chunks[..|chunks| - 1]) + chunks[|chunks| - 1]
  }

  function ShiftBy(r: seq<nat>, base: nat): seq<nat> {
    seq(|r|, i requires 0 <= i < |r| => r[i] + base)
  }

  /** Two ascending lists with the same members are the same. */
  lemma {:induction false} SameAscending(a: seq<nat>, b: seq<nat>)
    requires forall i, j :: 0 <= i < j < |a| ==> a[i] < a[j]
    requires forall i, j :: 0 <= i < j < |b| ==> b[i] < b[j]
    requires forall p :: p in a <==> p in b
    ensures a == b
  {
    assert forall i :: 0 <= i < |a| ==> a[i] in b;
    assert forall i :: 0 <= i < |b| ==> b[i] in a;
    if a != [] && b != [] {
      assert a[0] == b[0];
      forall p ensures p in a[1..] <==> p in b[1..] {
        assert p in a[1..] <==> p in a && p != a[0];
        assert p in b[1..] <==> p in b && p != b[0];
      }
      SameAscending(a[1..], b[1..]);
    }
  }

  /** Reading on: the matches of seen + chunk are those of seen, and those found in the carried
      tail of seen followed by the chunk, none of which seen already had. */
  lemma Carry(seen: seq<byte>, chunk: seq<byte>, needle: seq<byte>, base: nat)
    requires needle != [] && base == TailStart(|seen|, |needle|)
    ensures Naive(seen + chunk, needle)
         == Naive(seen, needle) + ShiftBy(Naive(seen[base..] + chunk, needle), base)
  {
    var early, late := Naive(seen, needle), ShiftBy(Naive(seen[base..] + chunk, needle), base);
    forall p: nat ensures MatchAt(seen + chunk, needle, p) <==> p in early + late {
      SplitMatch(seen, chunk, needle, base, p);
      InFresh(seen[base..] + chunk, needle, base, p);
    }
    forall i, j | 0 <= i < j < |early + late| ensures (early + late)[i] < (early + late)[j] {
      if i < |early| <= j {
        assert early[i] in early && late[j - |early|] >= base;
      }
    }
    SameAscending(Naive(seen + chunk, needle), early + late);
  }

  /** A match of seen + chunk lies in seen, or starts in the carried tail, and never both. */
  lemma SplitMatch(seen: seq<byte>, chunk: seq<byte>, needle: seq<byte>, base: nat, p: nat)
    requires needle != [] && base == TailStart(|seen|, |needle|)
    ensures MatchAt(seen + chunk, needle, p) <==>
      MatchAt(seen, needle, p) || (p >= base && MatchAt(seen[base..] + chunk, needle, p - base))
  {
    var all, buf := seen + chunk, seen[base..] + chunk;
    if p + |needle| <= |seen| {
      assert all[p..p + |needle|] == seen[p..p + |needle|];
    }
    if base <= p && p + |needle| <= |all| {
      assert all[p..p + |needle|] == buf[p - base..p - base + |needle|];
    }
  }

  lemma InFresh(buf: seq<byte>, needle: seq<byte>, base: nat, p: nat)
    requires needle != []
    ensures p in ShiftBy(Naive(buf, needle), base) <==> p >= base && MatchAt(buf, needle, p - base)
  {
    var found := Naive(buf, needle);
    if p >= base && p - base in found {
      var i :| 0 <= i < |found| && found[i] == p - base;
      assert ShiftBy(found, base)[i] == p;
    }
  }

  /** What the reader delivers before its first empty read. */
  function Delivered(parts: seq<seq<byte>>): seq<seq<byte>> {
    if parts == [] || parts[0] == [] then [] else [parts[0]] + Delivered(parts[1..])
  }

  /** Reporting a buffer's matches at their absolute offsets. */
  method Emit(result: seq<nat>, found: seq<nat>, base: nat) returns (r: seq<nat>)
    ensures r == result + ShiftBy(found, base)
  {
    r := result;
    for i := 0 to |found|
      invariant r == result + ShiftBy(found, base)[..i]
    {
      r := r + [base + found[i]];
    }
  }

  /** Where the carried tail of a stream prefix of length n starts. */
  function TailStart(n: nat, m: nat): nat { if n < m then 0 else n - (m - 1) }

  /** search_stream, for any division of the data into reads: exactly the naive search of all of it. */
  method SearchStream(parts: seq<seq<byte>>, needle: seq<byte>) returns (result: seq<nat>)
    ensures result == Naive(Concat(Delivered(parts)), needle)
  {
    var m := |needle|;
    if m == 0 {
      return [];
    }
    result := [];
    var overlap: seq<byte> := [];
    var base: nat := 0;
    var next := 0;
    ghost var seen: seq<byte> := [];
    while next < |parts| && parts[next] != []
      invariant next <= |parts| && base == TailStart(|seen|, m) && overlap == seen[base..]
      invariant seen == Concat(parts[..next]) && Delivered(parts) == parts[..next] + Delivered(parts[next..])
      invariant result == Naive(seen, needle)
    {
      var chunk := parts[next];
      NextPart(parts, next);
      Carry(seen, chunk, needle, base);
      var buf := overlap + chunk;
      var found := RabinKarp(buf, needle);
      result := Emit(result, found, base);
      var keep := if m - 1 < |buf| then m - 1 else |buf|;
      Tail(seen, chunk, m, base, keep);
      seen := seen + chunk;
      base := base + |buf| - keep;
      overlap := buf[|buf| - keep..];
      next := next + 1;
    }
    assert parts[..next] + [] == parts[..next];
  }

  lemma NextPart(parts: seq<seq<byte>>, next: nat)
    requires next < |parts| && parts[next] != []
    ensures Concat(parts[..next + 1]) == Concat(parts[..next]) + parts[next]
    ensures parts[..next] + Delivered(parts[next..]) == parts[..next + 1] + Delivered(parts[next + 1..])
  {
    assert parts[..next + 1][..next] == parts[..next];
    assert parts[next..][1..] == parts[next + 1..];
  }

  /** The bytes kept are the tail of everything read so far. */
  lemma Tail(seen: seq<byte>, chunk: seq<byte>, m: nat, base: nat, keep: nat)
    requires m > 0 && base == TailStart(|seen|, m)
    requires keep == if m - 1 < |seen[base..] + chunk| then m - 1 else |seen[base..] + chunk|
    ensures var buf := seen[base..] + chunk;
      && base + |buf| - keep == TailStart(|seen + chunk|, m)
      && buf[|buf| - keep..] == (seen + chunk)[base + |buf| - keep..]
  {
    assert (seen + chunk)[base..] == seen[base..] + chunk;
  }
}
