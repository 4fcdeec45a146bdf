/** Hits in the last 300 seconds: the deque, the circular array of seconds, and the shards. Times never decrease. */
module HitCounter {

  const WINDOW := 300

  predicate InWindow(h: int, t: int) { t - WINDOW < h <= t }

  /** The reference: how many of the hits ever made lie in (t - 300, t]. */
  ghost function Recent(hits: seq<int>, t: int): nat {
    if hits == [] then 0
    else Recent(hits[..|hits| - 1], t) + if InWindow(hits[|hits| - 1], t) then 1 else 0
  }

  ghost predicate NoLaterThan(hits: seq<int>, t: int) {
    forall i :: 0 <= i < |hits| ==> hits[i] <= t
  }

  ghost predicate Sorted(hits: seq<int>) {
    forall i, j :: 0 <= i < j < |hits| ==> hits[i] <= hits[j]
  }

  lemma RecentPush(hits: seq<int>, h: int, t: int)
    ensures Recent(hits + [h], t) == Recent(hits, t) + if InWindow(h, t) then 1 else 0
  {
    assert (hits + [h])[..|hits|] == hits;
  }

  // --- the deque ------------------------------------------------------------------------------

  /** A queue of hits all in the window, after hits that have left it, is counted by its length. */
  lemma {:induction false} RecentIsSuffix(gone: seq<int>, kept: seq<int>, t: int)
    requires forall i :: 0 <= i < |gone| ==> !InWindow(gone[i], t)
    requires forall i :: 0 <= i < |kept| ==> InWindow(kept[i], t)
    ensures Recent(gone + kept, t) == |kept|
    decreases |gone| + |kept|
  {
    var all := gone + kept;
    if kept != [] {
      var k := kept[..|kept| - 1];
      RecentIsSuffix(gone, k, t);
      assert all[..|all| - 1] == gone + k;
    } else if gone != [] {
      RecentIsSuffix(gone[..|gone| - 1], [], t);
      assert all[..|all| - 1] == gone[..|gone| - 1] + [];
    }
  }

  /** The deque holds the hits but a prefix that had left the window by the clock. */
  ghost predicate Trails(hits: seq<int>, ts: seq<int>, clock: int) {
    Sorted(hits) && NoLaterThan(hits, clock) && |ts| <= |hits| && ts == hits[|hits| - |ts|..] &&
    forall i :: 0 <= i < |hits| - |ts| ==> hits[i] <= clock - WINDOW
  }

  lemma DropOldest(hits: seq<int>, ts: seq<int>, t: int)
    requires Trails(hits, ts, t) && ts != [] && t - ts[0] >= WINDOW
    ensures Trails(hits, ts[1..], t)
  {
    assert ts[0] == hits[|hits| - |ts|];
  }

  lemma SuffixCounts(hits: seq<int>, ts: seq<int>, t: int)
    requires Trails(hits, ts, t) && (ts != [] ==> t - ts[0] < WINDOW)
    ensures Recent(hits, t) == |ts|
  {
    var m := |hits| - |ts|;
    var gone := hits[..m];
    assert hits == gone + ts;
    forall i | 0 <= i < |ts| ensures InWindow(ts[i], t) {
      assert ts[i] == hits[m + i] && ts[0] == hits[m];
    }
    RecentIsSuffix(gone, ts, t);
  }

  class DequeCounter {
    var ts: seq<int>
    ghost var hits: seq<int>
    ghost var clock: int

    ghost predicate Valid()
      reads this
    {
      Trails(hits, ts, clock)
    }

    constructor ()
      ensures Valid() && hits == []
    {
      ts, hits, clock := [], [], 0;
    }

    method Hit(timestamp: int)
      requires Valid() && (hits == [] || clock <= timestamp)
      modifies this
      ensures Valid() && hits == old(hits) + [timestamp] && clock == timestamp
    {
      ts := ts + [timestamp];
      hits := hits + [timestamp];
      clock := timestamp;
    }

    method GetHits(timestamp: int) returns (r: nat)
      requires Valid() && (hits == [] || clock <= timestamp)
      modifies this
      ensures Valid() && hits == old(hits) && clock == timestamp
      ensures r == Recent(hits, timestamp)
    {
      clock := timestamp;
      while ts != [] && timestamp - ts[0] >= WINDOW
        invariant Trails(hits, ts, timestamp) && clock == timestamp && hits == old(hits)
        decreases |ts|
      {
        DropOldest(hits, ts, timestamp);
        ts := ts[1..];
      }
      SuffixCounts(hits, ts, timestamp);
      return |ts|;
    }
  }

  // --- the circular array -----------------------------------------------------------------------

  /** How many hits were made in second x. */
  ghost function At(hits: seq<int>, x: int): nat {
    if hits == [] then 0
    else At(hits[..|hits| - 1], x) + if hits[|hits| - 1] == x then 1 else 0
  }

  lemma {:induction false} AtNone(hits: seq<int>, x: int)
    requires x !in hits
    ensures At(hits, x) == 0
  {
    if hits != [] {
      assert hits[|hits| - 1] in hits;
      AtNone(hits[..|hits| - 1], x);
    }
  }

  lemma AtPush(hits: seq<int>, h: int, x: int)
    ensures At(hits + [h], x) == At(hits, x) + if h == x then 1 else 0
  {
    assert (hits + [h])[..|hits|] == hits;
  }

  /** The one second of the window ending at t that slot s stands for. */
  function SecondOf(s: int, t: int): int { t - (t - s) % WINDOW }

  lemma OneSecondPerSlot(s: int, t: int, x: int)
    requires 0 <= s < WINDOW
    ensures InWindow(x, t) && x % WINDOW == s <==> x == SecondOf(s, t)
  {
    var d := (t - s) % WINDOW;
    var q := (t - s) / WINDOW;
    assert t - s == q * WINDOW + d && SecondOf(s, t) == s + q * WINDOW;
    if InWindow(x, t) && x % WINDOW == s {
      var p := x / WINDOW;
      assert x == p * WINDOW + s;
    }
  }

  /** Slot s: written in second time, its count is of the hits of that second, and no later hit fell on the slot.
      An unwritten slot counts nothing. */
  ghost predicate SlotHolds(hits: seq<int>, s: int, time: int, count: int) {
    (forall i :: 0 <= i < |hits| && hits[i] % WINDOW == s ==>
      hits[i] <= time && time in hits && time % WINDOW == s) &&
    count == if time % WINDOW == s then At(hits, time) else 0
  }

  /** What slot s adds to a query at t is the number of hits of its second of the window. */
  lemma SlotContribution(hits: seq<int>, s: int, time: int, count: int, t: int)
    requires 0 <= s < WINDOW && SlotHolds(hits, s, time, count) && NoLaterThan(hits, t)
    ensures (if t - time < WINDOW then count else 0) == At(hits, SecondOf(s, t))
  {
    var x := SecondOf(s, t);
    OneSecondPerSlot(s, t, x);
    OneSecondPerSlot(s, t, time);
    if x in hits {
      assert x <= time && time in hits && time % WINDOW == s;
    } else {
      AtNone(hits, x);
      if time != x && time in hits {
        var i :| 0 <= i < |hits| && hits[i] == time;
      } else if time != x {
        AtNone(hits, time);
      }
    }
  }

  /** No hit later than h has fallen on h's slot. When times never decrease this is always so. */
  ghost predicate FitsSlot(hits: seq<int>, h: int) {
    forall i :: 0 <= i < |hits| && hits[i] % WINDOW == h % WINDOW ==> hits[i] <= h
  }

  /** Nor is it otherwise when h is in a window that no hit is later than. */
  lemma WindowFitsSlot(hits: seq<int>, h: int, t: int)
    requires NoLaterThan(hits, t) && InWindow(h, t)
    ensures FitsSlot(hits, h)
  {
    forall i | 0 <= i < |hits| && hits[i] % WINDOW == h % WINDOW ensures hits[i] <= h {
      SameSlotApart(hits[i], h);
    }
  }

  lemma SameSlotApart(x: int, h: int)
    requires x % WINDOW == h % WINDOW && x < h + WINDOW
    ensures x <= h
  {
    var p, q := x / WINDOW, h / WINDOW;
    assert x - h == (p - q) * WINDOW;
  }

  /** A hit on its slot: one more of the second stored there, or the first of a new second. */
  lemma SlotHit(hits: seq<int>, s: int, time: int, count: int, h: int)
    requires SlotHolds(hits, s, time, count) && FitsSlot(hits, h)
    ensures h % WINDOW != s ==> SlotHolds(hits + [h], s, time, count)
    ensures h % WINDOW == s ==> SlotHolds(hits + [h], s, h, if time == h then count + 1 else 1)
  {
    AtPush(hits, h, time);
    AtPush(hits, h, h);
    var hits' := hits + [h];
    assert hits'[|hits|] == h;
    if h !in hits {
      AtNone(hits, h);
    }
    forall i | 0 <= i < |hits'| && hits'[i] % WINDOW == s
      ensures hits'[i] <= if h % WINDOW == s then h else time
      ensures h % WINDOW != s ==> time in hits' && time % WINDOW == s
    {
      if i < |hits| { assert hits[i] % WINDOW == s; }
    }
  }

  /** What the first n slots add to a query at t. */
  ghost function Total(hits: seq<int>, t: int, n: nat): nat {
    if n == 0 then 0 else Total(hits, t, n - 1) + At(hits, SecondOf(n - 1, t))
  }

  lemma {:induction false} TotalPush(hits: seq<int>, h: int, t: int, n: nat)
    requires n <= WINDOW
    ensures Total(hits + [h], t, n) == Total(hits, t, n) + if InWindow(h, t) && h % WINDOW < n then 1 else 0
  {
    if n > 0 {
      TotalPush(hits, h, t, n - 1);
      AtPush(hits, h, SecondOf(n - 1, t));
      OneSecondPerSlot(n - 1, t, h);
    }
  }

  lemma {:induction false} TotalNone(t: int, n: nat)
    ensures Total([], t, n) == 0
  {
    if n > 0 {
      TotalNone(t, n - 1);
    }
  }

  /** The 300 slots of the sweep see each second of the window once. */
  lemma {:induction false} TotalIsRecent(hits: seq<int>, t: int)
    ensures Total(hits, t, WINDOW) == Recent(hits, t)
  {
    if hits == [] {
      TotalNone(t, WINDOW);
    } else {
      var before := hits[..|hits| - 1];
      assert hits == before + [hits[|hits| - 1]];
      TotalIsRecent(before, t);
      TotalPush(before, hits[|hits| - 1], t, WINDOW);
    }
  }

  class BucketCounter {
    const times: array<int>
    const counts: array<int>
    ghost var hits: seq<int>
    ghost const Repr: set<object>

    ghost predicate Valid()
      reads this, times, counts
    {
      Repr == {this, times, counts} && times != counts && times.Length == counts.Length == WINDOW &&
      forall s :: 0 <= s < WINDOW ==> SlotHolds(hits, s, times[s], counts[s])
    }

    constructor ()
      ensures Valid() && fresh(Repr) && hits == []
    {
      times := new int[WINDOW](_ => 0);
      counts := new int[WINDOW](_ => 0);
      hits := [];
      Repr := {this, times, counts};
    }

    method Hit(timestamp: int)
      requires Valid() && FitsSlot(hits, timestamp)
      modifies this, times, counts
      ensures Valid() && hits == old(hits) + [timestamp]
    {
      forall s | 0 <= s < WINDOW
        ensures timestamp % WINDOW != s ==> SlotHolds(hits + [timestamp], s, times[s], counts[s])
      {
        SlotHit(hits, s, times[s], counts[s], timestamp);
      }
      var slot := timestamp % WINDOW;
      SlotHit(hits, slot, times[slot], counts[slot], timestamp);
      if times[slot] == timestamp {
        counts[slot] := counts[slot] + 1;
      } else {
        times[slot] := timestamp;
        counts[slot] := 1;
      }
      hits := hits + [timestamp];
    }

    method GetHits(timestamp: int) returns (total: int)
      requires Valid() && NoLaterThan(hits, timestamp)
      ensures total == Recent(hits, timestamp)
    {
      total := 0;
      for slot := 0 to WINDOW
        invariant total == Total(hits, timestamp, slot)
      {
        var count := ReadSlot(slot, timestamp);
        total := total + count;
      }
      TotalIsRecent(hits, timestamp);
    }

    /** One slot, read under its lock in the concurrent tier: the hits of its second of the window. */
    method ReadSlot(slot: nat, timestamp: int) returns (count: int)
      requires Valid() && NoLaterThan(hits, timestamp) && slot < WINDOW
      ensures count == At(hits, SecondOf(slot, timestamp))
    {
      SlotContribution(hits, slot, times[slot], counts[slot], timestamp);
      return if timestamp - times[slot] < WINDOW then counts[slot] else 0;
    }
  }

  // --- the shards -------------------------------------------------------------------------------

  /** The shards' own hits, when hit i went to shard to[i] of n. */
  ghost function Dispatched(hits: seq<int>, to: seq<nat>, n: nat): (parts: seq<seq<int>>)
    requires |to| == |hits| && forall i :: 0 <= i < |to| ==> to[i] < n
    ensures |parts| == n
  {
    if hits == [] then seq(n, _ => [])
    else
      var m := |hits| - 1;
      SendTo(Dispatched(hits[..m], to[..m], n), hits[m], to[m])
  }

  ghost function SendTo(parts: seq<seq<int>>, h: int, k: nat): seq<seq<int>>
    requires k < |parts|
  {
    parts[k := parts[k] + [h]]
  }

  lemma DispatchPush(hits: seq<int>, to: seq<nat>, n: nat, h: int, k: nat)
    requires |to| == |hits| && k < n && forall i :: 0 <= i < |to| ==> to[i] < n
    ensures Dispatched(hits + [h], to + [k], n) == SendTo(Dispatched(hits, to, n), h, k)
  {
    assert (hits + [h])[..|hits|] == hits && (to + [k])[..|hits|] == to;
  }

  lemma {:induction false} PartsAreHits(hits: seq<int>, to: seq<nat>, n: nat, t: int)
    requires |to| == |hits| && NoLaterThan(hits, t) && forall i :: 0 <= i < |to| ==> to[i] < n
    ensures forall i :: 0 <= i < n ==> NoLaterThan(Dispatched(hits, to, n)[i], t)
  {
    if hits != [] {
      var m := |hits| - 1;
      PartsAreHits(hits[..m], to[..m], n, t);
    }
  }

  /** The sum over the first n shards of their own counts. */
  ghost function ShardTotal(parts: seq<seq<int>>, n: nat, t: int): nat
    requires n <= |parts|
  {
    if n == 0 then 0 else ShardTotal(parts, n - 1, t) + Recent(parts[n - 1], t)
  }

  lemma {:induction false} ShardTotalPush(parts: seq<seq<int>>, h: int, k: nat, n: nat, t: int)
    requires k < |parts| && n <= |parts|
    ensures ShardTotal(SendTo(parts, h, k), n, t) == ShardTotal(parts, n, t) + if k < n && InWindow(h, t) then 1 else 0
  {
    if n > 0 {
      ShardTotalPush(parts, h, k, n - 1, t);
      if k == n - 1 {
        RecentPush(parts[k], h, t);
      }
    }
  }

  lemma {:induction false} ShardTotalNone(parts: seq<seq<int>>, n: nat, t: int)
    requires n <= |parts| && forall i :: 0 <= i < |parts| ==> parts[i] == []
    ensures ShardTotal(parts, n, t) == 0
  {
    if n > 0 {
      ShardTotalNone(parts, n - 1, t);
    }
  }

  /** Wherever each hit was sent, the shards together count the window. */
  lemma {:induction false} ShardsCountAll(hits: seq<int>, to: seq<nat>, n: nat, t: int)
    requires |to| == |hits| && forall i :: 0 <= i < |to| ==> to[i] < n
    ensures ShardTotal(Dispatched(hits, to, n), n, t) == Recent(hits, t)
  {
    if hits == [] {
      ShardTotalNone(Dispatched(hits, to, n), n, t);
    } else {
      var m := |hits| - 1;
      ShardsCountAll(hits[..m], to[..m], n, t);
      ShardTotalPush(Dispatched(hits[..m], to[..m], n), hits[m], to[m], n, t);
    }
  }

  // Hits that come in while a query runs: nothing is counted less for them, nor more than at its end.

  lemma {:induction false} AtGrows(hits: seq<int>, hits': seq<int>, x: int)
    requires hits <= hits'
    ensures At(hits, x) <= At(hits', x)
    decreases |hits'|
  {
    if |hits| == |hits'| {
      assert hits == hits';
    } else {
      AtGrows(hits, hits'[..|hits'| - 1], x);
    }
  }

  lemma {:induction false} TotalGrows(hits: seq<int>, hits': seq<int>, t: int, n: nat)
    requires hits <= hits'
    ensures Total(hits, t, n) <= Total(hits', t, n)
  {
    if n > 0 {
      TotalGrows(hits, hits', t, n - 1);
      AtGrows(hits, hits', SecondOf(n - 1, t));
    }
  }

  ghost predicate Grows(parts: seq<seq<int>>, parts': seq<seq<int>>) {
    |parts'| == |parts| && forall i :: 0 <= i < |parts| ==> parts[i] <= parts'[i]
  }

  lemma {:induction false} ShardTotalGrows(parts: seq<seq<int>>, parts': seq<seq<int>>, n: nat, t: int)
    requires Grows(parts, parts') && n <= |parts|
    ensures ShardTotal(parts, n, t) <= ShardTotal(parts', n, t)
  {
    if n > 0 {
      ShardTotalGrows(parts, parts', n - 1, t);
      TotalGrows(parts[n - 1], parts'[n - 1], t, WINDOW);
      TotalIsRecent(parts[n - 1], t);
      TotalIsRecent(parts'[n - 1], t);
    }
  }

  lemma SlotAdds(start: seq<int>, earlier: seq<int>, now: seq<int>, t: int, slot: nat, total: int)
    requires start <= now && earlier <= now && Total(start, t, slot) <= total <= Total(earlier, t, slot)
    ensures Total(start, t, slot + 1) <= total + At(now, SecondOf(slot, t)) <= Total(now, t, slot + 1)
  {
    TotalGrows(earlier, now, t, slot);
    AtGrows(start, now, SecondOf(slot, t));
  }

  lemma ShardAdds(start: seq<seq<int>>, earlier: seq<seq<int>>, now: seq<seq<int>>, t: int, i: nat, ans: int, part: int)
    requires Grows(start, earlier) && Grows(earlier, now) && i < |start|
    requires ShardTotal(start, i, t) <= ans <= ShardTotal(earlier, i, t)
    requires Recent(earlier[i], t) <= part <= Recent(now[i], t)
    ensures ShardTotal(start, i + 1, t) <= ans + part <= ShardTotal(now, i + 1, t)
  {
    ShardTotalGrows(earlier, now, i, t);
    TotalGrows(start[i], earlier[i], t, WINDOW);
    TotalIsRecent(start[i], t);
    TotalIsRecent(earlier[i], t);
  }

  ghost predicate NoneArrives(meanwhile: seq<seq<Arrival>>) {
    forall slot :: 0 <= slot < |meanwhile| ==> meanwhile[slot] == []
  }

  ghost predicate AllMayArrive(meanwhile: seq<seq<Arrival>>, shards: nat, t: int) {
    |meanwhile| == WINDOW && forall slot :: 0 <= slot < WINDOW ==> MayArrive(meanwhile[slot], shards, t)
  }

  /** A hit by some other thread, and the shard that its id picks. */
  datatype Arrival = Arrival(time: int, shard: nat)

  ghost predicate MayArrive(arrivals: seq<Arrival>, shards: nat, t: int) {
    forall i :: 0 <= i < |arrivals| ==> arrivals[i].shard < shards && InWindow(arrivals[i].time, t)
  }

  class DistributedCounter {
    const shards: seq<BucketCounter>
    ghost var hits: seq<int>
    ghost var to: seq<nat>

    ghost const Footprint: set<object>      // the shards and their arrays

    ghost predicate Owns(i: nat)
      requires i < |shards|
    {
      shards[i] in Footprint && shards[i].times in Footprint && shards[i].counts in Footprint
    }

    ghost predicate Apart() {
      this !in Footprint && forall i, j :: 0 <= i < j < |shards| ==> shards[i].Repr !! shards[j].Repr
    }

    ghost predicate Valid()
      reads this, Footprint
    {
      Apart() && |to| == |hits| && (forall i :: 0 <= i < |to| ==> to[i] < |shards|) &&
      forall i :: 0 <= i < |shards| ==>
        Owns(i) && shards[i].Valid() && shards[i].hits == Dispatched(hits, to, |shards|)[i]
    }

    /** The hits of each shard. */
    ghost function Parts(): (parts: seq<seq<int>>)
      reads this, Footprint
      requires Valid()
      ensures |parts| == |shards|
    {
      Dispatched(hits, to, |shards|)
    }

    constructor (numShards: nat)
      ensures Valid() && fresh(Footprint) && |shards| == numShards && hits == []
    {
      var made: seq<BucketCounter> := [];
      ghost var owned: set<object> := {};
      for n := 0 to numShards
        invariant |made| == n && fresh(owned) && forall o :: o in owned ==> o is BucketCounter || o is array<int>
        invariant forall i :: 0 <= i < n ==> made[i].Repr <= owned && made[i].Valid() && made[i].hits == []
        invariant forall i, j :: 0 <= i < j < n ==> made[i].Repr !! made[j].Repr
      {
        var shard := new BucketCounter();
        made := made + [shard];
        owned := owned + shard.Repr;
      }
      shards, hits, to, Footprint := made, [], [], owned;
    }

    /** shard is whatever the calling thread's id picks. */
    method Hit(timestamp: int, shard: nat)
      requires Valid() && shard < |shards| && FitsSlot(shards[shard].hits, timestamp)
      modifies this, shards[shard].Repr
      ensures Valid() && hits == old(hits) + [timestamp] && to == old(to) + [shard]
      ensures Grows(old(Parts()), Parts())
    {
      DispatchPush(hits, to, |shards|, timestamp, shard);
      shards[shard].Hit(timestamp);
      hits := hits + [timestamp];
      to := to + [shard];
    }

    /** The hits of other threads at some moment of a query. */
    method LetIn(arrivals: seq<Arrival>, timestamp: int)
      requires Valid() && NoLaterThan(hits, timestamp) && MayArrive(arrivals, |shards|, timestamp)
      modifies this, Footprint
      ensures Valid() && old(hits) <= hits && NoLaterThan(hits, timestamp) && Grows(old(Parts()), Parts())
      ensures arrivals == [] ==> hits == old(hits)
    {
      for k := 0 to |arrivals|
        invariant Valid() && old(hits) <= hits && NoLaterThan(hits, timestamp) && Grows(old(Parts()), Parts())
        invariant k == 0 ==> hits == old(hits)
      {
        var (time, shard) := (arrivals[k].time, arrivals[k].shard);
        PartsAreHits(hits, to, |shards|, timestamp);
        WindowFitsSlot(shards[shard].hits, time, timestamp);
        Hit(time, shard);
      }
    }

    method ReadAfter(i: nat, slot: nat, timestamp: int, arrivals: seq<Arrival>) returns (count: int)
      requires Valid() && NoLaterThan(hits, timestamp) && i < |shards| && slot < WINDOW
      requires MayArrive(arrivals, |shards|, timestamp)
      modifies this, Footprint
      ensures Valid() && old(hits) <= hits && NoLaterThan(hits, timestamp) && Grows(old(Parts()), Parts())
      ensures count == At(Parts()[i], SecondOf(slot, timestamp))
      ensures arrivals == [] ==> hits == old(hits)
    {
      LetIn(arrivals, timestamp);
      PartsAreHits(hits, to, |shards|, timestamp);
      count := shards[i].ReadSlot(slot, timestamp);
    }

    /** The sweep over one shard, other hits coming in before each slot is read. */
    method ReadShard(i: nat, timestamp: int, meanwhile: seq<seq<Arrival>>) returns (total: int)
      requires Valid() && NoLaterThan(hits, timestamp) && i < |shards| && AllMayArrive(meanwhile, |shards|, timestamp)
      modifies this, Footprint
      ensures Valid() && old(hits) <= hits && NoLaterThan(hits, timestamp) && Grows(old(Parts()), Parts())
      ensures Recent(old(Parts())[i], timestamp) <= total <= Recent(Parts()[i], timestamp)
      ensures NoneArrives(meanwhile) ==> hits == old(hits)
    {
      ghost var start := Parts();
      total := 0;
      for slot := 0 to WINDOW
        invariant Valid() && old(hits) <= hits && NoLaterThan(hits, timestamp) && Grows(start, Parts())
        invariant Total(start[i], timestamp, slot) <= total <= Total(Parts()[i], timestamp, slot)
        invariant NoneArrives(meanwhile) ==> hits == old(hits)
      {
        ghost var earlier := Parts();
        var count := ReadAfter(i, slot, timestamp, meanwhile[slot]);
        SlotAdds(start[i], earlier[i], Parts()[i], timestamp, slot, total);
        total := total + count;
      }
      TotalIsRecent(start[i], timestamp);
      TotalIsRecent(Parts()[i], timestamp);
    }

    /** Between the window's count at the start of the query and its count at the end: exactly it, when no hit comes
        in. */
    method GetHits(timestamp: int, meanwhile: seq<seq<seq<Arrival>>>) returns (ans: int)
      requires Valid() && NoLaterThan(hits, timestamp) && |meanwhile| == |shards|
      requires forall i :: 0 <= i < |shards| ==> AllMayArrive(meanwhile[i], |shards|, timestamp)
      modifies this, Footprint
      ensures Valid() && old(hits) <= hits
      ensures Recent(old(hits), timestamp) <= ans <= Recent(hits, timestamp)
      ensures (forall i :: 0 <= i < |shards| ==> NoneArrives(meanwhile[i])) ==> hits == old(hits)
    {
      ShardsCountAll(hits, to, |shards|, timestamp);
      ans := SumShards(timestamp, meanwhile);
      ShardsCountAll(hits, to, |shards|, timestamp);
    }

    method SumShards(timestamp: int, meanwhile: seq<seq<seq<Arrival>>>) returns (ans: int)
      requires Valid() && NoLaterThan(hits, timestamp) && |meanwhile| == |shards|
      requires forall i :: 0 <= i < |shards| ==> AllMayArrive(meanwhile[i], |shards|, timestamp)
      modifies this, Footprint
      ensures Valid() && old(hits) <= hits
      ensures ShardTotal(old(Parts()), |shards|, timestamp) <= ans <= ShardTotal(Parts(), |shards|, timestamp)
      ensures (forall i :: 0 <= i < |shards| ==> NoneArrives(meanwhile[i])) ==> hits == old(hits)
    {
      ghost var start, first := Parts(), hits;
      ans := 0;
      for i := 0 to |shards|
        invariant Valid() && first <= hits && NoLaterThan(hits, timestamp) && Grows(start, Parts())
        invariant ShardTotal(start, i, timestamp) <= ans <= ShardTotal(Parts(), i, timestamp)
        invariant (forall k :: 0 <= k < i ==> NoneArrives(meanwhile[k])) ==> hits == first
      {
        ghost var earlier := Parts();
        var part := ReadShard(i, timestamp, meanwhile[i]);
        ghost var now := Parts();
        ShardAdds(start, earlier, now, timestamp, i, ans, part);
        ans := ans + part;
      }
    }
  }
}
