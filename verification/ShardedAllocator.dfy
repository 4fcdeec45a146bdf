/**
 The sharded allocator: 0..maxId cut into consecutive shards, each a segment tree behind its
 own lock. TryShard and Release are the lock-protected blocks, so an interleaving of any
 number of threads is a sequence of those two calls.
 */
module ShardedAllocator {
  import opened Basics
  import opened IdAllocator

  const SHARDS := 10

  lemma Quotient(size: nat, id: int)
    requires size > 0
    ensures id == (id / size) * size + id % size && 0 <= id % size < size
    ensures id >= 0 ==> id / size >= 0
  {
  }

  /** Shard s owns as many slots as remain, up to size. */
  function Capacity(maxId: nat, size: nat, s: nat): int { Min(size, maxId - s * size) }

  /** What is left to hand out once k shards are built. */
  function Remaining(maxId: nat, size: nat, k: nat): nat {
    if k * size >= maxId then 0 else maxId - k * size
  }

  lemma NextShard(maxId: nat, size: nat, k: nat)
    requires size > 0 && Remaining(maxId, size, k) > 0
    ensures k * size < maxId
    ensures Capacity(maxId, size, k) == Min(size, Remaining(maxId, size, k)) > 0
    ensures Remaining(maxId, size, k + 1) == Remaining(maxId, size, k) - Capacity(maxId, size, k)
  {
    assert (k + 1) * size == k * size + size;
  }

  lemma AtMostTen(maxId: nat, size: nat, k: nat)
    requires size == (maxId + SHARDS - 1) / SHARDS && (k - 1) * size < maxId && maxId >= 1
    ensures k <= SHARDS
  {
    assert maxId <= SHARDS * size;
    assert k - 1 >= SHARDS ==> (k - 1) * size >= SHARDS * size;
  }

  /** The slots of a shard are the ids from s * size on, within 0..maxId. */
  lemma InShard(maxId: nat, size: nat, s: nat, local: int)
    requires size > 0 && s * size < maxId && 0 <= local < Capacity(maxId, size, s)
    ensures 0 <= s * size + local < maxId
    ensures (s * size + local) / size == s && (s * size + local) % size == local
  {
    DivMod(size, s, local);
    assert s * size >= 0;
  }

  /** Every id of 0..maxId has a shard, and a slot within that shard's capacity. */
  lemma HasShard(maxId: nat, size: nat, k: nat, id: int)
    requires size > 0 && maxId <= k * size && 0 <= id < maxId
    ensures 0 <= id / size < k && 0 <= id % size < Capacity(maxId, size, id / size)
  {
    var s := id / size;
    Quotient(size, id);
    if s >= k { MulMono(k, s, size); }
  }

  /** maxId ids are cut into |taken| shards of size slots, the last one perhaps shorter. */
  ghost predicate Cut(maxId: nat, size: nat, shards: nat) {
    size > 0 && (shards - 1) * size < maxId <= shards * size
  }

  lemma MulMono(a: int, b: int, size: nat)
    requires a <= b
    ensures a * size <= b * size
  {
  }

  /** Every shard of the cut starts within the range. */
  lemma ShardStart(maxId: nat, size: nat, k: nat, s: nat)
    requires Cut(maxId, size, k) && s < k
    ensures 0 <= s * size < maxId
  {
    MulMono(0, s, size);
    MulMono(s, k - 1, size);
  }

  /** The (shard, slot) pairs and the ids of 0..maxId correspond one to one. */
  lemma IdsAndSlots(maxId: nat, size: nat, k: nat, id: int, s: nat, local: int)
    requires Cut(maxId, size, k) && s < k
    ensures 0 <= id < maxId && s == id / size && local == id % size
      <==> 0 <= local < Capacity(maxId, size, s) && id == s * size + local
  {
    ShardStart(maxId, size, k, s);
    if 0 <= local < Capacity(maxId, size, s) {
      InShard(maxId, size, s, local);
    }
    if 0 <= id < maxId {
      Quotient(size, id);
      HasShard(maxId, size, k, id);
    }
  }

  // --- the ids out, from the slots taken in each shard ------------------------------------

  ghost predicate Out(maxId: nat, size: nat, taken: seq<set<int>>, id: int) {
    0 <= id < maxId && size > 0 && 0 <= id / size < |taken| && id % size in taken[id / size]
  }

  ghost function Held(maxId: nat, size: nat, taken: seq<set<int>>): set<int> {
    set id | 0 <= id < maxId && Out(maxId, size, taken, id)
  }

  /** Slot local of shard s, as a global id, is out exactly when the slot is taken. */
  lemma SlotOut(maxId: nat, size: nat, taken: seq<set<int>>, s: nat, local: int)
    requires Cut(maxId, size, |taken|) && s < |taken| && 0 <= local < Capacity(maxId, size, s)
    ensures s * size + local in Held(maxId, size, taken) <==> local in taken[s]
  {
    ShardStart(maxId, size, |taken|, s);
    InShard(maxId, size, s, local);
  }

  /** Taking or freeing one slot of one shard changes exactly one global id. */
  lemma ChangeSlot(maxId: nat, size: nat, taken: seq<set<int>>, s: nat, local: int, after: set<int>)
    requires Cut(maxId, size, |taken|) && s < |taken| && 0 <= local < Capacity(maxId, size, s)
    requires forall k :: k != local ==> (k in after <==> k in taken[s])
    ensures local in after ==> Held(maxId, size, taken[s := after]) == Held(maxId, size, taken) + {s * size + local}
    ensures local !in after ==> Held(maxId, size, taken[s := after]) == Held(maxId, size, taken) - {s * size + local}
  {
    SlotOut(maxId, size, taken[s := after], s, local);
    forall id | 0 <= id < maxId && id != s * size + local
      ensures Out(maxId, size, taken[s := after], id) <==> Out(maxId, size, taken, id)
    {
      Quotient(size, id);
    }
  }

  /** id is free, belongs to shard s, and the shard's ids below it are out. */
  ghost predicate LowestInShard(maxId: nat, size: nat, ids: set<int>, s: nat, id: int)
    requires size > 0
  {
    0 <= id < maxId && id / size == s && id !in ids && OutBelow(maxId, size, ids, s, id)
  }

  /** Every id of shard s below the bound is out. */
  ghost predicate OutBelow(maxId: nat, size: nat, ids: set<int>, s: nat, bound: int)
    requires size > 0
  {
    forall k {:trigger k in ids} :: 0 <= k < maxId && k / size == s && k < bound ==> k in ids
  }

  /** Slots taken below local are ids out below the slot's id. */
  lemma BelowSlot(maxId: nat, size: nat, taken: seq<set<int>>, s: nat, local: int)
    requires Cut(maxId, size, |taken|) && s < |taken| && AllIn(taken[s], 0, local - 1)
    ensures OutBelow(maxId, size, Held(maxId, size, taken), s, s * size + local)
  {
    var ids := Held(maxId, size, taken);
    forall k | 0 <= k < maxId && k / size == s && k < s * size + local ensures k in ids {
      Quotient(size, k);
    }
  }

  /** Taking the lowest free slot of shard s issues the shard's lowest free id. */
  lemma TakeLowest(maxId: nat, size: nat, taken: seq<set<int>>, s: nat, local: int, id: int)
    requires Cut(maxId, size, |taken|) && s < |taken| && LowestFree(taken[s], Capacity(maxId, size, s), local)
    requires id == s * size + local
    ensures LowestInShard(maxId, size, Held(maxId, size, taken), s, id)
    ensures Held(maxId, size, taken[s := taken[s] + {local}]) == Held(maxId, size, taken) + {id}
  {
    BelowSlot(maxId, size, taken, s, local);
    ChangeSlot(maxId, size, taken, s, local, taken[s] + {local});
    FreeSlot(maxId, size, taken, s, local, id);
  }

  lemma FreeSlot(maxId: nat, size: nat, taken: seq<set<int>>, s: nat, local: int, id: int)
    requires Cut(maxId, size, |taken|) && s < |taken| && LowestFree(taken[s], Capacity(maxId, size, s), local)
    requires id == s * size + local
    ensures 0 <= id < maxId && id / size == s && id !in Held(maxId, size, taken)
  {
    ShardStart(maxId, size, |taken|, s);
    InShard(maxId, size, s, local);
    SlotOut(maxId, size, taken, s, local);
  }

  lemma FullShard(maxId: nat, size: nat, taken: seq<set<int>>, s: nat)
    requires Cut(maxId, size, |taken|) && s < |taken| && AllIn(taken[s], 0, Capacity(maxId, size, s) - 1)
    ensures OutBelow(maxId, size, Held(maxId, size, taken), s, maxId)
  {
    var ids := Held(maxId, size, taken);
    forall k | 0 <= k < maxId && k / size == s ensures k in ids {
      HasShard(maxId, size, |taken|, k);
    }
  }

  ghost predicate Apart(shards: seq<SegmentTreeAllocator>) {
    forall s, t :: 0 <= s < t < |shards| ==> shards[s] != shards[t] && shards[s].tree != shards[t].tree
  }

  // --- releases -----------------------------------------------------------------------------

  /** The id that a release of any integer frees: the quotient indexes the list of shards, from its end when negative,
      and the shard's tree takes the remainder to a slot that it has. None stands for the IndexError. */
  function Landing(maxId: nat, size: nat, shards: nat, id: int): Option<int>
    requires size > 0
  {
    var s := id / size;
    if s >= shards || s + shards < 0 then None
    else
      var at: nat := if s < 0 then s + shards else s;
      Some(at * size + Clamp(id % size, 0, Capacity(maxId, size, at) - 1))
  }

  /** A release always frees some id of the range, and frees the id it names exactly when that is of the range. */
  lemma LandsOnItselfIff(maxId: nat, size: nat, shards: nat, id: int)
    requires Cut(maxId, size, shards)
    ensures Landing(maxId, size, shards, id).Some? ==> 0 <= Landing(maxId, size, shards, id).value < maxId
    ensures Landing(maxId, size, shards, id) == Some(id) <==> 0 <= id < maxId
  {
    var s := id / size;
    Quotient(size, id);
    if 0 <= id < maxId {
      HasShard(maxId, size, shards, id);
    }
    if 0 <= s + shards && s < shards {
      var at: nat := if s < 0 then s + shards else s;
      ShardStart(maxId, size, shards, at);
      InShard(maxId, size, at, Clamp(id % size, 0, Capacity(maxId, size, at) - 1));
    }
  }

  // --- interleavings ----------------------------------------------------------------------

  /** What one lock-protected block did. A release frees the id it lands on, whatever it was asked to. */
  datatype Event = Issued(id: int) | ShardFull(shard: nat) | Released(asked: int, freed: int)

  function Apply(ids: set<int>, e: Event): set<int> {
    match e
    case Issued(id) => ids + {id}
    case ShardFull(_) => ids
    case Released(_, freed) => ids - {freed}
  }

  /** The ids out after a run of blocks. */
  ghost function IdsAfter(trace: seq<Event>): set<int> {
    if trace == [] then {} else Apply(IdsAfter(trace[..|trace| - 1]), trace[|trace| - 1])
  }

  /** What a block can do when these ids are out. */
  ghost predicate Fits(maxId: nat, size: nat, shards: nat, ids: set<int>, e: Event)
    requires size > 0
  {
    match e
    case Issued(id) => 0 <= id < maxId && id !in ids
    case ShardFull(s) => s < shards && OutBelow(maxId, size, ids, s, maxId)
    case Released(asked, freed) => Landing(maxId, size, shards, asked) == Some(freed)
  }

  /** The event of a try at a shard with this result. */
  function Tries(s: nat, id: Option<int>): Event {
    match id
    case Some(i) => Issued(i)
    case None => ShardFull(s)
  }

  lemma TryFits(maxId: nat, size: nat, shards: nat, ids: set<int>, s: nat, id: Option<int>)
    requires size > 0 && s < shards
    requires id.Some? ==> LowestInShard(maxId, size, ids, s, id.value)
    requires id.None? ==> OutBelow(maxId, size, ids, s, maxId)
    ensures Fits(maxId, size, shards, ids, Tries(s, id))
  {
  }

  /** What TryShard and Release guarantee of every block of a run, whichever thread makes it. */
  ghost predicate Trace(maxId: nat, size: nat, shards: nat, trace: seq<Event>)
    requires size > 0
  {
    forall k: nat {:trigger FitsAt(maxId, size, shards, trace, k)} ::
      k < |trace| ==> FitsAt(maxId, size, shards, trace, k)
  }

  ghost predicate FitsAt(maxId: nat, size: nat, shards: nat, trace: seq<Event>, k: nat)
    requires size > 0 && k < |trace|
  {
    Fits(maxId, size, shards, IdsAfter(trace[..k]), trace[k])
  }

  ghost predicate Frees(e: Event, id: int) { e.Released? && e.freed == id }

  lemma {:induction false} StaysOut(trace: seq<Event>, i: nat, j: nat)
    requires i < j <= |trace| && trace[i].Issued?
    requires forall k :: i < k < j ==> !Frees(trace[k], trace[i].id)
    ensures trace[i].id in IdsAfter(trace[..j])
    decreases j
  {
    var last := trace[..j];
    assert last[..j - 1] == trace[..j - 1];
    if j - 1 > i {
      StaysOut(trace, i, j - 1);
    }
  }

  /** No interleaving issues an id twice without a release that frees it in between. */
  lemma NeverIssuedTwice(maxId: nat, size: nat, shards: nat, trace: seq<Event>, i: nat, j: nat)
    requires size > 0 && Trace(maxId, size, shards, trace) && i < j < |trace|
    requires trace[i].Issued? && trace[j] == trace[i]
    ensures exists k :: i < k < j && Frees(trace[k], trace[i].id)
  {
    assert FitsAt(maxId, size, shards, trace, j);
    if forall k :: i < k < j ==> !Frees(trace[k], trace[i].id) {
      StaysOut(trace, i, j);
    }
  }

  /** Released by name, when all releases in between are of ids in the range. */
  lemma IssuedAgainOnlyIfReleased(maxId: nat, size: nat, shards: nat, trace: seq<Event>, i: nat, j: nat)
    requires Cut(maxId, size, shards) && Trace(maxId, size, shards, trace) && i < j < |trace|
    requires trace[i].Issued? && trace[j] == trace[i]
    requires forall k :: i < k < j && trace[k].Released? ==> 0 <= trace[k].asked < maxId
    ensures exists k :: i < k < j && trace[k] == Released(trace[i].id, trace[i].id)
  {
    NeverIssuedTwice(maxId, size, shards, trace, i, j);
    var k :| i < k < j && Frees(trace[k], trace[i].id);
    assert FitsAt(maxId, size, shards, trace, k);
    LandsOnItselfIff(maxId, size, shards, trace[k].asked);
  }

  /** The condition is needed: with 95 ids, a release of 97 frees 94, which is then issued to a second holder. */
  lemma StrayReleaseIssuesTwice()
    ensures Cut(95, 10, 10) && Trace(95, 10, 10, [Issued(94), Released(97, 94), Issued(94)])
  {
    var issued, released := [Issued(94)], [Issued(94), Released(97, 94)];
    var none: seq<Event> := [];
    assert Trace(95, 10, 10, none) && IdsAfter(none) == {};
    ExtendTrace(95, 10, 10, none, Issued(94));
    assert none + [Issued(94)] == issued;
    ExtendTrace(95, 10, 10, issued, Released(97, 94));
    assert issued + [Released(97, 94)] == released;
    assert 94 !in IdsAfter(released);
    ExtendTrace(95, 10, 10, released, Issued(94));
    assert released + [Issued(94)] == [Issued(94), Released(97, 94), Issued(94)];
  }

  /** A thread that finds each shard full, each at its own moment between start and end, has seen every id out at some
      moment between them. There need be no one moment at which all of them are. */
  lemma EachWasOut(maxId: nat, size: nat, shards: nat, trace: seq<Event>, start: nat, id: int)
    requires Cut(maxId, size, shards) && Trace(maxId, size, shards, trace) && 0 <= id < maxId
    requires forall s: nat :: s < shards ==> FoundFull(trace, start, s)
    ensures exists k :: start <= k < |trace| && id in IdsAfter(trace[..k])
  {
    HasShard(maxId, size, shards, id);
    var s: nat := id / size;
    assert FoundFull(trace, start, s);
    var k :| start <= k < |trace| && trace[k] == ShardFull(s);
    assert FitsAt(maxId, size, shards, trace, k);
  }

  lemma AllWereOut(maxId: nat, size: nat, shards: nat, trace: seq<Event>, start: nat)
    requires Cut(maxId, size, shards) && Trace(maxId, size, shards, trace)
    requires forall s: nat :: s < shards ==> FoundFull(trace, start, s)
    ensures forall id :: 0 <= id < maxId ==> OutSince(trace, start, id)
  {
    forall id | 0 <= id < maxId ensures OutSince(trace, start, id) {
      EachWasOut(maxId, size, shards, trace, start, id);
    }
  }

  ghost predicate FoundFull(trace: seq<Event>, start: nat, s: nat) {
    exists k :: start <= k < |trace| && trace[k] == ShardFull(s)
  }

  lemma ExtendTrace(maxId: nat, size: nat, shards: nat, trace: seq<Event>, e: Event)
    requires size > 0 && Trace(maxId, size, shards, trace) && Fits(maxId, size, shards, IdsAfter(trace), e)
    ensures Trace(maxId, size, shards, trace + [e])
    ensures IdsAfter(trace + [e]) == Apply(IdsAfter(trace), e)
  {
    var more := trace + [e];
    assert more[..|trace|] == trace;
    forall k: nat | k < |more| ensures FitsAt(maxId, size, shards, more, k) {
      assert more[..k] == trace[..k];
      if k < |trace| { assert FitsAt(maxId, size, shards, trace, k); }
    }
  }

  /** A block that some other thread makes. */
  datatype Block = TryOne(shard: nat) | GiveBack(id: int)

  ghost predicate Undisturbed(meanwhile: seq<seq<Block>>) {
    forall i :: 0 <= i < |meanwhile| ==> meanwhile[i] == []
  }

  /** The last block issued the id, which was free. */
  ghost predicate EndsByIssuing(maxId: nat, trace: seq<Event>, id: int) {
    trace != [] && trace[|trace| - 1] == Issued(id) && 0 <= id < maxId && id !in IdsAfter(trace[..|trace| - 1])
  }

  lemma IssuedWasFree(maxId: nat, size: nat, shards: nat, trace: seq<Event>, id: int)
    requires size > 0 && Trace(maxId, size, shards, trace) && trace != [] && trace[|trace| - 1] == Issued(id)
    ensures EndsByIssuing(maxId, trace, id)
    ensures IdsAfter(trace) == IdsAfter(trace[..|trace| - 1]) + {id}
  {
    assert FitsAt(maxId, size, shards, trace, |trace| - 1);
  }

  ghost predicate OutSince(trace: seq<Event>, start: nat, id: int) {
    exists k :: start <= k < |trace| && id in IdsAfter(trace[..k])
  }

  /** Since before, only full shards have been found. */
  ghost predicate OnlyFull(before: seq<Event>, trace: seq<Event>) {
    before <= trace && forall k :: |before| <= k < |trace| ==> trace[k].ShardFull?
  }

  lemma {:induction false} OnlyFullKeeps(before: seq<Event>, trace: seq<Event>)
    requires OnlyFull(before, trace)
    ensures IdsAfter(trace) == IdsAfter(before)
    decreases |trace|
  {
    if |trace| == |before| {
      assert trace == before;
    } else {
      OnlyFullKeeps(before, trace[..|trace| - 1]);
    }
  }

  lemma OnlyFullSees(before: seq<Event>, trace: seq<Event>, maxId: nat)
    requires OnlyFull(before, trace) && forall k :: 0 <= k < maxId ==> OutSince(trace, |before|, k)
    ensures IdsAfter(trace) == IdsAfter(before) && forall k :: 0 <= k < maxId ==> k in IdsAfter(before)
  {
    OnlyFullKeeps(before, trace);
    forall id | 0 <= id < maxId ensures id in IdsAfter(before) {
      assert OutSince(trace, |before|, id);
      var k :| |before| <= k < |trace| && id in IdsAfter(trace[..k]);
      OnlyFullKeeps(before, trace[..k]);
    }
  }

  /** Since before these shards have been found full, and nothing else has happened if it was calm. */
  ghost predicate Tried(before: seq<Event>, trace: seq<Event>, full: seq<nat>, calm: bool) {
    before <= trace && (forall s :: s in full ==> FoundFull(trace, |before|, s)) && (calm ==> OnlyFull(before, trace))
  }

  lemma TriedOneMore(before: seq<Event>, earlier: seq<Event>, trace: seq<Event>, order: seq<nat>, i: nat, calm: bool)
    requires i < |order| && Tried(before, earlier, order[..i], calm)
    requires earlier <= trace && |earlier| < |trace| && trace[|trace| - 1] == ShardFull(order[i])
    requires calm ==> trace == earlier + [ShardFull(order[i])]
    ensures Tried(before, trace, order[..i + 1], calm)
  {
    forall s | s in order[..i + 1] ensures FoundFull(trace, |before|, s) {
      if s in order[..i] {
        var k :| |before| <= k < |earlier| && earlier[k] == ShardFull(s);
        assert trace[k] == earlier[k];
      }
    }
  }

  // --- the allocator ----------------------------------------------------------------------

  class ThreadSafeAllocator {
    const maxId: nat
    const shardSize: nat
    const shards: seq<SegmentTreeAllocator>
    ghost var log: seq<Event>             // what every block so far has done
    ghost const Footprint: set<object>    // the shards and their trees

    ghost predicate Valid()
      reads this, Footprint
    {
      ShardsValid() && Trace(maxId, shardSize, |shards|, log) && IdsAfter(log) == Ids()
    }

    /** Blocks that try shards there are. */
    ghost predicate MayComeIn(blocks: seq<Block>) {
      forall b :: b in blocks && b.TryOne? ==> b.shard < |shards|
    }

    ghost predicate Owns(s: nat)
      requires s < |shards|
    {
      shards[s] in Footprint && shards[s].tree in Footprint
    }

    ghost predicate ShardsValid()
      reads Footprint
    {
      Apart(shards) && Cut(maxId, shardSize, |shards|) && this !in Footprint &&
      forall s :: 0 <= s < |shards| ==>
        Owns(s) && shards[s].Valid() && shards[s].maxId == Capacity(maxId, shardSize, s)
    }

    ghost function Taken(): (t: seq<set<int>>)
      reads shards
      ensures |t| == |shards|
    {
      seq(|shards|, s requires 0 <= s < |shards| reads shards => shards[s].alloc)
    }

    /** The global ids out. */
    ghost function Ids(): set<int>
      reads shards
    {
      Held(maxId, shardSize, Taken())
    }

    constructor (n: nat)
      requires n >= 1
      ensures Valid() && maxId == n && Ids() == {} && |shards| <= SHARDS
      ensures fresh(Footprint)
    {
      var size := (n + SHARDS - 1) / SHARDS;
      var list: seq<SegmentTreeAllocator> := [];
      ghost var owned: set<object> := {};
      var rem := n;
      while rem > 0
        invariant rem == Remaining(n, size, |list|) && (|list| - 1) * size < n
        invariant Apart(list)
        invariant forall s :: 0 <= s < |list| ==>
          list[s].Valid() && list[s].maxId == Capacity(n, size, s) && list[s].alloc == {} &&
          list[s] in owned && list[s].tree in owned
        invariant fresh(owned) && forall o :: o in owned ==> o is SegmentTreeAllocator || o is array<bv8>
        decreases rem
      {
        NextShard(n, size, |list|);
        var cap := Min(size, rem);
        var tree := new SegmentTreeAllocator(cap);
        list := list + [tree];
        owned := owned + {tree, tree.tree};
        rem := rem - cap;
      }
      AtMostTen(n, size, |list|);
      maxId, shardSize, shards, log, Footprint := n, size, list, [], owned;
    }

    /** One shard, under its lock: its lowest free slot as a global id, or nothing when it is full. */
    method TryShard(s: nat) returns (id: Option<int>)
      requires Valid() && s < |shards|
      modifies shards[s], shards[s].tree, this`log
      ensures Valid() && log == old(log) + [Tries(s, id)]
      ensures id.Some? ==> LowestInShard(maxId, shardSize, old(Ids()), s, id.value) && Ids() == old(Ids()) + {id.value}
      ensures id.None? ==> OutBelow(maxId, shardSize, old(Ids()), s, maxId) && Ids() == old(Ids())
    {
      ghost var ids := Ids();
      id := AllocateIn(s);
      TryFits(maxId, shardSize, |shards|, ids, s, id);
      ExtendTrace(maxId, shardSize, |shards|, log, Tries(s, id));
      log := log + [Tries(s, id)];
    }

    method AllocateIn(s: nat) returns (id: Option<int>)
      requires ShardsValid() && s < |shards|
      modifies shards[s], shards[s].tree
      ensures ShardsValid()
      ensures id.Some? ==> LowestInShard(maxId, shardSize, old(Ids()), s, id.value) && Ids() == old(Ids()) + {id.value}
      ensures id.None? ==> OutBelow(maxId, shardSize, old(Ids()), s, maxId) && Ids() == old(Ids())
    {
      ghost var before := Taken();
      var local := shards[s].Allocate();
      assert Taken() == before[s := shards[s].alloc];
      if local.Some? {
        id := Some(s * shardSize + local.value);
        TakeLowest(maxId, shardSize, before, s, local.value, id.value);
      } else {
        FullShard(maxId, shardSize, before, s);
        assert Taken() == before;
        return None;
      }
    }

    /** Any integer: the id it lands on goes back to its shard, under that shard's lock, or an IndexError is raised. */
    method Release(id: int) returns (ok: bool)
      requires Valid()
      modifies Footprint, this`log
      ensures Valid()
      ensures ok <==> Landing(maxId, shardSize, |shards|, id).Some?
      ensures !ok ==> Ids() == old(Ids()) && log == old(log)
      ensures ok ==> var freed := Landing(maxId, shardSize, |shards|, id).value;
                     Ids() == old(Ids()) - {freed} && log == old(log) + [Released(id, freed)]
    {
      var s, local := id / shardSize, id % shardSize;
      if s >= |shards| || s + |shards| < 0 {
        return false;
      }
      var at := if s < 0 then s + |shards| else s;
      GiveBackTo(id, at, local);
      return true;
    }

    method GiveBackTo(ghost id: int, s: nat, local: nat)
      requires Valid() && s < |shards|
      requires Landing(maxId, shardSize, |shards|, id) ==
        Some(s * shardSize + Clamp(local, 0, Capacity(maxId, shardSize, s) - 1))
      modifies Footprint, this`log
      ensures Valid()
      ensures var freed := Landing(maxId, shardSize, |shards|, id).value;
              Ids() == old(Ids()) - {freed} && log == old(log) + [Released(id, freed)]
    {
      ghost var freed := Landing(maxId, shardSize, |shards|, id).value;
      ReleaseIn(freed, s, local);
      ExtendTrace(maxId, shardSize, |shards|, log, Released(id, freed));
      log := log + [Released(id, freed)];
    }

    method ReleaseIn(ghost freed: int, s: nat, local: nat)
      requires ShardsValid() && s < |shards|
      requires freed == s * shardSize + Clamp(local, 0, Capacity(maxId, shardSize, s) - 1)
      modifies shards[s], shards[s].tree
      ensures ShardsValid() && Ids() == old(Ids()) - {freed}
    {
      ghost var before := Taken();
      ghost var slot := Clamp(local, 0, Capacity(maxId, shardSize, s) - 1);
      ShardStart(maxId, shardSize, |shards|, s);
      shards[s].Release(local);
      assert Taken() == before[s := shards[s].alloc];
      ChangeSlot(maxId, shardSize, before, s, slot, shards[s].alloc);
    }

    /** allocate, trying the shards in any order, with the blocks that other threads get in before each try. An id it
        returns was free at that moment. None means that every id was out at some moment of the call; when no other
        thread gets in, that every id is out. */
    method Allocate(order: seq<nat>, meanwhile: seq<seq<Block>>) returns (id: Option<int>)
      requires Valid() && (forall s: nat :: s < |shards| <==> s in order) && |meanwhile| == |order|
      requires forall i :: 0 <= i < |meanwhile| ==> MayComeIn(meanwhile[i])
      modifies Footprint, this`log
      ensures Valid() && old(log) <= log
      ensures id.Some? ==> EndsByIssuing(maxId, log, id.value)
      ensures id.None? ==> forall k :: 0 <= k < maxId ==> OutSince(log, |old(log)|, k)
      ensures Undisturbed(meanwhile) ==> (id.None? <==> forall k :: 0 <= k < maxId ==> k in old(Ids()))
      ensures Undisturbed(meanwhile) && id.Some? ==> id.value !in old(Ids()) && Ids() == old(Ids()) + {id.value}
    {
      ghost var before := log;
      id := TryInTurn(order, meanwhile);
      if id.Some? {
        IssuedWasFree(maxId, shardSize, |shards|, log, id.value);
        if Undisturbed(meanwhile) { OnlyFullKeeps(before, log[..|log| - 1]); }
      } else {
        AllWereOut(maxId, shardSize, |shards|, log, |before|);
        if Undisturbed(meanwhile) { OnlyFullSees(before, log, maxId); }
      }
    }

    /** The loop, told by the log: the shards found full, in whatever company, and the id issued if any. */
    method TryInTurn(order: seq<nat>, meanwhile: seq<seq<Block>>) returns (id: Option<int>)
      requires Valid() && (forall s :: s in order ==> s < |shards|) && |meanwhile| == |order|
      requires forall i :: 0 <= i < |meanwhile| ==> MayComeIn(meanwhile[i])
      modifies Footprint, this`log
      ensures Valid() && old(log) <= log
      ensures id.Some? ==> |log| > |old(log)| && log[|log| - 1] == Issued(id.value)
      ensures id.Some? && Undisturbed(meanwhile) ==> OnlyFull(old(log), log[..|log| - 1])
      ensures id.None? ==> Tried(old(log), log, order, Undisturbed(meanwhile))
    {
      ghost var before, calm := log, Undisturbed(meanwhile);
      for i := 0 to |order|
        invariant Valid() && Tried(before, log, order[..i], calm)
      {
        ghost var earlier := log;
        assert order[i] in order;
        id := TryAfter(meanwhile[i], order[i]);
        if id.Some? {
          assert calm ==> log[..|log| - 1] == earlier;
          return;
        }
        TriedOneMore(before, earlier, log, order, i, calm);
      }
      assert order[..|order|] == order;
      return None;
    }

    /** One try, after the blocks that others get in. */
    method TryAfter(blocks: seq<Block>, s: nat) returns (id: Option<int>)
      requires Valid() && s < |shards| && MayComeIn(blocks)
      modifies Footprint, this`log
      ensures Valid() && old(log) <= log && |old(log)| < |log|
      ensures log[|log| - 1] == Tries(s, id)
      ensures blocks == [] ==> log == old(log) + [log[|log| - 1]]
    {
      LetIn(blocks);
      id := TryShard(s);
    }

    /** The blocks of other threads, one after the other. */
    method LetIn(blocks: seq<Block>)
      requires Valid() && MayComeIn(blocks)
      modifies Footprint, this`log
      ensures Valid() && old(log) <= log
      ensures blocks == [] ==> log == old(log)
    {
      for i := 0 to |blocks|
        invariant Valid() && old(log) <= log && (i == 0 ==> log == old(log))
      {
        assert blocks[i] in blocks;
        match blocks[i]
        case TryOne(s) => var _ := TryShard(s);
        case GiveBack(id) => var _ := Release(id);
      }
    }
  }
}
