/**
 A set with O(1) snapshots: per-element version histories, pins that keep what open snapshots
 can read, and a collector that prunes the rest on every release.
 */
module SnapshotSet {
  import opened Basics
  import opened Counting

  type Elem = string

  /** From version on, until the next record, the element is present or absent. */
  datatype Record = Record(version: int, present: bool)

  type History = map<Elem, seq<Record>>

  ghost predicate Sorted(h: seq<Record>) {
    forall i, j :: 0 <= i < j < |h| ==> h[i].version < h[j].version
  }

  /** bisect_right on the version keys: how many records are at or before v. */
  function BisectRight(h: seq<Record>, v: int): (n: nat)
    ensures n <= |h| && (n < |h| ==> h[n].version > v) && (n > 0 ==> h[n - 1].version <= v)
  {
    if h == [] then 0
    else if h[|h| - 1].version <= v then |h|
    else BisectRight(h[..|h| - 1], v)
  }

  lemma BisectUnique(h: seq<Record>, v: int, n: nat)
    requires Sorted(h) && n <= |h| && (n < |h| ==> h[n].version > v) && (n > 0 ==> h[n - 1].version <= v)
    ensures BisectRight(h, v) == n
  {
  }

  /** Membership in effect at version v, read off one history. */
  function ReadAt(h: seq<Record>, v: int): bool {
    BisectRight(h, v) > 0 && h[BisectRight(h, v) - 1].present
  }

  function PresentAt(history: History, x: Elem, v: int): bool {
    x in history && ReadAt(history[x], v)
  }

  function ItemsAt(history: History, v: int): set<Elem> {
    set x | x in history && PresentAt(history, x, v)
  }

  /** _record: overwrite the record of this version, or append one. */
  function Put(h: seq<Record>, version: int, present: bool): seq<Record> {
    if h != [] && h[|h| - 1].version == version then h[|h| - 1 := Record(version, present)]
    else h + [Record(version, present)]
  }

  /** A write shows from its version on and changes no earlier reading. */
  lemma PutReads(h: seq<Record>, version: int, present: bool)
    requires Sorted(h) && (h != [] ==> h[|h| - 1].version <= version)
    ensures var h' := Put(h, version, present);
      && h' != [] && h'[|h'| - 1] == Record(version, present)
      && Sorted(h') && ReadAt(h', version) == present
      && forall v :: v < version ==> ReadAt(h', v) == ReadAt(h, v)
  {
    forall v | v < version ensures ReadAt(Put(h, version, present), v) == ReadAt(h, v) {
      PutKeepsRead(h, version, present, v);
    }
  }

  lemma PutKeepsRead(h: seq<Record>, version: int, present: bool, v: int)
    requires Sorted(h) && (h != [] ==> h[|h| - 1].version <= version) && v < version
    ensures ReadAt(Put(h, version, present), v) == ReadAt(h, v)
  {
    var h' := Put(h, version, present);
    if h != [] && h[|h| - 1].version == version {
      assert h'[..|h| - 1] == h[..|h| - 1];
    } else {
      assert h'[..|h|] == h;
    }
  }

  /** What the collector leaves of one history: the record in effect at the horizon, and later ones. */
  function Pruned(h: seq<Record>, horizon: int): seq<Record> {
    var keepFrom := BisectRight(h, horizon) - 1;
    if keepFrom > 0 then h[keepFrom..] else h
  }

  lemma PruneKeepsRead(h: seq<Record>, horizon: int, v: int)
    requires Sorted(h) && h != [] && v >= horizon
    ensures ReadAt(Pruned(h, horizon), v) == ReadAt(h, v)
  {
    var keepFrom, n := BisectRight(h, horizon) - 1, BisectRight(h, v);
    if keepFrom > 0 {
      assert n - 1 >= keepFrom by {
        assert h[keepFrom].version <= v;
      }
      BisectUnique(Pruned(h, horizon), v, n - keepFrom);
    }
  }

  lemma PruneReads(h: seq<Record>, horizon: int)
    requires Sorted(h) && h != []
    ensures Pruned(h, horizon) != [] && Sorted(Pruned(h, horizon))
    ensures Pruned(h, horizon)[|Pruned(h, horizon)| - 1] == h[|h| - 1]
    ensures forall v :: v >= horizon ==> ReadAt(Pruned(h, horizon), v) == ReadAt(h, v)
    ensures h[|h| - 1].version <= horizon ==> |Pruned(h, horizon)| == 1
  {
    forall v | v >= horizon ensures ReadAt(Pruned(h, horizon), v) == ReadAt(h, v) {
      PruneKeepsRead(h, horizon, v);
    }
  }

  /** A history with nothing left to say: one record, absent, for an element not in the set. */
  predicate Useless(h: seq<Record>, inLive: bool) {
    |h| == 1 && !h[0].present && !inLive
  }

  lemma UselessReadsFalse(h: seq<Record>, v: int)
    requires Useless(h, false)
    ensures !ReadAt(h, v)
  {
  }

  /** The histories after a collection. */
  function Collected(history: History, horizon: int, live: set<Elem>): History {
    map x | x in history && !Useless(Pruned(history[x], horizon), x in live) :: Pruned(history[x], horizon)
  }

  ghost predicate GoodHistory(history: History, version: int, live: set<Elem>) {
    (forall x :: x in live ==> x in history) &&
    forall x :: x in history ==>
      history[x] != [] && Sorted(history[x]) && history[x][|history[x]| - 1].version <= version &&
      history[x][|history[x]| - 1].present == (x in live)
  }

  /** Every reader at or after the horizon sees what it saw. */
  lemma CollectedReads(history: History, version: int, live: set<Elem>, horizon: int)
    requires GoodHistory(history, version, live)
    ensures GoodHistory(Collected(history, horizon, live), version, live)
    ensures forall x, v :: v >= horizon ==>
      PresentAt(Collected(history, horizon, live), x, v) == PresentAt(history, x, v)
  {
    var after := Collected(history, horizon, live);
    forall x | x in history
      ensures x in after ==> Sorted(after[x]) && after[x] != []
      ensures x in after ==> after[x][|after[x]| - 1] == history[x][|history[x]| - 1]
      ensures x in live ==> x in after
    {
      PruneReads(history[x], horizon);
    }
    forall x, v | v >= horizon ensures PresentAt(after, x, v) == PresentAt(history, x, v) {
      if x in history {
        CollectedRead(history, version, live, horizon, x, v);
      }
    }
  }

  lemma CollectedRead(history: History, version: int, live: set<Elem>, horizon: int, x: Elem, v: int)
    requires GoodHistory(history, version, live) && x in history && v >= horizon
    ensures PresentAt(Collected(history, horizon, live), x, v) == PresentAt(history, x, v)
  {
    PruneKeepsRead(history[x], horizon, v);
    var pruned := Pruned(history[x], horizon);
    if Useless(pruned, x in live) {
      UselessReadsFalse(pruned, v);
    }
  }

  function Len(h: seq<Record>): int { |h| }

  /** live_history_size: the number of records retained. */
  ghost function HistorySize(history: History): int { Sum(history, Len) }

  lemma {:induction false} SumOfOnes(history: History)
    requires forall x :: x in history ==> |history[x]| == 1
    ensures HistorySize(history) == |history|
  {
    if history != map[] {
      var x :| x in history;
      SumRemove(history, x, Len);
      SumOfOnes(history - {x});
      assert history.Keys == (history - {x}).Keys + {x};
    }
  }

  /** Collected at the current version, the histories hold one record per live element. */
  lemma FullyCollected(history: History, version: int, live: set<Elem>)
    requires GoodHistory(history, version, live)
    ensures HistorySize(Collected(history, version, live)) == |live|
  {
    var after := Collected(history, version, live);
    CollectedReads(history, version, live, version);
    forall x | x in history
      ensures |Pruned(history[x], version)| == 1
      ensures x in after <==> x in live
    {
      PruneReads(history[x], version);
    }
    assert after.Keys == live;
    SumOfOnes(after);
  }

  /** Every pinned version reads exactly the set frozen there. */
  ghost predicate ReadsFrozen(history: History, pinned: set<int>, frozen: map<int, set<Elem>>) {
    forall v :: v in pinned ==> v in frozen && ReadsAs(history, v, frozen[v])
  }

  ghost predicate ReadsAs(history: History, v: int, items: set<Elem>) {
    forall x :: PresentAt(history, x, v) <==> x in items
  }

  /** A write at the current version is seen there and by no pinned version. */
  lemma WriteKeeps(history: History, version: int, live: set<Elem>, pinned: set<int>, frozen: map<int, set<Elem>>,
                   x: Elem, present: bool)
    requires GoodHistory(history, version, live) && ReadsFrozen(history, pinned, frozen)
    requires forall v :: v in pinned ==> v < version
    ensures var h := if x in history then history[x] else [];
      var history' := history[x := Put(h, version, present)];
      GoodHistory(history', version, if present then live + {x} else live - {x}) &&
      ReadsFrozen(history', pinned, frozen)
  {
    var h := if x in history then history[x] else [];
    PutReads(h, version, present);
    var history' := history[x := Put(h, version, present)];
    forall v | v in pinned ensures ReadsAs(history', v, frozen[v]) {
      WriteUnseenBefore(history, version, live, x, present, v, frozen[v]);
    }
  }

  lemma WriteUnseenBefore(history: History, version: int, live: set<Elem>, x: Elem, present: bool, v: int,
                          items: set<Elem>)
    requires GoodHistory(history, version, live) && v < version && ReadsAs(history, v, items)
    ensures var h := if x in history then history[x] else [];
      ReadsAs(history[x := Put(h, version, present)], v, items)
  {
    var h := if x in history then history[x] else [];
    PutKeepsRead(h, version, present, v);
    var history' := history[x := Put(h, version, present)];
    forall y ensures PresentAt(history', y, v) <==> y in items {
      assert PresentAt(history', y, v) == PresentAt(history, y, v);
    }
  }

  lemma CollectKeeps(history: History, version: int, live: set<Elem>, pinned: set<int>, frozen: map<int, set<Elem>>,
                     horizon: int)
    requires GoodHistory(history, version, live) && ReadsFrozen(history, pinned, frozen)
    requires forall v :: v in pinned ==> horizon <= v
    ensures GoodHistory(Collected(history, horizon, live), version, live)
    ensures ReadsFrozen(Collected(history, horizon, live), pinned, frozen)
    ensures horizon == version ==> HistorySize(Collected(history, horizon, live)) == |live|
  {
    CollectedReads(history, version, live, horizon);
    FullyCollected(history, version, live);
    forall v | v in pinned ensures ReadsAs(Collected(history, horizon, live), v, frozen[v]) {
      forall x ensures PresentAt(Collected(history, horizon, live), x, v) <==> x in frozen[v] {
        assert PresentAt(Collected(history, horizon, live), x, v) == PresentAt(history, x, v);
      }
    }
  }

  /** The newest version reads the live set. */
  lemma NewestReadsLive(history: History, version: int, live: set<Elem>)
    requires GoodHistory(history, version, live)
    ensures ReadsAs(history, version, live)
  {
  }

  // --- the set and its snapshot handles ---------------------------------------------------

  class GCSnapshotSet {
    var version: int
    var history: History
    var live: set<Elem>
    var pins: map<int, int>
    ghost var handles: set<GCSnapshot>          // the unreleased handles
    ghost var frozen: map<int, set<Elem>>       // the live set when each version was captured

    ghost predicate Valid()
      reads this
    {
      GoodHistory(history, version, live) && ReadsFrozen(history, pins.Keys, frozen) &&
      (forall v :: v in pins ==> v < version && pins[v] == |HandlesOf(v)| > 0) &&
      (forall s :: s in handles ==> s.owner == this && s.version in pins)
    }

    /** The unreleased handles of one version. */
    ghost function HandlesOf(v: int): set<GCSnapshot>
      reads this
    {
      set s | s in handles && s.version == v
    }

    constructor ()
      ensures Valid() && live == {} && handles == {}
    {
      version, history, live, pins := 0, map[], {}, map[];
      handles, frozen := {}, map[];
    }

    /** _record: writes at the current version, which no snapshot can read. */
    method Write(x: Elem, present: bool)
      requires Valid() && present != (x in live)
      modifies this`history, this`live
      ensures Valid() && live == if present then old(live) + {x} else old(live) - {x}
    {
      WriteKeeps(history, version, live, pins.Keys, frozen, x, present);
      var h := if x in history then history[x] else [];
      live := if present then live + {x} else live - {x};
      history := history[x := Put(h, version, present)];
    }

    method Add(x: Elem)
      requires Valid()
      modifies this`history, this`live
      ensures Valid() && live == old(live) + {x}
    {
      if x in live { return; }
      Write(x, true);
    }

    method Remove(x: Elem)
      requires Valid()
      modifies this`history, this`live
      ensures Valid() && live == old(live) - {x}
    {
      if x !in live { return; }
      Write(x, false);
    }

    /** Freezes the current version by moving on from it, and pins it. */
    method Snapshot() returns (s: GCSnapshot)
      requires Valid()
      modifies this`version, this`pins, this`handles, this`frozen
      ensures Valid() && fresh(s) && s.owner == this && !s.released
      ensures handles == old(handles) + {s}
      ensures s.version == old(version) && frozen == old(frozen)[s.version := live]
      ensures forall h :: h in old(handles) ==> h.version != s.version
    {
      var v := version;
      NewestReadsLive(history, version, live);
      version := version + 1;
      pins := pins[v := (if v in pins then pins[v] else 0) + 1];
      s := new GCSnapshot(this, v);
      handles := handles + {s};
      frozen := frozen[v := live];
      assert HandlesOf(v) == {s};
      forall w | w in pins && w != v ensures HandlesOf(w) == old(HandlesOf(w)) {}
    }

    /** The oldest version an open snapshot can read, or the current one. */
    method Horizon() returns (h: int)
      requires forall v :: v in pins ==> v < version
      ensures forall v :: v in pins ==> h <= v
      ensures if pins == map[] then h == version else h in pins
    {
      h := version;
      var keys := pins.Keys;
      var rest := keys;
      while rest != {}
        invariant rest <= keys && h <= version
        invariant forall v :: v in keys && v !in rest ==> h <= v
        invariant if rest == keys then h == version else h in keys
        decreases rest
      {
        var v := Pick(rest);
        h := if v < h then v else h;
        rest := rest - {v};
      }
    }

    /** Prunes every history to the horizon, then drops the useless ones. */
    method Prune(horizon: int)
      modifies this`history
      ensures history == Collected(old(history), horizon, live)
    {
      var rest := history.Keys;
      var emptyKeys: set<Elem> := {};
      while rest != {}
        invariant rest <= history.Keys == old(history).Keys && emptyKeys <= history.Keys
        invariant forall x :: x in history && x in rest ==> history[x] == old(history)[x] && x !in emptyKeys
        invariant forall x :: x in history && x !in rest ==>
          history[x] == Pruned(old(history)[x], horizon) && (x in emptyKeys <==> Useless(history[x], x in live))
        decreases rest
      {
        var x :| x in rest;
        history := history[x := Pruned(history[x], horizon)];
        if Useless(history[x], x in live) {
          emptyKeys := emptyKeys + {x};
        }
        rest := rest - {x};
      }
      history := history - emptyKeys;
    }

    /** _gc */
    method Collect()
      requires Valid()
      modifies this`history
      ensures Valid()
      ensures pins.Keys == {} ==> HistorySize(history) == |live|
    {
      var horizon := Horizon();
      CollectKeeps(history, version, live, pins.Keys, frozen, horizon);
      Prune(horizon);
    }

    /** Drops one pin of a version, and the version with its last pin. */
    method Unpin(v: int, ghost s: GCSnapshot)
      requires Valid() && s in handles && s.version == v
      modifies this`pins, this`handles
      ensures Valid() && handles == old(handles) - {s}
    {
      assert s in HandlesOf(v);
      var count := if v in pins then pins[v] else 0;
      if count <= 1 {
        pins := pins - {v};
      } else {
        pins := pins[v := count - 1];
      }
      handles := handles - {s};
      assert old(HandlesOf(v)) == HandlesOf(v) + {s};
      forall w | w in pins && w != v ensures HandlesOf(w) == old(HandlesOf(w)) {}
    }

    method ReleaseVersion(v: int, ghost s: GCSnapshot)
      requires Valid() && s in handles && s.version == v
      modifies this`pins, this`handles, this`history
      ensures Valid() && handles == old(handles) - {s}
      ensures handles == {} ==> HistorySize(history) == |live|
    {
      Unpin(v, s);
      assert handles == {} ==> pins.Keys == {} by {
        forall w | w in pins ensures handles != {} {
          assert HandlesOf(w) != {};
        }
      }
      Collect();
    }

    /** live_history_size */
    method LiveHistorySize() returns (n: int)
      ensures n == HistorySize(history)
    {
      n := 0;
      var rest := history;
      while rest != map[]
        invariant n + HistorySize(rest) == HistorySize(history)
        decreases |rest.Keys|
      {
        var x :| x in rest;
        SumRemove(rest, x, Len);
        n := n + |rest[x]|;
        assert (rest - {x}).Keys == rest.Keys - {x};
        rest := rest - {x};
      }
    }
  }

  class GCSnapshot {
    const owner: GCSnapshotSet
    const version: int
    var released: bool

    /** The handle is on its owner's books until it is released. */
    ghost predicate Valid()
      reads this, owner
    {
      owner.Valid() && (released <==> this !in owner.handles)
    }

    constructor (owner: GCSnapshotSet, version: int)
      ensures this.owner == owner && this.version == version && !released
    {
      this.owner, this.version, released := owner, version, false;
    }

    /** A released handle raises; an open one reads exactly the set it was taken from. */
    method Contains(x: Elem) returns (r: Option<bool>)
      requires Valid()
      ensures released ==> r == None
      ensures !released ==> version in owner.frozen && r == Some(x in owner.frozen[version])
    {
      if released {
        return None;
      }
      assert ReadsAs(owner.history, version, owner.frozen[version]);
      return Some(PresentAt(owner.history, x, version));
    }

    method Items() returns (r: Option<set<Elem>>)
      requires Valid()
      ensures released ==> r == None
      ensures !released ==> version in owner.frozen && r == Some(owner.frozen[version])
    {
      if released {
        return None;
      }
      assert ReadsAs(owner.history, version, owner.frozen[version]);
      var items := ItemsAt(owner.history, version);
      assert items == owner.frozen[version];
      return Some(items);
    }

    /** Drops the pin once. Every other open handle, and the set itself, read as before. */
    method Release()
      requires Valid()
      modifies this, owner`pins, owner`handles, owner`history
      ensures Valid() && released
      ensures old(released) ==> unchanged(owner)
      ensures !old(released) ==> owner.handles == old(owner.handles) - {this}
      ensures !old(released) && owner.handles == {} ==> HistorySize(owner.history) == |owner.live|
    {
      if released {
        return;
      }
      owner.ReleaseVersion(version, this);
      released := true;
    }
  }
}
