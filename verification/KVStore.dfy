/** The key-value store with expiry: a versioned index and a heap of deadlines, cleaned lazily, against a plain map. */
module KVStore {
  import opened Basics

  datatype Entry = Entry(value: string, expiry: Option<real>, version: nat)

  datatype Deadline = Deadline(expiry: real, key: string, version: nat)

  /** What a put leaves in the reference: a map nothing is ever swept from, whose readers check the expiry. */
  datatype Plain = Plain(value: string, expiry: Option<real>)

  datatype Outcome = Done | ValueError

  /** What put may be called with: None, a string, or a value of some other type. */
  datatype Argument = Null | Text(text: string) | Other

  /** What put accepts as a key or a value. */
  predicate Accepted(a: Argument) { a.Text? && a.text != "" }

  type Index = map<string, Entry>
  type Reference = map<string, Plain>

  predicate Expired(expiry: Option<real>, now: real) { expiry.Some? && expiry.value <= now }

  predicate Live(plain: Reference, key: string, now: real) {
    key in plain && !Expired(plain[key].expiry, now)
  }

  function Lookup(plain: Reference, key: string, now: real): Option<string> {
    if Live(plain, key, now) then Some(plain[key].value) else None
  }

  function ExpiryOf(ttl: Option<real>, now: real): Option<real> {
    if ttl.Some? && ttl.value != 0.0 then Some(now + ttl.value) else None
  }

  /** What puts and deletes do to the reference, with the reading a deadline is counted from. */
  datatype Change = Write(key: string, value: string, ttl: Option<real>, at: real) | Erase(key: string)

  function Changed(plain: Reference, c: Change): Reference {
    match c
    case Write(key, value, ttl, at) => plain[key := Plain(value, ExpiryOf(ttl, at))]
    case Erase(key) => plain - {key}
  }

  function After(changes: seq<Change>): Reference {
    if changes == [] then map[] else Changed(After(changes[..|changes| - 1]), changes[|changes| - 1])
  }

  /** No change from the i-th on touches the key. */
  ghost predicate Untouched(changes: seq<Change>, i: nat, key: string) {
    forall j :: i <= j < |changes| ==> changes[j].key != key
  }

  lemma {:induction false} UntouchedReads(changes: seq<Change>, i: nat, key: string, now: real)
    requires i <= |changes| && Untouched(changes, i, key)
    ensures Lookup(After(changes), key, now) == Lookup(After(changes[..i]), key, now)
    decreases |changes|
  {
    if i == |changes| {
      assert changes[..i] == changes;
    } else {
      var before := changes[..|changes| - 1];
      UntouchedReads(before, i, key, now);
      assert before[..i] == changes[..i];
    }
  }

  /** After any puts and deletes a key reads as its last put left it, up to the reading at which that put's time to live
      is over and not from then on; with no time to live, or one of zero, for ever. */
  lemma LastChangeIsRead(changes: seq<Change>, i: nat, now: real)
    requires i < |changes| && Untouched(changes, i + 1, changes[i].key)
    ensures Lookup(After(changes), changes[i].key, now) ==
            match changes[i]
            case Erase(_) => None
            case Write(_, value, ttl, at) =>
              if ttl == None || ttl == Some(0.0) || now < at + ttl.value then Some(value) else None
  {
    UntouchedReads(changes, i + 1, changes[i].key, now);
    assert changes[..i + 1][..i] == changes[..i];
  }

  /** A key never put reads as nothing. */
  lemma NeverPutIsNone(changes: seq<Change>, key: string, now: real)
    requires Untouched(changes, 0, key)
    ensures Lookup(After(changes), key, now) == None
  {
    UntouchedReads(changes, 0, key, now);
  }

  /** Versions are current, and every deadline is on the heap. Old deadlines may be there too. */
  ghost predicate Indexed(store: Index, heap: set<Deadline>, versions: map<string, nat>) {
    (forall k :: k in store ==> k in versions && store[k].version == versions[k]) &&
    (forall k :: k in store && store[k].expiry.Some? ==> DeadlineOf(store, k) in heap) &&
    (forall d :: d in heap ==> d.key in versions && d.version <= versions[d.key]) &&
    forall d :: d in heap && IsCurrent(store, d) ==> store[d.key].expiry == Some(d.expiry)
  }

  function DeadlineOf(store: Index, k: string): Deadline
    requires k in store && store[k].expiry.Some?
  {
    Deadline(store[k].expiry.value, k, store[k].version)
  }

  /** The test made on a popped deadline: the entry it was pushed for is still the one stored. */
  predicate IsCurrent(store: Index, d: Deadline) {
    d.key in store && store[d.key].version == d.version
  }

  /** The index holds the reference's entries; those it lacks had expired by the clock. */
  ghost predicate Agrees(store: Index, plain: Reference, clock: real) {
    (forall k :: k in store ==> k in plain && plain[k] == Plain(store[k].value, store[k].expiry)) &&
    forall k :: k in plain && k !in store ==> Expired(plain[k].expiry, clock)
  }

  lemma LaterAgrees(store: Index, plain: Reference, clock: real, now: real)
    requires Agrees(store, plain, clock) && clock <= now
    ensures Agrees(store, plain, now)
  {
  }

  function Popped(store: Index, d: Deadline): Index {
    if IsCurrent(store, d) then store - {d.key} else store
  }

  /** One turn of the sweep. A deadline of an overwritten or deleted entry removes nothing; a current one removes an
      expired entry, so the reference is still agreed with. */
  lemma PopAgrees(store: Index, heap: set<Deadline>, versions: map<string, nat>, plain: Reference,
                  d: Deadline, now: real)
    requires Indexed(store, heap, versions) && Agrees(store, plain, now)
    requires d in heap && d.expiry <= now
    ensures Indexed(Popped(store, d), heap - {d}, versions) && Agrees(Popped(store, d), plain, now)
    ensures forall k :: k in store && !Expired(store[k].expiry, now) ==> k in Popped(store, d)
  {
    var store' := Popped(store, d);
    forall k | k in store'
      ensures k in versions && store'[k].version == versions[k]
      ensures store'[k].expiry.Some? ==> DeadlineOf(store', k) in heap - {d}
    {
      assert k in store && store'[k] == store[k];
      if store[k].expiry.Some? {
        assert DeadlineOf(store, k) in heap;
      }
    }
  }

  /** Once no deadline at or before now is left, the index is exactly what is live. */
  lemma SweptIsLive(store: Index, heap: set<Deadline>, versions: map<string, nat>, plain: Reference, now: real)
    requires Indexed(store, heap, versions) && Agrees(store, plain, now)
    requires forall d :: d in heap ==> now < d.expiry
    ensures forall k :: k in store <==> Live(plain, k, now)
    ensures forall k :: k in store ==> Lookup(plain, k, now) == Some(store[k].value)
  {
    forall k | k in store ensures !Expired(store[k].expiry, now) {
      if store[k].expiry.Some? {
        assert DeadlineOf(store, k) in heap;
      }
    }
  }

  /** A put with a new version leaves any deadlines of the key behind, stale. */
  lemma PutAgrees(store: Index, heap: set<Deadline>, versions: map<string, nat>, plain: Reference, clock: real,
                  key: string, value: string, expiry: Option<real>)
    requires Indexed(store, heap, versions) && Agrees(store, plain, clock)
    ensures var version := NextVersion(versions, key);
            var store' := store[key := Entry(value, expiry, version)];
            var heap' := if expiry.Some? then heap + {Deadline(expiry.value, key, version)} else heap;
            Indexed(store', heap', versions[key := version]) &&
            Agrees(store', plain[key := Plain(value, expiry)], clock)
  {
    var version := NextVersion(versions, key);
    var store' := store[key := Entry(value, expiry, version)];
    var heap' := if expiry.Some? then heap + {Deadline(expiry.value, key, version)} else heap;
    forall k | k in store' && store'[k].expiry.Some? ensures DeadlineOf(store', k) in heap' {
      if k != key {
        assert DeadlineOf(store', k) == DeadlineOf(store, k);
      }
    }
    forall d | d in heap' && IsCurrent(store', d) ensures store'[d.key].expiry == Some(d.expiry) {
      if d.key != key {
        assert IsCurrent(store, d);
      }
    }
  }

  function NextVersion(versions: map<string, nat>, key: string): nat {
    (if key in versions then versions[key] else 0) + 1
  }

  lemma DeleteAgrees(store: Index, heap: set<Deadline>, versions: map<string, nat>, plain: Reference, clock: real,
                     key: string)
    requires Indexed(store, heap, versions) && Agrees(store, plain, clock)
    ensures Indexed(store - {key}, heap, versions) && Agrees(store - {key}, plain - {key}, clock)
  {
    var store' := store - {key};
    forall k | k in store' && store'[k].expiry.Some? ensures DeadlineOf(store', k) in heap {
      assert DeadlineOf(store', k) == DeadlineOf(store, k);
    }
    forall d | d in heap && IsCurrent(store', d) ensures store'[d.key].expiry == Some(d.expiry) {
      assert IsCurrent(store, d);
    }
  }

  lemma {:induction false} HasLeast(heap: set<Deadline>)
    requires heap != {}
    ensures exists d :: d in heap && forall e :: e in heap ==> d.expiry <= e.expiry
    decreases |heap|
  {
    var d :| d in heap;
    if heap != {d} {
      var rest := heap - {d};
      HasLeast(rest);
      var l :| l in rest && forall e :: e in rest ==> l.expiry <= e.expiry;
      var best := if d.expiry <= l.expiry then d else l;
      assert best in heap && forall e :: e in heap ==> e == d || e in rest;
    }
  }

  class KVStore {
    var store: Index
    var heap: set<Deadline>              // a heapq: only its least deadline is ever looked at
    var versions: map<string, nat>
    ghost var plain: Reference
    ghost var clock: real                // the last reading a sweep used

    ghost predicate Valid()
      reads this
    {
      Indexed(store, heap, versions) && Agrees(store, plain, clock)
    }

    constructor (now: real)
      ensures Valid() && plain == map[] && clock == now
    {
      store, heap, versions, plain, clock := map[], {}, map[], map[], now;
    }

    method LazyDelete(now: real)
      requires Valid() && clock <= now
      modifies this`store, this`heap, this`clock
      ensures Valid() && clock == now
      ensures forall k :: k in store <==> Live(plain, k, now)
      ensures forall k :: k in store ==> Lookup(plain, k, now) == Some(store[k].value)
    {
      LaterAgrees(store, plain, clock, now);
      clock := now;
      while heap != {}
        invariant Indexed(store, heap, versions) && Agrees(store, plain, now) && clock == now
        decreases |heap|
      {
        HasLeast(heap);
        var d :| d in heap && forall e :: e in heap ==> d.expiry <= e.expiry;
        if d.expiry > now {
          break;
        }
        PopAgrees(store, heap, versions, plain, d, now);
        ghost var was := store;
        heap := heap - {d};
        if d.key in store {
          if store[d.key].version == d.version {
            store := store - {d.key};
          }
        }
        assert store == Popped(was, d);
      }
      SweptIsLive(store, heap, versions, plain, now);
    }

    /** Two readings of the clock: the sweep's, and the one the deadline is counted from. A time to live of zero, like
        none at all, stores for ever. */
    method Put(key: Argument, value: Argument, ttl: Option<real>, now: real, later: real) returns (r: Outcome)
      requires Valid() && clock <= now <= later
      modifies this
      ensures Valid()
      ensures r == Done <==> Accepted(key) && Accepted(value)
      ensures r == ValueError ==> plain == old(plain) && clock == old(clock)
      ensures r == Done ==>
        clock == now && plain == Changed(old(plain), Write(key.text, value.text, ttl, later))
    {
      if key.Null? || value.Null? || !key.Text? || !value.Text? || key.text == "" || value.text == "" {
        return ValueError;
      }
      LazyDelete(now);
      Store(key.text, value.text, ttl, later);
      return Done;
    }

    method Store(key: string, value: string, ttl: Option<real>, later: real)
      requires Valid()
      modifies this`store, this`heap, this`versions, this`plain
      ensures Valid() && plain == old(plain)[key := Plain(value, ExpiryOf(ttl, later))]
    {
      var version := NextVersion(versions, key);
      if ttl == None || ttl.value == 0.0 {
        PutAgrees(store, heap, versions, plain, clock, key, value, None);
        versions := versions[key := version];
        store := store[key := Entry(value, None, version)];
        plain := plain[key := Plain(value, None)];
        return;
      }
      var expiry := later + ttl.value;
      PutAgrees(store, heap, versions, plain, clock, key, value, Some(expiry));
      versions := versions[key := version];
      store := store[key := Entry(value, Some(expiry), version)];
      heap := heap + {Deadline(expiry, key, version)};
      plain := plain[key := Plain(value, Some(expiry))];
    }

    method Get(key: string, now: real) returns (r: Option<string>)
      requires Valid() && clock <= now
      modifies this
      ensures Valid() && clock == now && plain == old(plain)
      ensures r == Lookup(plain, key, now)
    {
      LazyDelete(now);
      if key in store {
        return Some(store[key].value);
      }
      return None;
    }

    method Delete(key: string, now: real) returns (r: bool)
      requires Valid() && clock <= now
      modifies this
      ensures Valid() && clock == now && (r <==> Live(old(plain), key, now))
      ensures plain == if r then Changed(old(plain), Erase(key)) else old(plain)
    {
      LazyDelete(now);
      if key in store {
        DeleteAgrees(store, heap, versions, plain, clock, key);
        store := store - {key};
        plain := plain - {key};
        return true;
      }
      return false;
    }
  }
}
