/** The hand-built LRU cache: a doubly linked list between two sentinels, and a dictionary into it. */
module LRU {
  import opened Basics

  type Key = string

  // --- the recency list as a sequence, most recent first ------------------------------------

  type Entries<V> = seq<(Key, V)>

  ghost predicate DistinctKeys<V>(s: Entries<V>) {
    forall i, j :: 0 <= i < j < |s| ==> s[i].0 != s[j].0
  }

  function Without<V>(s: Entries<V>, k: Key): (r: Entries<V>)
    ensures |r| <= |s|
  {
    if s == [] then [] else if s[0].0 == k then s[1..] else [s[0]] + Without(s[1..], k)
  }

  function Lookup<V>(s: Entries<V>, k: Key): Option<V> {
    if s == [] then None else if s[0].0 == k then Some(s[0].1) else Lookup(s[1..], k)
  }

  /** What a hit does: the entry moves to the front. */
  function Touch<V>(s: Entries<V>, k: Key): Entries<V> {
    match Lookup(s, k)
    case None => s
    case Some(v) => [(k, v)] + Without(s, k)
  }

  /** What a write does: the entry goes to the front, and when that makes one too many the last is dropped. */
  function Store<V>(s: Entries<V>, k: Key, v: V, capacity: nat): Entries<V> {
    var s' := [(k, v)] + Without(s, k);
    if |s'| > capacity then s'[..|s'| - 1] else s'
  }

  lemma {:induction false} WithoutAt<V>(s: Entries<V>, i: nat)
    requires DistinctKeys(s) && i < |s|
    ensures Without(s, s[i].0) == s[..i] + s[i + 1..] && Lookup(s, s[i].0) == Some(s[i].1)
    decreases i
  {
    if i > 0 {
      var t := s[1..];
      assert s[0].0 != s[i].0 && t[i - 1] == s[i];
      WithoutAt(t, i - 1);
      assert Without(s, s[i].0) == [s[0]] + Without(t, s[i].0);
      assert s[..i] == [s[0]] + t[..i - 1] && s[i + 1..] == t[i..];
    }
  }

  lemma {:induction false} WithoutNone<V>(s: Entries<V>, k: Key)
    requires forall i :: 0 <= i < |s| ==> s[i].0 != k
    ensures Without(s, k) == s && Lookup(s, k) == None
  {
    if s != [] {
      WithoutNone(s[1..], k);
    }
  }

  // --- what the recency list means ----------------------------------------------------------

  /** A write is read back; every other key reads as before, unless it was the last of a full
      cache and the write brought a new key. */
  lemma StoreReads<V>(s: Entries<V>, k: Key, v: V, capacity: nat, j: Key)
    requires DistinctKeys(s) && |s| <= capacity && capacity >= 1
    ensures Lookup(Store(s, k, v, capacity), k) == Some(v)
    ensures j != k ==>
      (Lookup(Store(s, k, v, capacity), j) ==
       if |s| == capacity && Lookup(s, k) == None && j == s[|s| - 1].0 then None else Lookup(s, j))
  {
    WithoutReads(s, k, j);
    if Lookup(s, k) == None && |s| == capacity {
      StoreFull(s, k, v);
      DropLastReads(s, j);
      FrontReads(s[..|s| - 1], k, v, j);
      FrontReads(s[..|s| - 1], k, v, k);
    } else {
      assert Store(s, k, v, capacity) == [(k, v)] + Without(s, k);
      FrontReads(Without(s, k), k, v, j);
      FrontReads(Without(s, k), k, v, k);
    }
  }

  lemma StoreNew<V>(s: Entries<V>, k: Key, v: V, capacity: nat)
    requires Without(s, k) == s
    ensures var s' := [(k, v)] + s; Store(s, k, v, capacity) == if |s'| > capacity then s'[..|s'| - 1] else s'
  {
  }

  lemma FrontReads<V>(s: Entries<V>, k: Key, v: V, j: Key)
    ensures Lookup([(k, v)] + s, j) == if j == k then Some(v) else Lookup(s, j)
  {
    assert ([(k, v)] + s)[1..] == s;
  }

  lemma StoreFull<V>(s: Entries<V>, k: Key, v: V)
    requires Without(s, k) == s && s != []
    ensures Store(s, k, v, |s|) == [(k, v)] + s[..|s| - 1]
  {
    assert ([(k, v)] + s)[..|s|] == [(k, v)] + s[..|s| - 1];
  }

  lemma {:induction false} WithoutReads<V>(s: Entries<V>, k: Key, j: Key)
    requires DistinctKeys(s)
    ensures j != k ==> Lookup(Without(s, k), j) == Lookup(s, j)
    ensures if Lookup(s, k) == None then Without(s, k) == s else |Without(s, k)| == |s| - 1
    ensures DistinctKeys(Without(s, k))
    ensures forall i :: 0 <= i < |Without(s, k)| ==> Without(s, k)[i].0 != k && Without(s, k)[i] in s
  {
    if s != [] {
      WithoutReads(s[1..], k, j);
    }
  }

  lemma {:induction false} DropLastReads<V>(s: Entries<V>, j: Key)
    requires DistinctKeys(s) && s != []
    ensures Lookup(s[..|s| - 1], j) == if j == s[|s| - 1].0 then None else Lookup(s, j)
  {
    if |s| > 1 {
      assert s[..|s| - 1][1..] == s[1..][..|s| - 2];
      DropLastReads(s[1..], j);
    }
  }

  function Keys<V>(s: Entries<V>): (r: seq<Key>)
    ensures |r| == |s|
  {
    seq(|s|, i requires 0 <= i < |s| => s[i].0)
  }

  function Remove(ks: seq<Key>, k: Key): (r: seq<Key>)
    ensures |r| <= |ks|
  {
    if ks == [] then [] else if ks[0] == k then ks[1..] else [ks[0]] + Remove(ks[1..], k)
  }

  function Take<T>(s: seq<T>, n: nat): seq<T> { if |s| <= n then s else s[..n] }

  /** All keys ever used, the latest use first. */
  function Recent(uses: seq<Key>): seq<Key> {
    if uses == [] then [] else [uses[|uses| - 1]] + Remove(Recent(uses[..|uses| - 1]), uses[|uses| - 1])
  }

  datatype Op<V> = Put(key: Key, value: V) | Get(key: Key)

  function After<V>(ops: seq<Op<V>>, capacity: nat): Entries<V> {
    if ops == [] then [] else
      var s := After(ops[..|ops| - 1], capacity);
      match ops[|ops| - 1]
      case Put(k, v) => Store(s, k, v, capacity)
      case Get(k) => Touch(s, k)
  }

  /** The keys used: by every write, and by every read that hits. */
  function Uses<V>(ops: seq<Op<V>>, capacity: nat): seq<Key> {
    if ops == [] then [] else
      var before, op := ops[..|ops| - 1], ops[|ops| - 1];
      if op.Put? || Lookup(After(before, capacity), op.key).Some? then Uses(before, capacity) + [op.key]
      else Uses(before, capacity)
  }

  lemma {:induction false} KeysWithout<V>(s: Entries<V>, k: Key)
    ensures Keys(Without(s, k)) == Remove(Keys(s), k)
    ensures Lookup(s, k).Some? <==> k in Keys(s)
  {
    if s != [] {
      KeysWithout(s[1..], k);
      assert Keys(s)[1..] == Keys(s[1..]);
      assert Keys(s) == [s[0].0] + Keys(s[1..]);
    }
  }

  /** Cutting a list to n before or after moving a key to its front makes no difference to the first n. */
  lemma {:induction false} TakeRemove(ks: seq<Key>, k: Key, n: nat)
    ensures Take(Remove(Take(ks, n + 1), k), n) == Take(Remove(ks, k), n)
  {
    if ks != [] && ks[0] != k && n > 0 {
      TakeRemove(ks[1..], k, n - 1);
      TakeCons(ks[0], ks[1..], n + 1);
      TakeCons(ks[0], Remove(ks[1..], k), n);
      assert ks == [ks[0]] + ks[1..];
      assert Remove(Take(ks, n + 1), k) == [ks[0]] + Remove(Take(ks[1..], n), k);
    }
  }

  lemma {:induction false} RemoveKeepsCount(ks: seq<Key>, k: Key)
    ensures |Remove(ks, k)| == if k in ks then |ks| - 1 else |ks|
  {
    if ks != [] && ks[0] != k {
      RemoveKeepsCount(ks[1..], k);
    }
  }

  lemma StoreKeys<V>(s: Entries<V>, k: Key, v: V, capacity: nat)
    requires |s| <= capacity
    ensures Keys(Store(s, k, v, capacity)) == Take([k] + Remove(Keys(s), k), capacity)
  {
    KeysWithout(s, k);
    KeysOfCons(k, v, Without(s, k));
    KeysOfPrefix([(k, v)] + Without(s, k));
  }

  lemma KeysOfCons<V>(k: Key, v: V, s: Entries<V>)
    ensures Keys([(k, v)] + s) == [k] + Keys(s)
  {
  }

  lemma KeysOfPrefix<V>(s: Entries<V>)
    ensures s != [] ==> Keys(s[..|s| - 1]) == Keys(s)[..|s| - 1]
  {
  }

  lemma TouchKeys<V>(s: Entries<V>, k: Key)
    requires Lookup(s, k).Some?
    ensures Keys(Touch(s, k)) == [k] + Remove(Keys(s), k) && |Touch(s, k)| == |s|
  {
    KeysWithout(s, k);
    RemoveKeepsCount(Keys(s), k);
    var v := Lookup(s, k).value;
    assert Touch(s, k) == [(k, v)] + Without(s, k);
    KeysOfCons(k, v, Without(s, k));
  }

  lemma TakeFront(recent: seq<Key>, k: Key, capacity: nat)
    requires capacity >= 1
    ensures Take([k] + Remove(Take(recent, capacity), k), capacity) == Take([k] + Remove(recent, k), capacity)
  {
    TakeRemove(recent, k, capacity - 1);
    TakeCons(k, Remove(recent, k), capacity);
    TakeCons(k, Remove(Take(recent, capacity), k), capacity);
  }

  lemma TakeCons(k: Key, ks: seq<Key>, n: nat)
    requires n >= 1
    ensures Take([k] + ks, n) == [k] + Take(ks, n - 1)
  {
  }

  lemma RecentSnoc(uses: seq<Key>, k: Key)
    ensures Recent(uses + [k]) == [k] + Remove(Recent(uses), k)
  {
    assert (uses + [k])[..|uses|] == uses;
  }

  /** After any run of reads and writes the cache holds, in order, exactly the capacity most
      recently used keys. */
  lemma {:induction false} HoldsTheMostRecent<V>(ops: seq<Op<V>>, capacity: nat)
    requires capacity >= 1
    ensures Keys(After(ops, capacity)) == Take(Recent(Uses(ops, capacity)), capacity)
  {
    if ops != [] {
      var before, k := ops[..|ops| - 1], ops[|ops| - 1].key;
      HoldsTheMostRecent(before, capacity);
      UseKeeps(After(before, capacity), Uses(before, capacity), ops[|ops| - 1], capacity);
    }
  }

  lemma UseKeeps<V>(s: Entries<V>, uses: seq<Key>, op: Op<V>, capacity: nat)
    requires capacity >= 1 && Keys(s) == Take(Recent(uses), capacity)
    ensures op.Put? ==> Keys(Store(s, op.key, op.value, capacity)) == Take(Recent(uses + [op.key]), capacity)
    ensures op.Get? && Lookup(s, op.key).Some? ==> Keys(Touch(s, op.key)) == Take(Recent(uses + [op.key]), capacity)
  {
    RecentSnoc(uses, op.key);
    TakeFront(Recent(uses), op.key, capacity);
    if op.Put? {
      StoreKeys(s, op.key, op.value, capacity);
    } else if Lookup(s, op.key).Some? {
      TouchKeys(s, op.key);
    }
  }

  // --- what the cache reads -----------------------------------------------------------------

  /** A hit moves entries and changes no value. */
  lemma TouchReads<V>(s: Entries<V>, k: Key, j: Key)
    requires DistinctKeys(s)
    ensures Lookup(Touch(s, k), j) == Lookup(s, j) && DistinctKeys(Touch(s, k))
  {
    WithoutReads(s, k, j);
    if Lookup(s, k).Some? {
      FrontReads(Without(s, k), k, Lookup(s, k).value, j);
    }
  }

  lemma StoreDistinct<V>(s: Entries<V>, k: Key, v: V, capacity: nat)
    requires DistinctKeys(s)
    ensures DistinctKeys(Store(s, k, v, capacity))
  {
    WithoutReads(s, k, k);
    assert DistinctKeys([(k, v)] + Without(s, k));
  }

  /** The value of the last write of a key. */
  ghost function LastWritten<V>(ops: seq<Op<V>>, k: Key): Option<V> {
    if ops == [] then None
    else
      var op := ops[|ops| - 1];
      if op.Put? && op.key == k then Some(op.value) else LastWritten(ops[..|ops| - 1], k)
  }

  lemma {:induction false} KeptValues<V>(ops: seq<Op<V>>, capacity: nat, k: Key)
    requires capacity >= 1
    ensures DistinctKeys(After(ops, capacity)) && |After(ops, capacity)| <= capacity
    ensures Lookup(After(ops, capacity), k).Some? ==> Lookup(After(ops, capacity), k) == LastWritten(ops, k)
  {
    if ops != [] {
      var before, op := ops[..|ops| - 1], ops[|ops| - 1];
      var s := After(before, capacity);
      KeptValues(before, capacity, k);
      match op
      case Put(j, v) =>
        StoreReads(s, j, v, capacity, k);
        StoreDistinct(s, j, v, capacity);
      case Get(j) =>
        TouchReads(s, j, k);
        if Lookup(s, j).Some? { TouchKeys(s, j); }
    }
  }

  /** After any run of reads and writes a key reads as it was last written if it is among the capacity most recently
      used, and otherwise not at all. */
  lemma ReadsLastWritten<V>(ops: seq<Op<V>>, capacity: nat, k: Key)
    requires capacity >= 1
    ensures Lookup(After(ops, capacity), k) ==
            if k in Take(Recent(Uses(ops, capacity)), capacity) then LastWritten(ops, k) else None
  {
    HoldsTheMostRecent(ops, capacity);
    KeysWithout(After(ops, capacity), k);
    KeptValues(ops, capacity, k);
  }

  // --- nodes ------------------------------------------------------------------------------

  class Node<V(0)> {
    const key: Key
    var value: V
    var prev: Node?<V>
    var next: Node?<V>

    constructor (key: Key, value: V)
      ensures this.key == key && this.value == value
    {
      this.key, this.value, prev, next := key, value, null, null;
    }

    /** A sentinel's key and value are never looked at. */
    constructor Sentinel()
    {
      key, prev, next := "", null, null;
    }
  }

  lemma DistinctDrop<T>(s: seq<T>, i: nat)
    requires Distinct(s) && i < |s|
    ensures Distinct(s[..i] + s[i + 1..])
  {
  }

  ghost function Elements<T>(s: seq<T>): set<T> { set x | x in s }

  lemma FramedDrop<T>(first: T, s: seq<T>, last: T, i: nat)
    requires i < |s|
    ensures var t := [first] + s + [last];
            [first] + (s[..i] + s[i + 1..]) + [last] == t[..i + 1] + t[i + 2..]
  {
    var t := [first] + s + [last];
    assert t[..i + 1] == [first] + s[..i] && t[i + 2..] == s[i + 1..] + [last];
  }

  lemma DropOnce<T>(s: seq<T>, i: nat)
    requires Distinct(s) && i < |s|
    ensures Elements(s[..i] + s[i + 1..]) == Elements(s) - {s[i]}
  {
    var r := s[..i] + s[i + 1..];
    forall x | x in s && x != s[i] ensures x in r {
      var j :| 0 <= j < |s| && s[j] == x;
      assert r[if j < i then j else j - 1] == x;
    }
    forall j | 0 <= j < |r| ensures r[j] == s[if j < i then j else j + 1] {}
  }

  lemma DistinctInsert<T>(s: seq<T>, i: nat, x: T)
    requires Distinct(s) && i <= |s| && x !in s
    ensures Distinct(s[..i] + [x] + s[i..])
  {
    var r := s[..i] + [x] + s[i..];
    forall j | 0 <= j < |r| && j != i ensures r[j] == s[if j < i then j else j - 1] {}
  }

  /** Neighbours point at each other, and no node occurs twice. */
  ghost predicate Chain<V(0)>(nodes: seq<Node<V>>)
    reads nodes
  {
    Distinct(nodes) &&
    forall i {:trigger JoinedAt(nodes, i)} :: 0 <= i < |nodes| - 1 ==> JoinedAt(nodes, i)
  }

  ghost predicate JoinedAt<V(0)>(nodes: seq<Node<V>>, i: int)
    requires 0 <= i < |nodes| - 1
    reads nodes
  {
    nodes[i].next == nodes[i + 1] && nodes[i + 1].prev == nodes[i]
  }

  /** The entries of the inner nodes. */
  ghost function EntriesOf<V(0)>(inner: seq<Node<V>>): (s: Entries<V>)
    reads inner
    ensures |s| == |inner| && forall i :: 0 <= i < |s| ==> s[i] == (inner[i].key, inner[i].value)
  {
    seq(|inner|, i requires 0 <= i < |inner| reads inner => (inner[i].key, inner[i].value))
  }

  lemma EntriesFront<V(0)>(inner: seq<Node<V>>, i: nat)
    requires i < |inner|
    ensures var s := EntriesOf(inner);
      EntriesOf([inner[i]] + inner[..i] + inner[i + 1..]) == [s[i]] + (s[..i] + s[i + 1..])
  {
  }

  lemma EntriesCons<V(0)>(node: Node<V>, inner: seq<Node<V>>)
    ensures EntriesOf([node] + inner) == [(node.key, node.value)] + EntriesOf(inner)
  {
  }

  lemma EntriesDrop<V(0)>(inner: seq<Node<V>>, i: nat)
    requires i < |inner|
    ensures EntriesOf(inner[..i] + inner[i + 1..]) == EntriesOf(inner)[..i] + EntriesOf(inner)[i + 1..]
  {
  }

  /** The dictionary maps each listed node's key to it, and nothing else. */
  ghost predicate Indexes<V(0)>(cache: map<Key, Node<V>>, inner: seq<Node<V>>) {
    (forall i :: 0 <= i < |inner| ==> inner[i].key in cache && cache[inner[i].key] == inner[i]) &&
    forall k :: k in cache ==> cache[k] in inner && cache[k].key == k
  }

  lemma IndexesFront<V(0)>(cache: map<Key, Node<V>>, inner: seq<Node<V>>, i: nat)
    requires Indexes(cache, inner) && i < |inner|
    ensures Indexes(cache, [inner[i]] + inner[..i] + inner[i + 1..])
  {
    var moved := [inner[i]] + inner[..i] + inner[i + 1..];
    forall n | n in inner ensures n in moved {
      var j :| 0 <= j < |inner| && inner[j] == n;
      assert n == moved[if j == i then 0 else if j < i then j + 1 else j];
    }
    forall j | 0 <= j < |moved| ensures moved[j] in inner {}
  }

  lemma IndexesDrop<V(0)>(cache: map<Key, Node<V>>, inner: seq<Node<V>>, i: nat)
    requires Indexes(cache, inner) && Distinct(inner) && i < |inner|
    ensures Indexes(cache - {inner[i].key}, inner[..i] + inner[i + 1..])
  {
    var rest := inner[..i] + inner[i + 1..];
    forall j | 0 <= j < |rest| ensures rest[j] == inner[if j < i then j else j + 1] {}
    forall k | k in cache && k != inner[i].key ensures cache[k] in rest {
      var j :| 0 <= j < |inner| && inner[j] == cache[k];
      assert cache[k] == rest[if j < i then j else j - 1];
    }
  }

  lemma IndexesAdd<V(0)>(cache: map<Key, Node<V>>, inner: seq<Node<V>>, node: Node<V>)
    requires Indexes(cache, inner) && node.key !in cache
    ensures Indexes(cache[node.key := node], [node] + inner)
  {
    forall k | k in cache ensures cache[k] in [node] + inner {
      var j :| 0 <= j < |inner| && inner[j] == cache[k];
      assert ([node] + inner)[j + 1] == cache[k];
    }
  }

  lemma {:induction false} DistinctSize(keys: seq<Key>, s: set<Key>)
    requires Distinct(keys) && forall k :: k in s <==> k in keys
    ensures |s| == |keys|
  {
    if keys == [] {
      assert s == {};
    } else {
      var k := keys[0];
      forall j ensures j in s - {k} <==> j in keys[1..] {
        if j in keys[1..] {
          var i :| 0 <= i < |keys[1..]| && keys[1..][i] == j;
          assert keys[i + 1] == j && keys[0] != keys[i + 1];
        }
      }
      DistinctSize(keys[1..], s - {k});
    }
  }

  lemma KeyCount<V(0)>(cache: map<Key, Node<V>>, inner: seq<Node<V>>)
    requires Indexes(cache, inner) && Distinct(inner)
    ensures |cache| == |inner|
  {
    var keys := seq(|inner|, i requires 0 <= i < |inner| => inner[i].key);
    forall k | k in cache ensures k in keys {
      var i :| 0 <= i < |inner| && inner[i] == cache[k];
      assert keys[i] == k;
    }
    DistinctSize(keys, cache.Keys);
    assert |cache.Keys| == |cache|;
  }

  class SimpleLRU<V(0)> {
    const capacity: nat
    const head: Node<V>
    const tail: Node<V>
    var cache: map<Key, Node<V>>
    ghost var inner: seq<Node<V>>        // the entries' nodes, from the most recent on

    ghost function Nodes(): seq<Node<V>>
      reads this
    {
      [head] + inner + [tail]
    }

    ghost function Repr(): set<Node<V>>
      reads this
    {
      {head, tail} + Elements(inner)
    }

    /** A well-formed chain from head to tail, its inner nodes exactly the dictionary's. */
    ghost predicate ListValid()
      reads this, Repr()
    {
      Chain(Nodes()) && Indexes(cache, inner)
    }

    ghost predicate Valid()
      reads this, Repr()
    {
      ListValid() && |inner| <= capacity
    }

    ghost function Contents(): Entries<V>
      reads this, inner
    {
      EntriesOf(inner)
    }

    constructor (capacity: nat)
      ensures Valid() && Contents() == [] && this.capacity == capacity && fresh(Repr())
    {
      this.capacity := capacity;
      cache := map[];
      var h := new Node<V>.Sentinel();
      var t := new Node<V>.Sentinel();
      h.next := t;
      t.prev := h;
      head, tail := h, t;
      inner := [];
      new;
      assert JoinedAt(Nodes(), 0);
    }

    /** _unlink: the neighbours of the i-th entry join hands. */
    method Unlink(node: Node<V>, ghost i: nat)
      requires Chain(Nodes()) && i < |inner| && inner[i] == node
      modifies this`inner, Repr()
      ensures inner == old(inner)[..i] + old(inner)[i + 1..] && Chain(Nodes()) && Repr() == old(Repr()) - {node}
      ensures forall n :: n in old(Repr()) ==> n.value == old(n.value)
    {
      ghost var before := Nodes();
      assert before[i + 1] == node && JoinedAt(before, i) && JoinedAt(before, i + 1);
      assert node != before[0] && node != before[|inner| + 1];
      InnerDistinct();
      DropOnce(inner, i);
      node.prev.next := node.next;
      node.next.prev := node.prev;
      inner := inner[..i] + inner[i + 1..];
      DistinctDrop(before, i + 1);
      FramedDrop(head, old(inner), tail, i);
      forall j | 0 <= j < |Nodes()| - 1 ensures JoinedAt(Nodes(), j) {
        assert old(JoinedAt(before, j)) && old(JoinedAt(before, j + 1));
      }
    }

    /** _add_to_front: the slot just after head. */
    method AddToFront(node: Node<V>)
      requires Chain(Nodes()) && node !in Repr()
      modifies this`inner, Repr(), node
      ensures inner == [node] + old(inner) && Chain(Nodes()) && Repr() == old(Repr()) + {node}
      ensures forall n :: n in old(Repr()) || n == node ==> n.value == old(n.value)
    {
      ghost var before := Nodes();
      assert JoinedAt(before, 0);
      node.prev := head;
      node.next := head.next;
      head.next.prev := node;
      head.next := node;
      inner := [node] + inner;
      DistinctInsert(before, 1, node);
      assert Nodes() == before[..1] + [node] + before[1..];
      forall j | 0 <= j < |Nodes()| - 1 ensures JoinedAt(Nodes(), j) {
        assert j > 1 ==> old(JoinedAt(before, j - 1));
      }
    }

    /** _move_to_front */
    method MoveToFront(node: Node<V>, ghost i: nat)
      requires Chain(Nodes()) && i < |inner| && inner[i] == node
      modifies this`inner, Repr()
      ensures inner == [node] + old(inner)[..i] + old(inner)[i + 1..] && Chain(Nodes()) && Repr() == old(Repr())
      ensures forall n :: n in old(Repr()) ==> n.value == old(n.value)
    {
      ghost var before := Nodes();
      assert before[i + 1] == node;
      Unlink(node, i);
      assert Nodes() == before[..i + 1] + before[i + 2..];
      AddToFront(node);
    }

    /** The dictionary finds exactly the listed keys, each once. */
    lemma KeysListed(key: Key)
      requires ListValid()
      ensures DistinctKeys(Contents())
      ensures key !in cache ==> Without(Contents(), key) == Contents() && Lookup(Contents(), key) == None
    {
      var s := Contents();
      forall i, j | 0 <= i < j < |s| ensures s[i].0 != s[j].0 {
        assert Nodes()[i + 1] == inner[i] && Nodes()[j + 1] == inner[j];
      }
      if key !in cache {
        WithoutNone(s, key);
      }
    }

    /** A hit moves the entry to the front and returns its value; a miss changes nothing. */
    method Get(key: Key) returns (r: Option<V>)
      requires Valid()
      modifies this`inner, Repr()
      ensures Valid() && Repr() == old(Repr())
      ensures r == Lookup(old(Contents()), key) && Contents() == Touch(old(Contents()), key)
    {
      ghost var s := Contents();
      KeysListed(key);
      if key !in cache {
        return None;
      }
      var node := cache[key];
      ghost var i :| 0 <= i < |inner| && inner[i] == node;
      WithoutAt(s, i);
      Hit(node, i);
      return Some(node.value);
    }

    method Hit(node: Node<V>, ghost i: nat)
      requires ListValid() && i < |inner| && inner[i] == node
      modifies this`inner, Repr()
      ensures ListValid() && |inner| == |old(inner)|
      ensures Repr() <= old(Repr())
      ensures Contents() == [old(Contents())[i]] + (old(Contents())[..i] + old(Contents())[i + 1..])
      ensures node.value == old(node.value)
    {
      ghost var list, s := inner, Contents();
      IndexesFront(cache, list, i);
      MoveToFront(node, i);
      assert EntriesOf(list) == s by {
        forall j | 0 <= j < |list| ensures list[j].value == s[j].1 {
          assert list[j] in old(Repr());
        }
      }
      EntriesFront(list, i);
    }

    /** A write puts the entry first; one entry too many costs the least recently used. */
    method Put(key: Key, value: V)
      requires Valid()
      modifies this`inner, this`cache, Repr()
      ensures Valid() && Contents() == Store(old(Contents()), key, value, capacity)
      ensures fresh(Repr() - old(Repr()))
    {
      if key in cache {
        Overwrite(key, value);
      } else {
        Add(key, value);
      }
    }

    method Overwrite(key: Key, value: V)
      requires Valid() && key in cache
      modifies this`inner, Repr()
      ensures Valid() && Contents() == Store(old(Contents()), key, value, capacity)
      ensures Repr() <= old(Repr())
    {
      var node := cache[key];
      ghost var i :| 0 <= i < |inner| && inner[i] == node;
      KeysListed(key);
      WithoutAt(Contents(), i);
      SetValue(node, i, value);
      Hit(node, i);
    }

    method SetValue(node: Node<V>, ghost i: nat, value: V)
      requires ListValid() && i < |inner| && inner[i] == node
      modifies node`value
      ensures ListValid() && Contents() == old(Contents())[i := (node.key, value)]
    {
      ghost var s := Contents();
      InnerDistinct();
      node.value := value;
      forall j | 0 <= j < |Nodes()| - 1 ensures JoinedAt(Nodes(), j) {
        assert old(JoinedAt(Nodes(), j));
      }
      assert Contents() == s[i := (node.key, value)];
    }

    method Add(key: Key, value: V)
      requires Valid() && key !in cache
      modifies this`inner, this`cache, Repr()
      ensures Valid() && Contents() == Store(old(Contents()), key, value, capacity)
      ensures fresh(Repr() - old(Repr()))
    {
      KeysListed(key);
      StoreNew(Contents(), key, value, capacity);
      Insert(key, value);
      InnerDistinct();
      KeyCount(cache, inner);
      if |cache| > capacity {
        EvictLast();
      }
    }

    method Insert(key: Key, value: V)
      requires ListValid() && key !in cache
      modifies this`inner, this`cache, Repr()
      ensures ListValid() && |inner| == |old(inner)| + 1 && Contents() == [(key, value)] + old(Contents())
      ensures fresh(Repr() - old(Repr()))
    {
      ghost var list, s := inner, Contents();
      InnerInRepr();
      var node := new Node<V>(key, value);
      Enlist(node);
      assert EntriesOf(list) == s;
      EntriesCons(node, list);
    }

    /** Lists a new node and puts it in the dictionary. */
    method Enlist(node: Node<V>)
      requires ListValid() && node !in Repr() && node.key !in cache
      modifies this`inner, this`cache, Repr(), node
      ensures ListValid() && inner == [node] + old(inner) && Repr() == old(Repr()) + {node}
      ensures forall n :: n in old(Repr()) || n == node ==> n.value == old(n.value)
    {
      IndexesAdd(cache, inner, node);
      cache := cache[node.key := node];
      AddToFront(node);
    }

    method EvictLast()
      requires ListValid() && |inner| > 0
      modifies this`inner, this`cache, Repr()
      ensures ListValid() && inner == old(inner)[..|old(inner)| - 1]
      ensures Repr() <= old(Repr())
      ensures Contents() == old(Contents())[..|old(Contents())| - 1]
    {
      ghost var i := |inner| - 1;
      assert JoinedAt(Nodes(), i + 1) && Nodes()[i + 1] == inner[i];
      Drop(tail.prev, i);
    }

    /** Takes one node off the list and its key out of the dictionary. */
    method Drop(node: Node<V>, ghost i: nat)
      requires ListValid() && i < |inner| && inner[i] == node
      modifies this`inner, this`cache, Repr()
      ensures ListValid() && inner == old(inner)[..i] + old(inner)[i + 1..]
      ensures Repr() <= old(Repr())
      ensures Contents() == old(Contents())[..i] + old(Contents())[i + 1..]
    {
      ghost var list, s := inner, Contents();
      InnerDistinct();
      IndexesDrop(cache, list, i);
      Unlink(node, i);
      cache := cache - {node.key};
      assert Indexes(cache, inner);
      assert EntriesOf(list) == s by {
        forall j | 0 <= j < |list| ensures list[j].value == s[j].1 {
          assert list[j] in old(Repr());
        }
      }
      EntriesDrop(list, i);
    }

    /** _delete: forgets the key if it is there. */
    method Delete(key: Key)
      requires Valid()
      modifies this`inner, this`cache, Repr()
      ensures Valid() && Contents() == Without(old(Contents()), key)
      ensures Repr() <= old(Repr())
    {
      KeysListed(key);
      if key in cache {
        var node := cache[key];
        ghost var i :| 0 <= i < |inner| && inner[i] == node;
        WithoutAt(Contents(), i);
        Drop(node, i);
      }
    }

    lemma InnerInRepr()
      ensures forall j :: 0 <= j < |inner| ==> inner[j] in Repr()
    {
      forall j | 0 <= j < |inner| ensures inner[j] in Repr() {
        assert Nodes()[j + 1] == inner[j];
      }
    }

    lemma InnerDistinct()
      requires Chain(Nodes())
      ensures Distinct(inner)
    {
      forall i, j | 0 <= i < j < |inner| ensures inner[i] != inner[j] {
        assert Nodes()[i + 1] == inner[i] && Nodes()[j + 1] == inner[j];
      }
    }
  }

  // --- expiry -----------------------------------------------------------------------------

  datatype Timed<V> = Timed(value: V, expiresAt: Option<real>)

  predicate Expired<V>(entry: Timed<V>, now: real) {
    entry.expiresAt.Some? && now >= entry.expiresAt.value
  }

  function DeadlineOf(ttl: Option<real>, now: real): Option<real> {
    if ttl.Some? then Some(now + ttl.value) else None
  }

  /** What a read makes of what the cache holds. */
  function Unexpired<V>(entry: Option<Timed<V>>, now: real): Option<V> {
    if entry.Some? && !Expired(entry.value, now) then Some(entry.value.value) else None
  }

  /** A value put with a time to live is read back up to the reading at which that is over and not from then on, and one
      without for ever, as long as it is held; no other key is read otherwise than before, but for the one evicted. */
  lemma TimeToLive<V>(s: Entries<Timed<V>>, k: Key, v: V, ttl: Option<real>, now: real, later: real, capacity: nat,
                      j: Key)
    requires DistinctKeys(s) && |s| <= capacity && capacity >= 1
    ensures var s' := Store(s, k, Timed(v, DeadlineOf(ttl, now)), capacity);
            Unexpired(Lookup(s', k), later) ==
              (if ttl == None || later < now + ttl.value then Some(v) else None) &&
            (j != k && !(|s| == capacity && Lookup(s, k) == None && j == s[|s| - 1].0) ==>
              Unexpired(Lookup(s', j), later) == Unexpired(Lookup(s, j), later))
  {
    StoreReads(s, k, Timed(v, DeadlineOf(ttl, now)), capacity, j);
  }

  /** SimpleLRU over timed values, with expiry checked on reading. */
  class TTLLRU<V(0)> {
    const lru: SimpleLRU<Timed<V>>

    ghost predicate Valid()
      reads lru, lru.Repr()
    {
      lru.Valid()
    }

    constructor (capacity: nat)
      ensures Valid() && lru.Contents() == [] && lru.capacity == capacity && fresh(lru) && fresh(lru.Repr())
    {
      lru := new SimpleLRU<Timed<V>>(capacity);
    }

    method Put(key: Key, value: V, ttl: Option<real>, now: real)
      requires Valid()
      modifies lru, lru.Repr()
      ensures Valid()
      ensures lru.Contents() == Store(old(lru.Contents()), key,
        Timed(value, DeadlineOf(ttl, now)), lru.capacity)
    {
      lru.Put(key, Timed(value, DeadlineOf(ttl, now)));
    }

    /** A live entry is a hit; an expired one is a miss and is gone afterwards. */
    method Get(key: Key, now: real) returns (r: Option<V>)
      requires Valid()
      modifies lru, lru.Repr()
      ensures Valid()
      ensures r == Unexpired(Lookup(old(lru.Contents()), key), now)
      ensures lru.Contents() ==
        if r.Some? then Touch(old(lru.Contents()), key) else Without(old(lru.Contents()), key)
    {
      ghost var s := lru.Contents();
      WithoutTwice(s, key);
      var entry := lru.Get(key);
      if entry.None? {
        return None;
      }
      if Expired(entry.value, now) {
        lru.Delete(key);
        return None;
      }
      return Some(entry.value.value);
    }
  }

  /** Forgetting a key just moved to the front leaves what forgetting it at once would. */
  lemma {:induction false} WithoutTwice<V>(s: Entries<V>, k: Key)
    ensures Without(Touch(s, k), k) == Without(s, k)
    ensures Lookup(s, k) == None ==> Without(s, k) == s
  {
    if s != [] && s[0].0 != k {
      WithoutTwice(s[1..], k);
    }
    assert Lookup(s, k).Some? ==> Touch(s, k)[1..] == Without(s, k);
  }
}
