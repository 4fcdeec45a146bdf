/**
 The bounded blocking queue as a step system: any number of producers and consumers, one
 transition per stretch of code run under the lock, between two waits.
 */
module BlockingQueue {
  import opened Basics
  import opened Counting

  type Thread = nat

  /** Trying: wants the lock, to test the bound. Asleep: in wait(), not notified.
      Woken: notified, or woken for no reason, and wants the lock back to test again. */
  datatype PC<T> =
    | Idle
    | PutTrying(item: T) | PutAsleep(item: T) | PutWoken(item: T)
    | GetTrying | GetAsleep | GetWoken

  datatype State<T> = State(
    capacity: int, items: seq<T>, pc: map<Thread, PC<T>>,
    entered: seq<T>, left: seq<T>,            // all items ever appended, all ever taken out
    got: map<Thread, T>)                      // what each thread's last dequeue returned

  predicate PutSleeper<T>(p: PC<T>) { p.PutAsleep? }
  predicate GetSleeper<T>(p: PC<T>) { p.GetAsleep? }
  predicate PutWaker<T>(p: PC<T>) { p.PutWoken? }
  predicate GetWaker<T>(p: PC<T>) { p.GetWoken? }

  /** notify(): some sleeper of the other side wakes, whichever it is; without sleepers nothing happens. */
  ghost predicate NotifyGetter<T(!new)>(pc: map<Thread, PC<T>>, pc': map<Thread, PC<T>>) {
    if exists u :: u in pc && pc[u].GetAsleep?
    then exists u :: u in pc && pc[u].GetAsleep? && pc' == pc[u := GetWoken]
    else pc' == pc
  }

  ghost predicate NotifyPutter<T(!new)>(pc: map<Thread, PC<T>>, pc': map<Thread, PC<T>>) {
    if exists u :: u in pc && pc[u].PutAsleep?
    then exists u :: u in pc && pc[u].PutAsleep? && pc' == pc[u := PutWoken(pc[u].item)]
    else pc' == pc
  }

  /** Entering enqueue with an item, or dequeue. */
  ghost predicate CallPut<T>(s: State<T>, s': State<T>, t: Thread, item: T) {
    t in s.pc && s.pc[t].Idle? && s' == s.(pc := s.pc[t := PutTrying(item)])
  }

  ghost predicate CallGet<T>(s: State<T>, s': State<T>, t: Thread) {
    t in s.pc && s.pc[t].Idle? && s' == s.(pc := s.pc[t := GetTrying])
  }

  /** enqueue's body under the lock: sleep when full, otherwise append, notify and return. */
  ghost predicate Put<T(!new)>(s: State<T>, s': State<T>, t: Thread) {
    t in s.pc && (s.pc[t].PutTrying? || s.pc[t].PutWoken?) &&
    var item := s.pc[t].item;
    if |s.items| >= s.capacity then s' == s.(pc := s.pc[t := PutAsleep(item)])
    else
      NotifyGetter(s.pc[t := Idle], s'.pc) &&
      s' == s.(items := s.items + [item], entered := s.entered + [item], pc := s'.pc)
  }

  /** dequeue's body under the lock: sleep when empty, otherwise pop, notify and return. */
  ghost predicate Get<T(!new)>(s: State<T>, s': State<T>, t: Thread) {
    t in s.pc && (s.pc[t].GetTrying? || s.pc[t].GetWoken?) &&
    if s.items == [] then s' == s.(pc := s.pc[t := GetAsleep])
    else
      NotifyPutter(s.pc[t := Idle], s'.pc) &&
      s' == s.(items := s.items[1..], left := s.left + [s.items[0]], got := s.got[t := s.items[0]], pc := s'.pc)
  }

  /** wait() may return unprompted. */
  ghost predicate SpuriousWake<T>(s: State<T>, s': State<T>, t: Thread) {
    t in s.pc &&
    ((s.pc[t].PutAsleep? && s' == s.(pc := s.pc[t := PutWoken(s.pc[t].item)])) ||
     (s.pc[t].GetAsleep? && s' == s.(pc := s.pc[t := GetWoken])))
  }

  ghost predicate StepBy<T(!new)>(s: State<T>, s': State<T>, t: Thread) {
    (exists item :: CallPut(s, s', t, item)) || CallGet(s, s', t) || Put(s, s', t) || Get(s, s', t) ||
    SpuriousWake(s, s', t)
  }

  ghost predicate Step<T(!new)>(s: State<T>, s': State<T>) { exists t :: StepBy(s, s', t) }

  ghost predicate Init<T>(s: State<T>) {
    s.items == s.entered == s.left == [] && s.got == map[] && s.capacity >= 0 &&
    forall t :: t in s.pc ==> s.pc[t] == Idle
  }

  ghost predicate Run<T(!new)>(r: seq<State<T>>) {
    |r| > 0 && Init(r[0]) && forall i: nat {:trigger StepAfter(r, i)} :: i + 1 < |r| ==> StepAfter(r, i)
  }

  ghost predicate StepAfter<T(!new)>(r: seq<State<T>>, i: nat)
    requires i + 1 < |r|
  {
    Step(r[i], r[i + 1])
  }

  /** Nobody sleeps through an item or a slot meant for him, the bound holds, and order is kept. */
  ghost predicate Inv<T>(s: State<T>) {
    (Count(s.pc, GetSleeper) > 0 ==> |s.items| <= Count(s.pc, GetWaker)) &&
    (Count(s.pc, PutSleeper) > 0 ==> s.capacity - |s.items| <= Count(s.pc, PutWaker)) &&
    |s.items| <= s.capacity &&
    s.entered == s.left + s.items
  }

  lemma Move<T>(pc: map<Thread, PC<T>>, t: Thread, q: PC<T>)
    requires t in pc
    ensures Count(pc[t := q], GetSleeper) == Count(pc, GetSleeper) - One(pc[t].GetAsleep?) + One(q.GetAsleep?)
    ensures Count(pc[t := q], GetWaker) == Count(pc, GetWaker) - One(pc[t].GetWoken?) + One(q.GetWoken?)
    ensures Count(pc[t := q], PutSleeper) == Count(pc, PutSleeper) - One(pc[t].PutAsleep?) + One(q.PutAsleep?)
    ensures Count(pc[t := q], PutWaker) == Count(pc, PutWaker) - One(pc[t].PutWoken?) + One(q.PutWoken?)
  {
    CountUpdate(pc, t, q, GetSleeper);
    CountUpdate(pc, t, q, GetWaker);
    CountUpdate(pc, t, q, PutSleeper);
    CountUpdate(pc, t, q, PutWaker);
  }

  /** After a notify, one sleeper fewer and one woken thread more, or there were no sleepers. */
  lemma NotifiedGetter<T(!new)>(pc: map<Thread, PC<T>>, pc': map<Thread, PC<T>>)
    requires NotifyGetter(pc, pc')
    ensures Count(pc', PutSleeper) == Count(pc, PutSleeper) && Count(pc', PutWaker) == Count(pc, PutWaker)
    ensures Count(pc', GetSleeper) > 0 ==> Count(pc', GetWaker) == Count(pc, GetWaker) + 1
    ensures Count(pc', GetSleeper) == 0 || Count(pc, GetSleeper) > 0
  {
    if u :| u in pc && pc[u].GetAsleep? && pc' == pc[u := GetWoken] {
      CountPositive(pc, u, GetSleeper);
      Move(pc, u, GetWoken);
    } else if Count(pc, GetSleeper) > 0 {
      var u := CountWitness(pc, GetSleeper);
    }
  }

  lemma NotifiedPutter<T(!new)>(pc: map<Thread, PC<T>>, pc': map<Thread, PC<T>>)
    requires NotifyPutter(pc, pc')
    ensures Count(pc', GetSleeper) == Count(pc, GetSleeper) && Count(pc', GetWaker) == Count(pc, GetWaker)
    ensures Count(pc', PutSleeper) > 0 ==> Count(pc', PutWaker) == Count(pc, PutWaker) + 1
    ensures Count(pc', PutSleeper) == 0 || Count(pc, PutSleeper) > 0
  {
    if u :| u in pc && pc[u].PutAsleep? && pc' == pc[u := PutWoken(pc[u].item)] {
      CountPositive(pc, u, PutSleeper);
      Move(pc, u, PutWoken(pc[u].item));
    } else if Count(pc, PutSleeper) > 0 {
      var u := CountWitness(pc, PutSleeper);
    }
  }

  lemma PutInv<T(!new)>(s: State<T>, s': State<T>, t: Thread)
    requires Inv(s) && Put(s, s', t)
    ensures Inv(s')
  {
    if |s.items| >= s.capacity {
      Move(s.pc, t, PutAsleep(s.pc[t].item));
    } else {
      Move(s.pc, t, Idle);
      NotifiedGetter(s.pc[t := Idle], s'.pc);
    }
  }

  lemma GetInv<T(!new)>(s: State<T>, s': State<T>, t: Thread)
    requires Inv(s) && Get(s, s', t)
    ensures Inv(s')
  {
    if s.items == [] {
      Move(s.pc, t, GetAsleep);
    } else {
      Move(s.pc, t, Idle);
      NotifiedPutter(s.pc[t := Idle], s'.pc);
      assert s.items == [s.items[0]] + s.items[1..];
    }
  }

  lemma StepInv<T(!new)>(s: State<T>, s': State<T>, t: Thread)
    requires Inv(s) && StepBy(s, s', t)
    ensures Inv(s')
  {
    if Put(s, s', t) {
      PutInv(s, s', t);
    } else if Get(s, s', t) {
      GetInv(s, s', t);
    } else {
      Move(s.pc, t, s'.pc[t]);
    }
  }

  lemma {:induction false} RunInv<T(!new)>(r: seq<State<T>>, i: nat)
    requires Run(r) && i < |r|
    ensures Inv(r[i])
  {
    if i == 0 {
      assert Where(r[0].pc, GetSleeper) == {} == Where(r[0].pc, PutSleeper);
    } else {
      RunInv(r, i - 1);
      assert StepAfter(r, i - 1);
      var t :| StepBy(r[i - 1], r[i], t);
      StepInv(r[i - 1], r[i], t);
    }
  }

  /** No wakeup is lost: whenever a consumer sleeps while items wait, each item has a woken
      consumer coming for it, and dually for producers and free slots. */
  lemma NoLostWakeup<T(!new)>(r: seq<State<T>>, i: nat)
    requires Run(r) && i < |r|
    ensures Count(r[i].pc, GetSleeper) > 0 ==> |r[i].items| <= Count(r[i].pc, GetWaker)
    ensures Count(r[i].pc, PutSleeper) > 0 ==> r[i].capacity - |r[i].items| <= Count(r[i].pc, PutWaker)
  {
    RunInv(r, i);
  }

  /** The queue never overfills, and what came out is the first part of what went in, in order. */
  lemma BoundedFifo<T(!new)>(r: seq<State<T>>, i: nat)
    requires Run(r) && i < |r|
    ensures |r[i].items| <= r[i].capacity == r[0].capacity
    ensures r[i].entered == r[i].left + r[i].items
  {
    RunInv(r, i);
    SameCapacity(r, i);
  }

  lemma {:induction false} SameCapacity<T(!new)>(r: seq<State<T>>, i: nat)
    requires Run(r) && i < |r|
    ensures r[i].capacity == r[0].capacity
  {
    if i > 0 {
      SameCapacity(r, i - 1);
      assert StepAfter(r, i - 1);
    }
  }

  // --- each call: what it puts, what it gets ----------------------------------------------------

  predicate Putting<T>(p: PC<T>) { p.PutTrying? || p.PutAsleep? || p.PutWoken? }
  predicate Getting<T>(p: PC<T>) { p.GetTrying? || p.GetAsleep? || p.GetWoken? }

  /** Until it is over, a call to enqueue keeps its item, and a call to dequeue stays one. What another thread does
      touches at most who is awake. */
  lemma StepKeepsCall<T(!new)>(s: State<T>, s': State<T>, u: Thread, t: Thread)
    requires StepBy(s, s', u) && t in s.pc && t in s'.pc && !s.pc[t].Idle? && !s'.pc[t].Idle?
    ensures Putting(s'.pc[t]) <==> Putting(s.pc[t])
    ensures Putting(s.pc[t]) ==> s'.pc[t].item == s.pc[t].item
  {
  }

  /** A call ends by its own step. */
  lemma EndsByOwnStep<T(!new)>(s: State<T>, s': State<T>, u: Thread, t: Thread)
    requires StepBy(s, s', u) && t in s.pc && t in s'.pc && !s.pc[t].Idle? && s'.pc[t].Idle?
    ensures Putting(s.pc[t]) ==> s'.entered == s.entered + [s.pc[t].item] && s'.left == s.left
    ensures Getting(s.pc[t]) ==>
      s.items != [] && s'.left == s.left + [s.items[0]] && s'.entered == s.entered &&
      t in s'.got && s'.got[t] == s.items[0]
  {
  }

  /** Nothing enters or leaves but by the step that ends a call. */
  lemma ItemsMoveByCalls<T(!new)>(s: State<T>, s': State<T>, u: Thread)
    requires StepBy(s, s', u) && u in s'.pc
    ensures s'.entered != s.entered ==> Putting(s.pc[u]) && s'.pc[u].Idle?
    ensures s'.left != s.left ==> Getting(s.pc[u]) && s'.pc[u].Idle?
  {
  }

  lemma {:induction false} CallIsKept<T(!new)>(r: seq<State<T>>, i: nat, j: nat, t: Thread)
    requires Run(r) && i <= j < |r| && forall k :: i <= k <= j ==> t in r[k].pc && !r[k].pc[t].Idle?
    ensures Putting(r[j].pc[t]) <==> Putting(r[i].pc[t])
    ensures Putting(r[i].pc[t]) ==> r[j].pc[t].item == r[i].pc[t].item
    decreases j
  {
    if i < j {
      CallIsKept(r, i, j - 1, t);
      assert StepAfter(r, j - 1);
      var u :| StepBy(r[j - 1], r[j], u);
      StepKeepsCall(r[j - 1], r[j], u, t);
    }
  }

  /** However long it waits, a call of enqueue appends its own item, in the step that ends it. */
  lemma EnqueuePutsItsItem<T(!new)>(r: seq<State<T>>, i: nat, j: nat, t: Thread, item: T)
    requires Run(r) && i < j && j + 1 < |r| && CallPut(r[i], r[i + 1], t, item)
    requires forall k :: i < k <= j ==> t in r[k].pc && !r[k].pc[t].Idle?
    requires t in r[j + 1].pc && r[j + 1].pc[t].Idle?
    ensures r[j + 1].entered == r[j].entered + [item] && r[j + 1].left == r[j].left
  {
    CallIsKept(r, i + 1, j, t);
    assert StepAfter(r, j);
    var u :| StepBy(r[j], r[j + 1], u);
    EndsByOwnStep(r[j], r[j + 1], u, t);
  }

  /** A call of dequeue returns the first item that had entered and not yet left, in the step that ends it. */
  lemma DequeueGetsTheFirst<T(!new)>(r: seq<State<T>>, i: nat, j: nat, t: Thread)
    requires Run(r) && i < j && j + 1 < |r| && CallGet(r[i], r[i + 1], t)
    requires forall k :: i < k <= j ==> t in r[k].pc && !r[k].pc[t].Idle?
    requires t in r[j + 1].pc && r[j + 1].pc[t].Idle?
    ensures |r[j].left| < |r[j].entered| && t in r[j + 1].got && r[j + 1].got[t] == r[j].entered[|r[j].left|]
    ensures r[j + 1].left == r[j].left + [r[j + 1].got[t]] && r[j + 1].entered == r[j].entered
  {
    CallIsKept(r, i + 1, j, t);
    RunInv(r, j);
    assert StepAfter(r, j);
    var u :| StepBy(r[j], r[j + 1], u);
    EndsByOwnStep(r[j], r[j + 1], u, t);
  }

  /** What a dequeue returned stays what it returned while its thread makes no other. */
  lemma OthersKeepGot<T(!new)>(s: State<T>, s': State<T>, u: Thread, t: Thread)
    requires StepBy(s, s', u) && (u != t || !Get(s, s', u))
    ensures t in s.got ==> t in s'.got && s'.got[t] == s.got[t]
  {
  }

  /** Whoever is outside can put any item, or get. */
  lemma CallsAreOpen<T(!new)>(s: State<T>, t: Thread, item: T)
    requires t in s.pc && s.pc[t].Idle?
    ensures (exists s' :: CallPut(s, s', t, item)) && exists s' :: CallGet(s, s', t)
  {
    assert CallPut(s, s.(pc := s.pc[t := PutTrying(item)]), t, item);
    assert CallGet(s, s.(pc := s.pc[t := GetTrying]), t);
  }

  /** t can run its loop body now: it will finish its call, or sleep because the bound holds it back. */
  predicate Runnable<T>(s: State<T>, t: Thread) {
    t in s.pc && !s.pc[t].Idle? && !s.pc[t].PutAsleep? && !s.pc[t].GetAsleep?
  }

  lemma SomeNotified<T(!new)>(pc: map<Thread, PC<T>>)
    ensures (exists pc' :: NotifyGetter(pc, pc')) && exists pc' :: NotifyPutter(pc, pc')
  {
    if u :| u in pc && pc[u].GetAsleep? {
      assert NotifyGetter(pc, pc[u := GetWoken]);
    } else {
      assert NotifyGetter(pc, pc);
    }
    if u :| u in pc && pc[u].PutAsleep? {
      assert NotifyPutter(pc, pc[u := PutWoken(pc[u].item)]);
    } else {
      assert NotifyPutter(pc, pc);
    }
  }

  /** A runnable thread has its step, and it ends the call exactly when there is room, or an item. */
  lemma RunnableSteps<T(!new)>(s: State<T>, t: Thread)
    requires Runnable(s, t)
    ensures exists s' :: Put(s, s', t) || Get(s, s', t)
    ensures forall s' :: Put(s, s', t) || Get(s, s', t) ==>
      t in s'.pc && (s'.pc[t].Idle? <==> if Putting(s.pc[t]) then |s.items| < s.capacity else s.items != [])
  {
    SomeNotified(s.pc[t := Idle]);
    if Putting(s.pc[t]) {
      if |s.items| >= s.capacity {
        assert Put(s, s.(pc := s.pc[t := PutAsleep(s.pc[t].item)]), t);
      } else {
        var pc' :| NotifyGetter(s.pc[t := Idle], pc');
        var item := s.pc[t].item;
        assert Put(s, s.(items := s.items + [item], entered := s.entered + [item], pc := pc'), t);
      }
    } else if s.items == [] {
      assert Get(s, s.(pc := s.pc[t := GetAsleep]), t);
    } else {
      var pc' :| NotifyPutter(s.pc[t := Idle], pc');
      assert Get(s, s.(items := s.items[1..], left := s.left + [s.items[0]], got := s.got[t := s.items[0]],
                       pc := pc'), t);
    }
  }

  /** A thread in a call can be left with nobody runnable only when waiting is right: every
      caller is a consumer and the queue is empty, or every caller is a producer and it is full. */
  lemma StuckOnlyRightly<T(!new)>(r: seq<State<T>>, i: nat, t: Thread)
    requires Run(r) && i < |r| && r[0].capacity >= 1
    requires t in r[i].pc && !r[i].pc[t].Idle? && forall u :: !Runnable(r[i], u)
    ensures r[i].pc[t].GetAsleep? ==>
      (r[i].items == [] && forall u :: u in r[i].pc ==> r[i].pc[u].Idle? || r[i].pc[u].GetAsleep?)
    ensures !r[i].pc[t].GetAsleep? ==>
      (|r[i].items| == r[i].capacity && forall u :: u in r[i].pc ==> r[i].pc[u].Idle? || r[i].pc[u].PutAsleep?)
  {
    RunInv(r, i);
    SameCapacity(r, i);
    var s := r[i];
    if Count(s.pc, GetWaker) > 0 {
      var u := CountWitness(s.pc, GetWaker);
      assert Runnable(s, u);
    }
    if Count(s.pc, PutWaker) > 0 {
      var u := CountWitness(s.pc, PutWaker);
      assert Runnable(s, u);
    }
    forall u | u in s.pc
      ensures s.pc[u].GetAsleep? ==> s.items == []
      ensures s.pc[u].PutAsleep? ==> |s.items| == s.capacity
    {
      if s.pc[u].GetAsleep? { CountPositive(s.pc, u, GetSleeper); }
      if s.pc[u].PutAsleep? { CountPositive(s.pc, u, PutSleeper); }
    }
    assert !Runnable(s, t);
    forall u | u in s.pc ensures s.pc[u].Idle? || s.pc[u].GetAsleep? || s.pc[u].PutAsleep? {
      assert !Runnable(s, u);
    }
  }
}
