/**
 The group-commit logger as a step system: any number of appenders and closers and the one
 flusher thread, one transition per stretch of code run under the condition's lock.
 */
module EventLogger {

  type Thread = nat

  /** The flusher: about to test its wait condition, asleep in it, lingering before a flush, or
      gone, with the number of events there were when it left. */
  datatype Flusher = Testing | FlusherAsleep | Lingering | Exited(at: nat)

  /** A caller. A waiting appender knows its sequence number (and here its event). */
  datatype PC = Idle | Awake(seqNo: nat, event: string) | Asleep(seqNo: nat, event: string) | Joining

  datatype Sink = Sink(records: seq<string>, durableUpto: nat, fsyncs: nat)

  datatype State = State(
    buffer: seq<string>, nextSeq: nat, durableSeq: nat, closed: bool,
    flusher: Flusher, sink: Sink, pc: map<Thread, PC>,
    events: seq<string>)                       // every event ever appended, in sequence order

  function Durable(k: Sink): seq<string>
    requires k.durableUpto <= |k.records|
  {
    k.records[..k.durableUpto]
  }

  /** Writing a batch and fsyncing once. */
  function WriteAndSync(k: Sink, batch: seq<string>): Sink {
    Sink(k.records + batch, |k.records + batch|, k.fsyncs + 1)
  }

  /** notify_all: every sleeper, the flusher included, will test its condition again. */
  function WakeAll(pc: map<Thread, PC>): map<Thread, PC> {
    map t | t in pc :: if pc[t].Asleep? then Awake(pc[t].seqNo, pc[t].event) else pc[t]
  }

  function WakeFlusher(f: Flusher): Flusher { if f.FlusherAsleep? then Testing else f }

  /** append up to its first wait: take a number, buffer the event, wake everybody, go to sleep. */
  predicate Append(s: State, s': State, t: Thread, event: string) {
    t in s.pc && s.pc[t].Idle? &&
    s' == s.(nextSeq := s.nextSeq + 1, buffer := s.buffer + [event], events := s.events + [event],
             flusher := WakeFlusher(s.flusher),
             pc := WakeAll(s.pc)[t := if s.durableSeq <= s.nextSeq then Asleep(s.nextSeq, event) else Idle])
  }

  /** append's loop test after a wake: return when the watermark has passed its number. */
  predicate Retest(s: State, s': State, t: Thread) {
    t in s.pc && s.pc[t].Awake? &&
    s' == s.(pc := s.pc[t := if s.durableSeq <= s.pc[t].seqNo then Asleep(s.pc[t].seqNo, s.pc[t].event) else Idle])
  }

  predicate Close(s: State, s': State, t: Thread) {
    t in s.pc && s.pc[t].Idle? &&
    s' == s.(closed := true, flusher := WakeFlusher(s.flusher), pc := WakeAll(s.pc)[t := Joining])
  }

  predicate Joined(s: State, s': State, t: Thread) {
    t in s.pc && s.pc[t].Joining? && s.flusher.Exited? && s' == s.(pc := s.pc[t := Idle])
  }

  /** The flusher's first block: wait for work, leave when closed and drained, or go on to linger. */
  predicate FlusherTest(s: State, s': State) {
    s.flusher.Testing? &&
    s' == s.(flusher :=
      if s.buffer == [] && !s.closed then FlusherAsleep
      else if s.closed && s.buffer == [] then Exited(s.nextSeq)
      else Lingering)
  }

  /** The flusher's second block: one fsync for everything buffered, then wake every appender. */
  predicate Flush(s: State, s': State) {
    s.flusher.Lingering? && s' == Flushed(s)
  }

  function Flushed(s: State): State {
    if s.buffer == [] then s.(flusher := Testing) else
      s.(flusher := Testing, buffer := [], sink := WriteAndSync(s.sink, s.buffer),
         durableSeq := s.nextSeq, pc := WakeAll(s.pc))
  }

  predicate SpuriousWake(s: State, s': State, t: Thread) {
    (t in s.pc && s.pc[t].Asleep? && s' == s.(pc := s.pc[t := Awake(s.pc[t].seqNo, s.pc[t].event)])) ||
    (s.flusher.FlusherAsleep? && s' == s.(flusher := Testing))
  }

  ghost predicate StepBy(s: State, s': State, t: Thread) {
    (exists event :: Append(s, s', t, event)) || Retest(s, s', t) || Close(s, s', t) || Joined(s, s', t) ||
    FlusherTest(s, s') || Flush(s, s') || SpuriousWake(s, s', t)
  }

  ghost predicate Step(s: State, s': State) { exists t :: StepBy(s, s', t) }

  ghost predicate Init(s: State) {
    s.buffer == s.events == [] && s.nextSeq == s.durableSeq == 0 && !s.closed && s.flusher == Testing &&
    s.sink == Sink([], 0, 0) && forall t :: t in s.pc ==> s.pc[t] == Idle
  }

  ghost predicate Run(r: seq<State>) {
    |r| > 0 && Init(r[0]) && forall i: nat {:trigger StepAfter(r, i)} :: i + 1 < |r| ==> StepAfter(r, i)
  }

  ghost predicate StepAfter(r: seq<State>, i: nat)
    requires i + 1 < |r|
  {
    Step(r[i], r[i + 1])
  }

  // --- the invariant ----------------------------------------------------------------------

  /** The log: numbers, buffer and stable storage divide one event sequence at the watermark. */
  predicate LogInv(s: State) {
    s.durableSeq <= |s.events| == s.nextSeq &&
    s.buffer == s.events[s.durableSeq..] &&
    s.sink.records == s.events[..s.durableSeq] && s.sink.durableUpto == |s.sink.records| &&
    s.sink.fsyncs <= s.durableSeq &&
    (s.flusher.FlusherAsleep? ==> s.buffer == [] && !s.closed) &&
    (s.flusher.Exited? ==> s.closed && s.durableSeq == s.flusher.at)
  }

  /** A waiting appender: its number names its event, and it sleeps only while that is not durable. */
  predicate WaitInv(s: State, t: Thread)
    requires t in s.pc
  {
    match s.pc[t]
    case Awake(n, e) => n < |s.events| && s.events[n] == e
    case Asleep(n, e) => s.durableSeq <= n < |s.events| && s.events[n] == e
    case Joining => s.closed
    case Idle => true
  }

  ghost predicate Inv(s: State) {
    LogInv(s) && forall t {:trigger WaitInv(s, t)} :: t in s.pc ==> WaitInv(s, t)
  }

  lemma StepLog(s: State, s': State, t: Thread)
    requires LogInv(s) && StepBy(s, s', t)
    ensures LogInv(s') && s.durableSeq <= s'.durableSeq && s.events <= s'.events
  {
    if Flush(s, s') {
      assert s.events[..s.durableSeq] + s.events[s.durableSeq..] == s.events;
    }
  }

  lemma StepInv(s: State, s': State, t: Thread)
    requires Inv(s) && StepBy(s, s', t)
    ensures Inv(s')
  {
    StepLog(s, s', t);
    forall u | u in s'.pc ensures WaitInv(s', u) {
      StepWait(s, s', t, u);
    }
  }

  lemma StepWait(s: State, s': State, t: Thread, u: Thread)
    requires LogInv(s) && LogInv(s') && StepBy(s, s', t) && s.events <= s'.events && u in s'.pc
    requires u in s.pc ==> WaitInv(s, u)
    ensures WaitInv(s', u)
  {
    assert u in s.pc;
  }

  lemma {:induction false} RunInv(r: seq<State>, i: nat)
    requires Run(r) && i < |r|
    ensures Inv(r[i])
  {
    if i > 0 {
      RunInv(r, i - 1);
      assert StepAfter(r, i - 1);
      var t :| StepBy(r[i - 1], r[i], t);
      StepInv(r[i - 1], r[i], t);
    } else {
      forall t | t in r[0].pc ensures WaitInv(r[0], t) {}
    }
  }

  // --- what the logger promises -----------------------------------------------------------

  /** At every instant stable storage holds exactly the first durableSeq events, in order, the
      rest are buffered, and there were no more fsyncs than events. */
  lemma DurablePrefix(r: seq<State>, i: nat)
    requires Run(r) && i < |r|
    ensures var s := r[i];
      && s.sink.durableUpto <= |s.sink.records|
      && s.durableSeq <= |s.events| && Durable(s.sink) == s.events[..s.durableSeq]
      && s.nextSeq == s.durableSeq + |s.buffer| == |s.events|
      && s.sink.fsyncs <= |s.events|
  {
    RunInv(r, i);
  }

  lemma {:induction false} Later(r: seq<State>, i: nat, j: nat)
    requires Run(r) && i <= j < |r|
    ensures r[i].durableSeq <= r[j].durableSeq && r[i].events <= r[j].events
    decreases j
  {
    RunInv(r, j);
    if i < j {
      Later(r, i, j - 1);
      RunInv(r, j - 1);
      assert StepAfter(r, j - 1);
      var t :| StepBy(r[j - 1], r[j], t);
      StepLog(r[j - 1], r[j], t);
    }
  }

  /** What is once durable stays durable. */
  lemma DurableForever(r: seq<State>, i: nat, j: nat)
    requires Run(r) && i <= j < |r|
    ensures r[i].sink.durableUpto <= |r[i].sink.records| && r[j].sink.durableUpto <= |r[j].sink.records|
    ensures Durable(r[i].sink) <= Durable(r[j].sink)
  {
    DurablePrefix(r, i);
    DurablePrefix(r, j);
    Later(r, i, j);
  }

  /** The flusher leaves only once closed, with nothing buffered: everything then appended is durable. */
  lemma ExitsDrained(r: seq<State>, i: nat)
    requires Run(r) && i + 1 < |r| && !r[i].flusher.Exited? && r[i + 1].flusher.Exited?
    ensures r[i].closed && r[i + 1].buffer == [] && r[i + 1].durableSeq == |r[i + 1].events|
  {
    RunInv(r, i + 1);
    assert StepAfter(r, i);
  }

  /** A flush makes everything appended so far durable by one fsync, and leaves nobody asleep. */
  lemma FlushTakesAll(r: seq<State>, i: nat)
    requires Run(r) && i + 1 < |r| && Flush(r[i], r[i + 1])
    ensures var (s, s') := (r[i], r[i + 1]);
      && s'.sink.durableUpto <= |s'.sink.records|
      && s'.events == s.events == Durable(s'.sink)
      && s'.sink.fsyncs == s.sink.fsyncs + (if s.buffer == [] then 0 else 1)
      && forall t :: t in s'.pc ==> !s'.pc[t].Asleep?
  {
    DurablePrefix(r, i + 1);
    RunInv(r, i);
    RunInv(r, i + 1);
    var s' := r[i + 1];
    forall t | t in s'.pc ensures !s'.pc[t].Asleep? {
      assert WaitInv(s', t);
    }
  }

  /** Whoever is outside can append any event, or close. */
  lemma CallsAreOpen(s: State, t: Thread, event: string)
    requires t in s.pc && s.pc[t].Idle?
    ensures (exists s' :: Append(s, s', t, event)) && exists s' :: Close(s, s', t)
  {
    assert Append(s, s.(nextSeq := s.nextSeq + 1, buffer := s.buffer + [event], events := s.events + [event],
      flusher := WakeFlusher(s.flusher),
      pc := WakeAll(s.pc)[t := if s.durableSeq <= s.nextSeq then Asleep(s.nextSeq, event) else Idle]), t, event);
    assert Close(s, s.(closed := true, flusher := WakeFlusher(s.flusher), pc := WakeAll(s.pc)[t := Joining]), t);
  }

  /** Somebody in the middle of a call, or the flusher, can take a step. */
  ghost predicate SomeoneCanStep(s: State) {
    s.flusher.Testing? || s.flusher.Lingering? ||
    exists t :: t in s.pc && (s.pc[t].Awake? || (s.pc[t].Joining? && s.flusher.Exited?))
  }

  /** A step that neither begins a call nor wakes anybody for no reason. */
  predicate MovesOn(s: State, s': State, t: Thread) {
    Retest(s, s', t) || Joined(s, s', t) || FlusherTest(s, s') || Flush(s, s')
  }

  lemma CanStepMeans(s: State)
    ensures SomeoneCanStep(s) <==> exists s', t :: MovesOn(s, s', t)
  {
    var tested := s.(flusher :=
      if s.buffer == [] && !s.closed then FlusherAsleep
      else if s.closed && s.buffer == [] then Exited(s.nextSeq) else Lingering);
    if s.flusher.Testing? {
      assert MovesOn(s, tested, 0);
    } else if s.flusher.Lingering? {
      assert MovesOn(s, Flushed(s), 0);
    } else if t :| t in s.pc && s.pc[t].Awake? {
      var n, e := s.pc[t].seqNo, s.pc[t].event;
      assert MovesOn(s, s.(pc := s.pc[t := if s.durableSeq <= n then Asleep(n, e) else Idle]), t);
    } else if t :| t in s.pc && s.pc[t].Joining? && s.flusher.Exited? {
      assert MovesOn(s, s.(pc := s.pc[t := Idle]), t);
    }
  }

  /** An appender or closer can be left waiting with nobody to move exactly when the flusher has
      exited; those left are then appenders that came after it had. */
  lemma StuckExactlyAfterExit(r: seq<State>, i: nat, t: Thread)
    requires Run(r) && i < |r| && t in r[i].pc && !r[i].pc[t].Idle?
    ensures !SomeoneCanStep(r[i]) <==>
      r[i].flusher.Exited? &&
      forall u :: u in r[i].pc ==> r[i].pc[u].Idle? || (r[i].pc[u].Asleep? && r[i].pc[u].seqNo >= r[i].flusher.at)
  {
    RunInv(r, i);
    var s := r[i];
    assert WaitInv(s, t);
    forall u | u in s.pc ensures s.pc[u].Asleep? && s.flusher.Exited? ==> s.pc[u].seqNo >= s.flusher.at {
      assert WaitInv(s, u);
    }
    if !SomeoneCanStep(s) {
      assert s.flusher.Exited?;
      forall u | u in s.pc ensures !s.pc[u].Awake? && !s.pc[u].Joining? {}
    }
  }

  // --- what decides it: the flusher at the moment append is called ----------------------------

  /** t waits, awake or asleep, for the event numbered n. */
  predicate WaitsFor(s: State, t: Thread, n: nat) {
    t in s.pc && (s.pc[t].Awake? || s.pc[t].Asleep?) && s.pc[t].seqNo == n
  }

  lemma StepKeepsWaiting(s: State, s': State, u: Thread, t: Thread, n: nat)
    requires StepBy(s, s', u) && WaitsFor(s, t, n)
    ensures WaitsFor(s', t, n) || (t in s'.pc && s'.pc[t].Idle? && s.durableSeq > n)
  {
  }

  /** From its call until it returns, an append waits for the number it took. */
  lemma {:induction false} KeepsItsNumber(r: seq<State>, i: nat, j: nat, t: Thread, event: string)
    requires Run(r) && i < j < |r| && Append(r[i], r[i + 1], t, event)
    requires forall k :: i < k <= j ==> t in r[k].pc && !r[k].pc[t].Idle?
    ensures WaitsFor(r[j], t, r[i].nextSeq)
    decreases j
  {
    if j == i + 1 {
      RunInv(r, i);
    } else {
      KeepsItsNumber(r, i, j - 1, t, event);
      assert StepAfter(r, j - 1);
      var u :| StepBy(r[j - 1], r[j], u);
      StepKeepsWaiting(r[j - 1], r[j], u, t, r[i].nextSeq);
    }
  }

  /** An append takes the next number for its own event, and once it has returned, at however later a state, that event
      is in stable storage at that number. */
  lemma ReturnedIsDurable(r: seq<State>, i: nat, j: nat, t: Thread, event: string)
    requires Run(r) && i < j < |r| && Append(r[i], r[i + 1], t, event)
    ensures r[i].nextSeq == |r[i].events| && r[i + 1].events == r[i].events + [event]
    ensures DurableAt(r[j], r[i].nextSeq, event) || WaitsFor(r[j], t, r[i].nextSeq)
  {
    RunInv(r, i);
    ServedOrWaiting(r, i, j, t, event);
    DurablePrefix(r, j);
  }

  lemma {:induction false} ServedOrWaiting(r: seq<State>, i: nat, j: nat, t: Thread, event: string)
    requires Run(r) && i < j < |r| && Append(r[i], r[i + 1], t, event)
    ensures ServedOr(r[j], t, r[i].nextSeq, event)
    decreases j
  {
    RunInv(r, i);
    if j > i + 1 {
      ServedOrWaiting(r, i, j - 1, t, event);
      assert StepAfter(r, j - 1);
      var u :| StepBy(r[j - 1], r[j], u);
      RunInv(r, j - 1);
      StepServes(r[j - 1], r[j], u, t, r[i].nextSeq, event);
    }
  }

  /** The event numbered n is below the watermark, or t waits for it. */
  predicate ServedOr(s: State, t: Thread, n: nat, event: string) {
    n < |s.events| && s.events[n] == event && (n < s.durableSeq || WaitsFor(s, t, n))
  }

  lemma StepServes(s: State, s': State, u: Thread, t: Thread, n: nat, event: string)
    requires LogInv(s) && StepBy(s, s', u) && ServedOr(s, t, n, event)
    ensures ServedOr(s', t, n, event)
  {
    StepLog(s, s', u);
    if WaitsFor(s, t, n) { StepKeepsWaiting(s, s', u, t, n); }
  }

  predicate DurableAt(s: State, n: nat, event: string) {
    s.sink.durableUpto <= |s.sink.records| && n < |Durable(s.sink)| && Durable(s.sink)[n] == event
  }

  /** A flusher that had not left at the call leaves with the call's event flushed. */
  lemma {:induction false} LeavesAfter(r: seq<State>, i: nat, j: nat, t: Thread, event: string)
    requires Run(r) && i < j < |r| && Append(r[i], r[i + 1], t, event) && !r[i].flusher.Exited?
    ensures r[j].flusher.Exited? ==> r[j].flusher.at > r[i].nextSeq
    decreases j
  {
    if j > i + 1 {
      LeavesAfter(r, i, j - 1, t, event);
      assert StepAfter(r, j - 1);
      Later(r, i + 1, j - 1);
      RunInv(r, i + 1);
      RunInv(r, j - 1);
    }
  }

  /** Called before the flusher has left, an append never waits with nobody to move. */
  lemma EarlyAppendIsServed(r: seq<State>, i: nat, j: nat, t: Thread, event: string)
    requires Run(r) && i < j < |r| && Append(r[i], r[i + 1], t, event) && !r[i].flusher.Exited?
    requires forall k :: i < k <= j ==> t in r[k].pc && !r[k].pc[t].Idle?
    ensures SomeoneCanStep(r[j])
  {
    KeepsItsNumber(r, i, j, t, event);
    LeavesAfter(r, i, j, t, event);
    RunInv(r, j);
    assert WaitInv(r[j], t);
  }

  /** Called after the flusher has left, an append is over in no later state, however the run goes on. */
  lemma {:induction false} LateAppendNeverReturns(r: seq<State>, i: nat, j: nat, t: Thread, event: string)
    requires Run(r) && i < j < |r| && Append(r[i], r[i + 1], t, event) && r[i].flusher.Exited?
    ensures WaitsFor(r[j], t, r[i].nextSeq)
    decreases j
  {
    RunInv(r, i);
    if j > i + 1 {
      LateAppendNeverReturns(r, i, j - 1, t, event);
      ExitedForGood(r, i, j - 1);
      RunInv(r, j - 1);
      assert StepAfter(r, j - 1);
      var u :| StepBy(r[j - 1], r[j], u);
      StepKeepsWaiting(r[j - 1], r[j], u, t, r[i].nextSeq);
    }
  }

  ghost predicate Continues(before: seq<State>, r: seq<State>) {
    Run(r) && |before| <= |r| && r[..|before|] == before
  }

  ghost predicate Over(r: seq<State>, t: Thread) {
    r != [] && t in r[|r| - 1].pc && r[|r| - 1].pc[t].Idle?
  }

  /** Exactly when an append can return at all: the flusher had not left when it was called. */
  lemma AppendCanReturnIff(r: seq<State>, i: nat, t: Thread, event: string)
    requires Run(r) && i + 1 < |r| && Append(r[i], r[i + 1], t, event)
    ensures (exists r' :: Continues(r[..i + 2], r') && Over(r', t)) <==> !r[i].flusher.Exited?
  {
    var before := r[..i + 2];
    if r[i].flusher.Exited? {
      forall r' | Continues(before, r') ensures !Over(r', t) {
        assert r'[i] == before[i] && r'[i + 1] == before[i + 1];
        LateAppendNeverReturns(r', i, |r'| - 1, t, event);
      }
    } else {
      RunPrefix(r, i + 1);
      RunInv(r, i);
      RunInv(r, i + 1);
      assert before[|before| - 1] == r[i + 1];
      var r' := ServedRun(before, t, r[i].nextSeq);
    }
  }

  lemma RunPrefix(r: seq<State>, i: nat)
    requires Run(r) && i < |r|
    ensures Run(r[..i + 1])
  {
    var before := r[..i + 1];
    forall k: nat | k + 1 < |before| ensures StepAfter(before, k) {
      assert StepAfter(r, k);
    }
  }

  lemma RunStep(r: seq<State>, s: State, t: Thread)
    requires Run(r) && StepBy(r[|r| - 1], s, t)
    ensures Run(r + [s]) && Continues(r, r + [s])
  {
    var r' := r + [s];
    forall k: nat | k + 1 < |r'| ensures StepAfter(r', k) {
      if k + 1 < |r| { assert StepAfter(r, k); }
    }
  }

  /** The flusher tests, lingers and flushes; the append tests and returns. */
  lemma ServedRun(r: seq<State>, t: Thread, n: nat) returns (r': seq<State>)
    requires Run(r) && WaitsFor(r[|r| - 1], t, n) && r[|r| - 1].buffer != [] && n < r[|r| - 1].nextSeq
    requires r[|r| - 1].flusher.Testing? || r[|r| - 1].flusher.Lingering?
    requires r[|r| - 1].pc[t].Asleep?
    ensures Continues(r, r') && Over(r', t)
  {
    var s := r[|r| - 1];
    var lingering := s.(flusher := Lingering);
    var flushed := lingering.(flusher := Testing, buffer := [], sink := WriteAndSync(s.sink, s.buffer),
                              durableSeq := s.nextSeq, pc := WakeAll(s.pc));
    var served := flushed.(pc := flushed.pc[t := Idle]);
    var r0 := r;
    if s.flusher.Testing? {
      RunStep(r, lingering, t);
      r0 := r + [lingering];
    }
    RunStep(r0, flushed, t);
    RunStep(r0 + [flushed], served, t);
    r' := r0 + [flushed] + [served];
    assert r'[..|r|] == r;
  }

  lemma {:induction false} ExitedForGood(r: seq<State>, i: nat, j: nat)
    requires Run(r) && i <= j < |r| && r[i].flusher.Exited?
    ensures r[j].flusher == r[i].flusher
    decreases j
  {
    if i < j {
      ExitedForGood(r, i, j - 1);
      assert StepAfter(r, j - 1);
    }
  }

  // --- close ----------------------------------------------------------------------------------

  /** What was appended while the flusher was there is durable once it has left. */
  lemma {:induction false} LeavesAllDurable(r: seq<State>, k: nat, j: nat)
    requires Run(r) && k <= j < |r| && !r[k].flusher.Exited? && r[j].flusher.Exited?
    ensures r[j].sink.durableUpto <= |r[j].sink.records| && r[k].events <= Durable(r[j].sink)
    decreases j
  {
    DurablePrefix(r, j);
    if r[j - 1].flusher.Exited? {
      LeavesAllDurable(r, k, j - 1);
      DurableForever(r, j - 1, j);
    } else {
      ExitsDrained(r, j - 1);
      Later(r, k, j);
    }
  }

  /** close joins the flusher: once it has returned, at however later a state, the flusher has left and everything
      appended before that is durable. */
  lemma {:induction false} ClosedIsDrained(r: seq<State>, i: nat, j: nat, t: Thread)
    requires Run(r) && i < j < |r| && Close(r[i], r[i + 1], t)
    ensures r[j].closed && t in r[j].pc
    ensures !r[j].pc[t].Joining? ==>
      r[j].flusher.Exited? && r[j].sink.durableUpto <= |r[j].sink.records| &&
      forall k :: 0 <= k <= j && !r[k].flusher.Exited? ==> r[k].events <= Durable(r[j].sink)
    decreases j
  {
    if j > i + 1 {
      ClosedIsDrained(r, i, j - 1, t);
      assert StepAfter(r, j - 1);
    }
    if !r[j].pc[t].Joining? {
      DurablePrefix(r, j);
      forall k | 0 <= k <= j && !r[k].flusher.Exited? ensures r[k].events <= Durable(r[j].sink) {
        LeavesAllDurable(r, k, j);
      }
    }
  }

  /** And it can return: from any reachable state with a close waiting, the flusher drains the buffer and leaves. */
  lemma CloseCanReturn(r: seq<State>, t: Thread) returns (r': seq<State>)
    requires Run(r) && t in r[|r| - 1].pc && r[|r| - 1].pc[t].Joining?
    ensures Continues(r, r') && Over(r', t)
  {
    var drained := DrainedRun(r, t);
    var s := drained[|drained| - 1];
    RunStep(drained, s.(pc := s.pc[t := Idle]), t);
    r' := drained + [s.(pc := s.pc[t := Idle])];
  }

  /** The flusher leaves: with a flush before it, if something is buffered. */
  lemma DrainedRun(r: seq<State>, t: Thread) returns (r': seq<State>)
    requires Run(r) && t in r[|r| - 1].pc && r[|r| - 1].pc[t].Joining?
    ensures Continues(r, r') && r'[|r'| - 1].flusher.Exited?
    ensures t in r'[|r'| - 1].pc && r'[|r'| - 1].pc[t].Joining?
  {
    RunInv(r, |r| - 1);
    r' := r;
    var s := r[|r| - 1];
    assert WaitInv(s, t);
    if s.flusher.Testing? && s.buffer != [] {
      RunStep(r', s.(flusher := Lingering), t);
      r' := r' + [s.(flusher := Lingering)];
      s := s.(flusher := Lingering);
    }
    if s.flusher.Lingering? {
      RunStep(r', Flushed(s), t);
      r' := r' + [Flushed(s)];
      s := Flushed(s);
    }
    if s.flusher.Testing? {
      RunStep(r', s.(flusher := Exited(s.nextSeq)), t);
      r' := r' + [s.(flusher := Exited(s.nextSeq))];
    }
  }

  /** Such a run: close, let the flusher leave, append. Nobody can move and the appender waits. */
  lemma AppendAfterCloseHangs(event: string) returns (r: seq<State>)
    ensures Run(r) && !SomeoneCanStep(r[|r| - 1])
    ensures 1 in r[|r| - 1].pc && r[|r| - 1].pc[1] == Asleep(0, event)
  {
    var s0 := State([], 0, 0, false, Testing, Sink([], 0, 0), map[0 := Idle, 1 := Idle], []);
    var s1 := s0.(closed := true, pc := map[0 := Joining, 1 := Idle]);
    var s2 := s1.(flusher := Exited(0));
    var s3 := s2.(pc := map[0 := Idle, 1 := Idle]);
    var s4 := s3.(nextSeq := 1, buffer := [event], events := [event], pc := map[0 := Idle, 1 := Asleep(0, event)]);
    r := [s0];
    assert WakeAll(s0.pc)[0 := Joining] == s1.pc;
    RunStep(r, s1, 0);
    RunStep(r + [s1], s2, 0);
    assert s2.pc[0 := Idle] == s3.pc;
    RunStep(r + [s1] + [s2], s3, 0);
    assert WakeAll(s3.pc)[1 := Asleep(0, event)] == s4.pc && s3.buffer + [event] == s3.events + [event] == [event];
    assert s4 == s3.(nextSeq := s3.nextSeq + 1, buffer := s3.buffer + [event], events := s3.events + [event],
                     flusher := WakeFlusher(s3.flusher), pc := WakeAll(s3.pc)[1 := Asleep(s3.nextSeq, event)]);
    assert Append(s3, s4, 1, event);
    RunStep(r + [s1] + [s2] + [s3], s4, 1);
    r := r + [s1] + [s2] + [s3] + [s4];
  }
}
