/**
 The writer-priority reader-writer lock as a step system: any number of threads, one
 transition per semaphore operation or per counter update made under its lock.
 */
module RWLock {
  import opened Basics
  import opened Counting

  type Thread = nat

  /** Where a thread stands: each name is the operation it is about to perform. */
  datatype PC =
    | Idle
    // acquire_read; ok records whether the finally blocks run on success or on an exception
    | ReadGate | ReadCountLock | ReadBump | ReadResource | ReadUndo
    | ReadDropLock(ok: bool) | ReadDropGate(ok: bool)
    | Reading                                          // inside; next is release_read
    | ReadLeave | ReadFree | ReadLeaveDrop
    // acquire_write
    | WriteLock | WriteBump | WriteGate | WriteDropLock | WriteResource
    | Writing                                          // inside; next is release_write
    | LeaveLock | LeaveDec | LeaveGate | LeaveDrop
    // ended by an exception that nothing undoes; the thread's later calls are another thread's here
    | FailedRead | FailedGate | FailedResource | FailedLeave

  datatype State = State(
    resource: int, readerCountLock: int, writeCountLock: int, readerGate: int,
    readerCount: int, writerCount: int,
    pc: map<Thread, PC>)

  /** Proceed performs the pending operation; Interrupt makes a blocked acquire raise instead. */
  datatype Action = CallRead | CallWrite | Proceed | Interrupt

  /** About to acquire a semaphore, which may raise instead. */
  predicate Acquiring(p: PC) {
    p.ReadGate? || p.ReadCountLock? || p.ReadResource? || p.Reading? ||
    p.WriteLock? || p.WriteGate? || p.WriteResource? || p.LeaveLock?
  }

  /** What an interrupted acquire leaves. Those of acquire_read are undone, and the first of acquire_write has nothing
      to undo; the rest leave the counters and the semaphores as they stand. */
  function Raised(p: PC): PC {
    match p
    case ReadCountLock => ReadDropGate(false)
    case ReadResource => ReadUndo
    case Reading => FailedRead
    case WriteGate => FailedGate
    case WriteResource => FailedResource
    case LeaveLock => FailedLeave
    case _ => Idle
  }

  predicate Failed(p: PC) { p.FailedRead? || p.FailedGate? || p.FailedResource? || p.FailedLeave? }

  predicate Enabled(s: State, t: Thread, a: Action) {
    t in s.pc &&
    match a
    case CallRead => s.pc[t].Idle?
    case CallWrite => s.pc[t].Idle?
    case Interrupt => Acquiring(s.pc[t])
    case Proceed =>
      match s.pc[t]
      case Idle => false
      case FailedRead | FailedGate | FailedResource | FailedLeave => false
      case ReadGate => s.readerGate > 0
      case ReadCountLock => s.readerCountLock > 0
      case ReadResource => s.resource > 0
      case Reading => s.readerCountLock > 0
      case WriteLock => s.writeCountLock > 0
      case WriteGate => s.readerGate > 0
      case WriteResource => s.resource > 0
      case LeaveLock => s.writeCountLock > 0
      case _ => true
  }

  /** The program counter thread t moves to. */
  function Target(s: State, t: Thread, a: Action): PC
    requires Enabled(s, t, a)
  {
    match a
    case CallRead => ReadGate
    case CallWrite => WriteLock
    case Interrupt => Raised(s.pc[t])
    case Proceed =>
      match s.pc[t]
      case ReadGate => ReadCountLock
      case ReadCountLock => ReadBump
      case ReadBump => if s.readerCount + 1 == 1 then ReadResource else ReadDropLock(true)
      case ReadResource => ReadDropLock(true)
      case ReadUndo => ReadDropLock(false)
      case ReadDropLock(ok) => ReadDropGate(ok)
      case ReadDropGate(ok) => if ok then Reading else Idle
      case Reading => ReadLeave
      case ReadLeave => if s.readerCount - 1 == 0 then ReadFree else ReadLeaveDrop
      case ReadFree => ReadLeaveDrop
      case ReadLeaveDrop => Idle
      case WriteLock => WriteBump
      case WriteBump => if s.writerCount + 1 == 1 then WriteGate else WriteDropLock
      case WriteGate => WriteDropLock
      case WriteDropLock => WriteResource
      case WriteResource => Writing
      case Writing => LeaveLock
      case LeaveLock => LeaveDec
      case LeaveDec => if s.writerCount - 1 == 0 then LeaveGate else LeaveDrop
      case LeaveGate => LeaveDrop
      case LeaveDrop => Idle
      case stays => stays
  }

  /** One atomic step of thread t: acquire takes 1 from a semaphore, release gives 1 back. */
  function Next(s: State, t: Thread, a: Action): State
    requires Enabled(s, t, a)
  {
    var s' := s.(pc := s.pc[t := Target(s, t, a)]);
    if a != Proceed then s' else
      match s.pc[t]
      case ReadGate => s'.(readerGate := s.readerGate - 1)
      case ReadCountLock => s'.(readerCountLock := s.readerCountLock - 1)
      case ReadBump => s'.(readerCount := s.readerCount + 1)
      case ReadResource => s'.(resource := s.resource - 1)
      case ReadUndo => s'.(readerCount := s.readerCount - 1)
      case ReadDropLock(_) => s'.(readerCountLock := s.readerCountLock + 1)
      case ReadDropGate(_) => s'.(readerGate := s.readerGate + 1)
      case Reading => s'.(readerCountLock := s.readerCountLock - 1)
      case ReadLeave => s'.(readerCount := s.readerCount - 1)
      case ReadFree => s'.(resource := s.resource + 1)
      case ReadLeaveDrop => s'.(readerCountLock := s.readerCountLock + 1)
      case WriteLock => s'.(writeCountLock := s.writeCountLock - 1)
      case WriteBump => s'.(writerCount := s.writerCount + 1)
      case WriteGate => s'.(readerGate := s.readerGate - 1)
      case WriteDropLock => s'.(writeCountLock := s.writeCountLock + 1)
      case WriteResource => s'.(resource := s.resource - 1)
      case Writing => s'.(resource := s.resource + 1)
      case LeaveLock => s'.(writeCountLock := s.writeCountLock - 1)
      case LeaveDec => s'.(writerCount := s.writerCount - 1)
      case LeaveGate => s'.(readerGate := s.readerGate + 1)
      case LeaveDrop => s'.(writeCountLock := s.writeCountLock + 1)
      case _ => s'
  }

  predicate AsBuilt(s: State) {
    s.resource == s.readerCountLock == s.writeCountLock == s.readerGate == 1 && s.readerCount == s.writerCount == 0
  }

  predicate Init(s: State) {
    AsBuilt(s) && forall t <- s.pc :: s.pc[t] == Idle
  }

  ghost predicate Step(s: State, s': State) {
    exists t, a :: Enabled(s, t, a) && s' == Next(s, t, a)
  }

  /** A finite run: any interleaving of steps by any of the threads. */
  ghost predicate Run(r: seq<State>) {
    |r| > 0 && Init(r[0]) && forall i: nat {:trigger StepAfter(r, i)} :: i + 1 < |r| ==> StepAfter(r, i)
  }

  ghost predicate StepAfter(r: seq<State>, i: nat)
    requires i + 1 < |r|
  {
    Step(r[i], r[i + 1])
  }

  // --- classes of program counters --------------------------------------------------------

  /** Between readerCountLock.acquire() and its release. */
  predicate HasCountLock(p: PC) {
    p.ReadBump? || p.ReadResource? || p.ReadUndo? || p.ReadDropLock? ||
    p.ReadLeave? || p.ReadFree? || p.ReadLeaveDrop?
  }

  predicate HasWriteLock(p: PC) {
    p.WriteBump? || p.WriteGate? || p.FailedGate? || p.WriteDropLock? || p.LeaveDec? || p.LeaveGate? || p.LeaveDrop?
  }

  /** A reader between readerGate.acquire() and its release. */
  predicate HasGate(p: PC) {
    p.ReadCountLock? || p.ReadBump? || p.ReadResource? || p.ReadUndo? || p.ReadDropLock? || p.ReadDropGate?
  }

  /** Between the increment of readerCount and its decrement. */
  predicate CountedReader(p: PC) {
    p.ReadResource? || p.ReadUndo? || p == ReadDropLock(true) || p == ReadDropGate(true) ||
    p.Reading? || p.ReadLeave? || p.FailedRead?
  }

  predicate CountedWriter(p: PC) {
    p.WriteGate? || p.WriteDropLock? || p.WriteResource? || p.Writing? || p.LeaveLock? || p.LeaveDec? ||
    p.FailedGate? || p.FailedResource? || p.FailedLeave?
  }

  /** A counted reader past the first reader's resource.acquire(). */
  predicate ReaderInside(p: PC) {
    CountedReader(p) && !FirstReader(p)
  }

  predicate WriterInside(p: PC) { p.Writing? }

  predicate FirstReader(p: PC) { p.ReadResource? || p.ReadUndo? }
  predicate LastReader(p: PC) { p.ReadFree? }
  predicate Bumping(p: PC) { p.ReadBump? || p.ReadLeave? }
  predicate FirstWriter(p: PC) { p.WriteGate? || p.FailedGate? }
  predicate LastWriter(p: PC) { p.LeaveGate? }
  predicate WriterBumping(p: PC) { p.WriteBump? || p.LeaveDec? }

  // --- the inductive invariant ------------------------------------------------------------

  // Both sides use the same device: members counted under a lock, the first of them taking
  // a shared semaphore for all and the last giving it back. Readers switch resource against
  // the writers inside; writers switch readerGate against the readers passing it.

  /** How many threads stand in each role of one such switch. */
  datatype Tally = Tally(lock: int, counted: int, first: int, last: int, bumping: int, solo: int)

  ghost function ReaderTally(pc: map<Thread, PC>): Tally {
    Tally(Count(pc, HasCountLock), Count(pc, CountedReader), Count(pc, FirstReader),
          Count(pc, LastReader), Count(pc, Bumping), Count(pc, WriterInside))
  }

  ghost function WriterTally(pc: map<Thread, PC>): Tally {
    Tally(Count(pc, HasWriteLock), Count(pc, CountedWriter), Count(pc, FirstWriter),
          Count(pc, LastWriter), Count(pc, WriterBumping), Count(pc, HasGate))
  }

  /** The members hold the shared semaphore: taken by the first, not yet given back by the last. */
  predicate MembersHold(y: Tally) {
    (y.counted > 0 && y.first == 0) || y.last > 0
  }

  predicate Switch(lock: int, count: int, shared: int, y: Tally) {
    lock >= 0 && shared >= 0 && lock + y.lock == 1 && count == y.counted &&
    (y.first > 0 ==> count == 1) && (y.last > 0 ==> count == 0) &&
    shared + y.solo + (if MembersHold(y) then 1 else 0) == 1
  }

  ghost predicate Inv(s: State) {
    Switch(s.readerCountLock, s.readerCount, s.resource, ReaderTally(s.pc)) &&
    Switch(s.writeCountLock, s.writerCount, s.readerGate, WriterTally(s.pc))
  }

  /** The first, the last and a counting member all hold the lock, and exclude each other. */
  ghost predicate Roles(y: Tally) {
    y.first >= 0 && y.last >= 0 && y.bumping >= 0 && y.solo >= 0 && y.first <= y.counted &&
    y.first + y.last + y.bumping <= y.lock
  }

  predicate FirstOrLast(p: PC) { FirstReader(p) || LastReader(p) }
  predicate FirstOrLastWriter(p: PC) { FirstWriter(p) || LastWriter(p) }
  predicate Nobody(p: PC) { false }

  lemma TallyRoles(pc: map<Thread, PC>)
    ensures Roles(ReaderTally(pc)) && Roles(WriterTally(pc))
  {
    CountSplit(pc, FirstReader, LastReader, FirstOrLast);
    CountSplit(pc, FirstOrLast, Bumping, HasCountLock);
    CountSplit(pc, FirstReader, Nobody, CountedReader);
    CountSplit(pc, FirstWriter, LastWriter, FirstOrLastWriter);
    CountSplit(pc, FirstOrLastWriter, WriterBumping, HasWriteLock);
    CountSplit(pc, FirstWriter, Nobody, CountedWriter);
  }

  function ReaderWeight(p: PC): Tally {
    Tally(One(HasCountLock(p)), One(CountedReader(p)), One(FirstReader(p)),
          One(LastReader(p)), One(Bumping(p)), One(WriterInside(p)))
  }

  function WriterWeight(p: PC): Tally {
    Tally(One(HasWriteLock(p)), One(CountedWriter(p)), One(FirstWriter(p)),
          One(LastWriter(p)), One(WriterBumping(p)), One(HasGate(p)))
  }

  function Shift(y: Tally, p: Tally, q: Tally): Tally {
    Tally(y.lock - p.lock + q.lock, y.counted - p.counted + q.counted, y.first - p.first + q.first,
          y.last - p.last + q.last, y.bumping - p.bumping + q.bumping, y.solo - p.solo + q.solo)
  }

  lemma ReaderShift(pc: map<Thread, PC>, t: Thread, q: PC)
    requires t in pc
    ensures ReaderTally(pc[t := q]) == Shift(ReaderTally(pc), ReaderWeight(pc[t]), ReaderWeight(q))
  {
    CountUpdate(pc, t, q, HasCountLock);
    CountUpdate(pc, t, q, CountedReader);
    CountUpdate(pc, t, q, FirstReader);
    CountUpdate(pc, t, q, LastReader);
    CountUpdate(pc, t, q, Bumping);
    CountUpdate(pc, t, q, WriterInside);
  }

  lemma WriterShift(pc: map<Thread, PC>, t: Thread, q: PC)
    requires t in pc
    ensures WriterTally(pc[t := q]) == Shift(WriterTally(pc), WriterWeight(pc[t]), WriterWeight(q))
  {
    CountUpdate(pc, t, q, HasWriteLock);
    CountUpdate(pc, t, q, CountedWriter);
    CountUpdate(pc, t, q, FirstWriter);
    CountUpdate(pc, t, q, LastWriter);
    CountUpdate(pc, t, q, WriterBumping);
    CountUpdate(pc, t, q, HasGate);
  }

  /** With every thread outside, nobody stands in any role. */
  lemma IdleTally(pc: map<Thread, PC>)
    requires forall t :: t in pc ==> pc[t] == Idle
    ensures ReaderTally(pc) == WriterTally(pc) == Tally(0, 0, 0, 0, 0, 0)
  {
    CountNone(pc, HasCountLock);
    CountNone(pc, CountedReader);
    CountNone(pc, FirstReader);
    CountNone(pc, LastReader);
    CountNone(pc, Bumping);
    CountNone(pc, WriterInside);
    CountNone(pc, HasWriteLock);
    CountNone(pc, CountedWriter);
    CountNone(pc, FirstWriter);
    CountNone(pc, LastWriter);
    CountNone(pc, WriterBumping);
    CountNone(pc, HasGate);
  }

  lemma InitInv(s: State)
    requires Init(s)
    ensures Inv(s)
  {
    IdleTally(s.pc);
  }

  /** A step seen from the readers' switch, and from the writers', as arithmetic on the tallies. */
  lemma ReaderStep(s: State, t: Thread, a: Action, y: Tally, y': Tally)
    requires Enabled(s, t, a) && y' == Shift(y, ReaderWeight(s.pc[t]), ReaderWeight(Target(s, t, a)))
    requires Roles(y) && Roles(y') && Switch(s.readerCountLock, s.readerCount, s.resource, y)
    ensures var s' := Next(s, t, a); Switch(s'.readerCountLock, s'.readerCount, s'.resource, y')
  {
    if a != Proceed {
      ReaderStepCall(s, t, a, y, y');
    } else if InWriter(s.pc[t]) {
      ReaderStepOfWriter(s, t, y, y');
    } else {
      ReaderStepOfReader(s, t, y, y');
    }
  }

  lemma WriterStep(s: State, t: Thread, a: Action, y: Tally, y': Tally)
    requires Enabled(s, t, a) && y' == Shift(y, WriterWeight(s.pc[t]), WriterWeight(Target(s, t, a)))
    requires Roles(y) && Roles(y') && Switch(s.writeCountLock, s.writerCount, s.readerGate, y)
    ensures var s' := Next(s, t, a); Switch(s'.writeCountLock, s'.writerCount, s'.readerGate, y')
  {
    if a != Proceed {
      WriterStepCall(s, t, a, y, y');
    } else if InWriter(s.pc[t]) {
      WriterStepOfWriter(s, t, y, y');
    } else {
      WriterStepOfReader(s, t, y, y');
    }
  }

  /** In acquire_write or release_write, or between the two. */
  predicate InWriter(p: PC) {
    HasWriteLock(p) || p.WriteLock? || p.WriteResource? || p.Writing? || p.LeaveLock? ||
    p.FailedResource? || p.FailedLeave?
  }

  lemma ReaderStepCall(s: State, t: Thread, a: Action, y: Tally, y': Tally)
    requires Enabled(s, t, a) && a != Proceed && y' == Shift(y, ReaderWeight(s.pc[t]), ReaderWeight(Target(s, t, a)))
    requires Roles(y) && Roles(y') && Switch(s.readerCountLock, s.readerCount, s.resource, y)
    ensures var s' := Next(s, t, a); Switch(s'.readerCountLock, s'.readerCount, s'.resource, y')
  {
  }

  lemma ReaderStepOfWriter(s: State, t: Thread, y: Tally, y': Tally)
    requires Enabled(s, t, Proceed) && y' == Shift(y, ReaderWeight(s.pc[t]), ReaderWeight(Target(s, t, Proceed)))
    requires InWriter(s.pc[t])
    requires Roles(y) && Roles(y') && Switch(s.readerCountLock, s.readerCount, s.resource, y)
    ensures var s' := Next(s, t, Proceed); Switch(s'.readerCountLock, s'.readerCount, s'.resource, y')
  {
  }

  lemma ReaderStepOfReader(s: State, t: Thread, y: Tally, y': Tally)
    requires Enabled(s, t, Proceed) && y' == Shift(y, ReaderWeight(s.pc[t]), ReaderWeight(Target(s, t, Proceed)))
    requires !InWriter(s.pc[t])
    requires Roles(y) && Roles(y') && Switch(s.readerCountLock, s.readerCount, s.resource, y)
    ensures var s' := Next(s, t, Proceed); Switch(s'.readerCountLock, s'.readerCount, s'.resource, y')
  {
  }

  lemma WriterStepCall(s: State, t: Thread, a: Action, y: Tally, y': Tally)
    requires Enabled(s, t, a) && a != Proceed && y' == Shift(y, WriterWeight(s.pc[t]), WriterWeight(Target(s, t, a)))
    requires Roles(y) && Roles(y') && Switch(s.writeCountLock, s.writerCount, s.readerGate, y)
    ensures var s' := Next(s, t, a); Switch(s'.writeCountLock, s'.writerCount, s'.readerGate, y')
  {
  }

  lemma WriterStepOfWriter(s: State, t: Thread, y: Tally, y': Tally)
    requires Enabled(s, t, Proceed) && y' == Shift(y, WriterWeight(s.pc[t]), WriterWeight(Target(s, t, Proceed)))
    requires InWriter(s.pc[t])
    requires Roles(y) && Roles(y') && Switch(s.writeCountLock, s.writerCount, s.readerGate, y)
    ensures var s' := Next(s, t, Proceed); Switch(s'.writeCountLock, s'.writerCount, s'.readerGate, y')
  {
  }

  lemma WriterStepOfReader(s: State, t: Thread, y: Tally, y': Tally)
    requires Enabled(s, t, Proceed) && y' == Shift(y, WriterWeight(s.pc[t]), WriterWeight(Target(s, t, Proceed)))
    requires !InWriter(s.pc[t])
    requires Roles(y) && Roles(y') && Switch(s.writeCountLock, s.writerCount, s.readerGate, y)
    ensures var s' := Next(s, t, Proceed); Switch(s'.writeCountLock, s'.writerCount, s'.readerGate, y')
  {
  }

  lemma StepPc(s: State, t: Thread, a: Action)
    requires Enabled(s, t, a)
    ensures Next(s, t, a).pc == s.pc[t := Target(s, t, a)]
  {
  }

  /** Every step of every thread keeps the invariant, an interrupted acquire and its undo included. */
  lemma StepInv(s: State, t: Thread, a: Action)
    requires Inv(s) && Enabled(s, t, a)
    ensures Inv(Next(s, t, a))
  {
    var q := Target(s, t, a);
    StepPc(s, t, a);
    TallyRoles(s.pc);
    TallyRoles(s.pc[t := q]);
    ReaderShift(s.pc, t, q);
    WriterShift(s.pc, t, q);
    ReaderStep(s, t, a, ReaderTally(s.pc), ReaderTally(s.pc[t := q]));
    WriterStep(s, t, a, WriterTally(s.pc), WriterTally(s.pc[t := q]));
  }

  lemma {:induction false} RunInv(r: seq<State>, i: nat)
    requires Run(r) && i < |r|
    ensures Inv(r[i])
  {
    if i == 0 {
      InitInv(r[0]);
    } else {
      RunInv(r, i - 1);
      assert StepAfter(r, i - 1);
      var t, a :| Enabled(r[i - 1], t, a) && r[i] == Next(r[i - 1], t, a);
      StepInv(r[i - 1], t, a);
    }
  }

  // --- what the lock promises -------------------------------------------------------------

  /** No writer with anybody else inside, binary semaphores, and counters that count. */
  ghost predicate Safe(s: State) {
    (forall t, u :: t in s.pc && u in s.pc && t != u && WriterInside(s.pc[t]) ==>
      !WriterInside(s.pc[u]) && !ReaderInside(s.pc[u])) &&
    0 <= s.resource <= 1 && 0 <= s.readerCountLock <= 1 &&
    0 <= s.writeCountLock <= 1 && 0 <= s.readerGate <= 1 &&
    s.readerCount == Count(s.pc, CountedReader) &&
    s.writerCount == Count(s.pc, CountedWriter)
  }

  lemma WriterExcludes(s: State, t: Thread, u: Thread)
    requires Inv(s) && t in s.pc && u in s.pc && t != u && WriterInside(s.pc[t])
    ensures !WriterInside(s.pc[u]) && !ReaderInside(s.pc[u])
  {
    TallyRoles(s.pc);
    CountPositive(s.pc, t, WriterInside);
    if WriterInside(s.pc[u]) {
      assert {t, u} <= Where(s.pc, WriterInside);
      SubsetSize({t, u}, Where(s.pc, WriterInside));
      assert false;
    }
    if ReaderInside(s.pc[u]) {
      CountPositive(s.pc, u, ReaderInside);
      CountSplit(s.pc, ReaderInside, FirstReader, CountedReader);
      assert false;
    }
  }

  lemma InvSafe(s: State)
    requires Inv(s)
    ensures Safe(s)
  {
    TallyRoles(s.pc);
    forall t, u | t in s.pc && u in s.pc && t != u && WriterInside(s.pc[t])
      ensures !WriterInside(s.pc[u]) && !ReaderInside(s.pc[u])
    {
      WriterExcludes(s, t, u);
    }
  }

  /** Every state of every run, with any number of threads and any interrupts, is safe. */
  lemma MutualExclusion(r: seq<State>)
    requires Run(r)
    ensures forall i :: 0 <= i < |r| ==> Safe(r[i])
  {
    forall i | 0 <= i < |r| ensures Safe(r[i]) {
      RunInv(r, i);
      InvSafe(r[i]);
    }
  }

  /** No call ended in an exception that nothing undid. */
  ghost predicate NoFailure(s: State) {
    forall t :: t in s.pc ==> !Failed(s.pc[t])
  }

  ghost predicate CanProceed(s: State, t: Thread) {
    t in s.pc && Enabled(s, t, Proceed)
  }

  /** Why a thread inside a call cannot proceed: the semaphore it is about to acquire is taken. */
  predicate Blocked(s: State, p: PC) {
    ((p.ReadGate? || p.WriteGate?) && s.readerGate <= 0) ||
    ((p.ReadCountLock? || p.Reading?) && s.readerCountLock <= 0) ||
    ((p.ReadResource? || p.WriteResource?) && s.resource <= 0) ||
    ((p.WriteLock? || p.LeaveLock?) && s.writeCountLock <= 0)
  }

  lemma StuckIsBlocked(s: State, t: Thread)
    requires t in s.pc
    ensures CanProceed(s, t) <==> s.pc[t] != Idle && !Failed(s.pc[t]) && !Blocked(s, s.pc[t])
  {
  }

  /** With readerCountLock taken, its holder can move, or it awaits a writer inside, which can. */
  lemma CountLockHolderMoves(s: State) returns (u: Thread)
    requires Inv(s) && NoFailure(s) && s.readerCountLock == 0
    ensures CanProceed(s, u)
  {
    TallyRoles(s.pc);
    u := CountWitness(s.pc, HasCountLock);
    if !CanProceed(s, u) {
      CountPositive(s.pc, u, FirstReader);
      u := CountWitness(s.pc, WriterInside);
    }
  }

  /** A reader at the gate can move, or readerCountLock is taken and its holder leads on. */
  lemma GateReaderMoves(s: State) returns (u: Thread)
    requires Inv(s) && NoFailure(s) && Count(s.pc, HasGate) > 0
    ensures CanProceed(s, u)
  {
    TallyRoles(s.pc);
    if s.readerCountLock == 0 {
      u := CountLockHolderMoves(s);
    } else {
      u := CountWitness(s.pc, HasGate);
      if !CanProceed(s, u) {
        CountPositive(s.pc, u, HasCountLock);
        assert false;
      }
    }
  }

  lemma WriteLockHolderMoves(s: State) returns (u: Thread)
    requires Inv(s) && NoFailure(s) && s.writeCountLock == 0
    ensures CanProceed(s, u)
  {
    TallyRoles(s.pc);
    u := CountWitness(s.pc, HasWriteLock);
    if !CanProceed(s, u) {
      CountPositive(s.pc, u, FirstWriter);
      u := GateReaderMoves(s);
    }
  }

  /** When resource is taken, a writer inside or some reader that counts can move. */
  lemma ResourceHolderMoves(s: State) returns (u: Thread)
    requires Inv(s) && NoFailure(s) && s.resource == 0
    ensures CanProceed(s, u)
  {
    if s.readerCountLock == 0 {
      u := CountLockHolderMoves(s);
    } else if Count(s.pc, WriterInside) > 0 {
      u := CountWitness(s.pc, WriterInside);
    } else {
      u := CountedReaderMoves(s);
    }
  }

  lemma CountedReaderMoves(s: State) returns (u: Thread)
    requires Inv(s) && NoFailure(s) && s.resource == 0 && s.readerCountLock > 0 && Count(s.pc, WriterInside) == 0
    ensures CanProceed(s, u)
  {
    TallyRoles(s.pc);
    u := CountWitness(s.pc, CountedReader);
    StuckIsBlocked(s, u);
    if s.pc[u].ReadResource? {
      CountPositive(s.pc, u, HasCountLock);
      assert false;
    }
  }

  lemma WriterMoves(s: State, t: Thread) returns (u: Thread)
    requires Inv(s) && NoFailure(s) && t in s.pc && CountedWriter(s.pc[t])
    ensures CanProceed(s, u)
  {
    u := t;
    StuckIsBlocked(s, t);
    if Blocked(s, s.pc[t]) {
      if s.pc[t].WriteResource? {
        u := ResourceHolderMoves(s);
      } else if s.pc[t].WriteGate? {
        WriteLockIsTaken(s, t);
        u := WriteLockHolderMoves(s);
      } else {
        u := WriteLockHolderMoves(s);
      }
    }
  }

  lemma WriteLockIsTaken(s: State, t: Thread)
    requires Inv(s) && t in s.pc && HasWriteLock(s.pc[t])
    ensures s.writeCountLock == 0
  {
    CountPositive(s.pc, t, HasWriteLock);
  }

  /** When readerGate is taken, a reader passing it or a writer that counts leads on. */
  lemma GateHolderMoves(s: State) returns (u: Thread)
    requires Inv(s) && NoFailure(s) && s.readerGate == 0
    ensures CanProceed(s, u)
  {
    TallyRoles(s.pc);
    if Count(s.pc, HasGate) > 0 {
      u := GateReaderMoves(s);
    } else if Count(s.pc, LastWriter) > 0 {
      u := CountWitness(s.pc, LastWriter);
    } else {
      u := CountWitness(s.pc, CountedWriter);
      u := WriterMoves(s, u);
    }
  }

  /** No deadlock: in a reachable state with a thread inside a call, and no failed call, some thread can proceed. */
  lemma NeverStuck(r: seq<State>, i: nat, t: Thread)
    requires Run(r) && i < |r| && t in r[i].pc && r[i].pc[t] != Idle && NoFailure(r[i])
    ensures exists u :: CanProceed(r[i], u)
  {
    RunInv(r, i);
    var s := r[i];
    TallyRoles(s.pc);
    if !CanProceed(s, t) {
      var u;
      match s.pc[t]
      case ReadGate => u := GateHolderMoves(s);
      case ReadCountLock => u := CountLockHolderMoves(s);
      case Reading => u := CountLockHolderMoves(s);
      case ReadResource => u := ResourceHolderMoves(s);
      case WriteLock => u := WriteLockHolderMoves(s);
      case WriteGate => u := GateHolderMoves(s);
      case WriteResource => u := ResourceHolderMoves(s);
      case LeaveLock => u := WriteLockHolderMoves(s);
    }
  }

  /** The gate is closed: taken by the first writer and not yet reopened by the last. */
  ghost predicate GateClosed(s: State) { MembersHold(WriterTally(s.pc)) }

  lemma ClosedGateStep(s: State, t: Thread, a: Action)
    requires Inv(s) && GateClosed(s) && Enabled(s, t, a)
    ensures Where(Next(s, t, a).pc, ReaderInside) <= Where(s.pc, ReaderInside)
  {
    ClosedGateIsFree(s, t);
    StepPc(s, t, a);
    InsideStep(s, t, a);
  }

  lemma ClosedGateIsFree(s: State, t: Thread)
    requires Inv(s) && GateClosed(s) && t in s.pc
    ensures !HasGate(s.pc[t])
  {
    TallyRoles(s.pc);
    if HasGate(s.pc[t]) {
      CountPositive(s.pc, t, HasGate);
      assert false;
    }
  }

  /** Nobody gets inside but past the gate. */
  lemma InsideStep(s: State, t: Thread, a: Action)
    requires Enabled(s, t, a) && !HasGate(s.pc[t])
    ensures ReaderInside(Target(s, t, a)) ==> ReaderInside(s.pc[t])
  {
  }

  /** Writer priority: from any point where the writers hold the gate until the last of them
      reopens it, readers inside only leave. */
  lemma {:induction false} WriterPriority(r: seq<State>, i: nat, j: nat)
    requires Run(r) && i <= j < |r|
    requires forall k :: i <= k < j ==> GateClosed(r[k])
    ensures Where(r[j].pc, ReaderInside) <= Where(r[i].pc, ReaderInside)
    decreases j
  {
    if i < j {
      WriterPriority(r, i, j - 1);
      RunInv(r, j - 1);
      assert StepAfter(r, j - 1);
      var t, a :| Enabled(r[j - 1], t, a) && r[j] == Next(r[j - 1], t, a);
      ClosedGateStep(r[j - 1], t, a);
    }
  }

  // --- exactly when it keeps its promises: failed calls -----------------------------------------

  /** Every call has ended, normally or by an exception. */
  ghost predicate Quiet(s: State) {
    forall t :: t in s.pc ==> s.pc[t] == Idle || Failed(s.pc[t])
  }

  /** When every call has ended the lock is as it was built if and only if none of them failed. */
  lemma Quiescent(r: seq<State>, i: nat)
    requires Run(r) && i < |r| && Quiet(r[i])
    ensures AsBuilt(r[i]) <==> NoFailure(r[i])
  {
    RunInv(r, i);
    var s := r[i];
    if NoFailure(s) {
      IdleTally(s.pc);
    } else {
      FailedIsCounted(s.pc);
    }
  }

  ghost predicate Stuck(s: State) {
    (exists t :: t in s.pc && s.pc[t] != Idle && !Failed(s.pc[t])) && forall u :: !CanProceed(s, u)
  }

  ghost predicate PlainStep(s: State, s': State) {
    exists t, a :: a != Interrupt && Enabled(s, t, a) && s' == Next(s, t, a)
  }

  /** r' goes on from r with nothing interrupted. */
  ghost predicate GoesOn(r: seq<State>, r': seq<State>) {
    r != [] && Run(r') && |r| <= |r'| && r'[..|r|] == r &&
    forall k: nat {:trigger PlainAfter(r', k)} :: |r| - 1 <= k && k + 1 < |r'| ==> PlainAfter(r', k)
  }

  ghost predicate PlainAfter(r: seq<State>, k: nat)
    requires k + 1 < |r|
  {
    PlainStep(r[k], r[k + 1])
  }

  lemma PlainStepFailsNobody(s: State, t: Thread, a: Action)
    requires Enabled(s, t, a) && a != Interrupt && NoFailure(s)
    ensures NoFailure(Next(s, t, a))
  {
    StepPc(s, t, a);
  }

  lemma {:induction false} NobodyFailsLater(r: seq<State>, r': seq<State>, k: nat)
    requires GoesOn(r, r') && NoFailure(r[|r| - 1]) && |r| - 1 <= k < |r'|
    ensures NoFailure(r'[k])
    decreases k
  {
    if k == |r| - 1 {
      assert r'[k] == r'[..|r|][k];
    } else {
      NobodyFailsLater(r, r', k - 1);
      assert PlainAfter(r', k - 1);
      var t, a :| a != Interrupt && Enabled(r'[k - 1], t, a) && r'[k] == Next(r'[k - 1], t, a);
      PlainStepFailsNobody(r'[k - 1], t, a);
    }
  }

  /** From a moment at which every call has ended, the lock can get stuck without any further interrupt if and only if
      some call had failed: an interrupted acquire of the gate, of resource by a writer, or of a lock in a release. */
  lemma StuckIffFailed(r: seq<State>, t: Thread)
    requires Run(r) && Quiet(r[|r| - 1]) && t in r[|r| - 1].pc && r[|r| - 1].pc[t] == Idle
    ensures (exists r' :: GoesOn(r, r') && Stuck(r'[|r'| - 1])) <==> !NoFailure(r[|r| - 1])
  {
    if NoFailure(r[|r| - 1]) {
      forall r': seq<State> | GoesOn(r, r') ensures !Stuck(r'[|r'| - 1]) {
        var last := |r'| - 1;
        NobodyFailsLater(r, r', last);
        if u :| u in r'[last].pc && r'[last].pc[u] != Idle {
          NeverStuck(r', last, u);
        }
      }
    } else {
      var r' := StuckRun(r, t);
    }
  }

  /** t makes one step more. */
  lemma OneMore(r: seq<State>, r': seq<State>, t: Thread, a: Action) returns (r'': seq<State>)
    requires GoesOn(r, r') && a != Interrupt && Enabled(r'[|r'| - 1], t, a)
    ensures GoesOn(r, r'') && r'' == r' + [Next(r'[|r'| - 1], t, a)]
  {
    r'' := r' + [Next(r'[|r'| - 1], t, a)];
    forall k: nat | k + 1 < |r''| ensures StepAfter(r'', k) && (|r| - 1 <= k ==> PlainAfter(r'', k)) {
      if k + 1 < |r'| {
        assert StepAfter(r', k);
        assert |r| - 1 <= k ==> PlainAfter(r', k);
      }
    }
    assert r''[..|r|] == r'[..|r|];
  }

  lemma OnlyOneInACall(s: State, s': State, t: Thread)
    requires Quiet(s) && t in s.pc && t in s'.pc && s'.pc == s.pc[t := s'.pc[t]]
    requires s'.pc[t] != Idle && !Failed(s'.pc[t]) && Blocked(s', s'.pc[t])
    ensures Stuck(s')
  {
    forall u ensures !CanProceed(s', u) {
      if u in s'.pc { StuckIsBlocked(s', u); }
    }
  }

  /** The next reader finds the gate taken for good, or the next writer the writers' lock, or resource. */
  lemma StuckRun(r: seq<State>, t: Thread) returns (r': seq<State>)
    requires Run(r) && Quiet(r[|r| - 1]) && t in r[|r| - 1].pc && r[|r| - 1].pc[t] == Idle && !NoFailure(r[|r| - 1])
    ensures GoesOn(r, r') && Stuck(r'[|r'| - 1])
  {
    var s := r[|r| - 1];
    QuietRun(r);
    if s.writeCountLock == 0 {
      r' := CallRun(r, t, CallWrite);
    } else if s.readerGate == 0 {
      r' := CallRun(r, t, CallRead);
    } else {
      r' := WriterRun(r, t);
    }
  }

  /** A call that finds its first semaphore taken for good. */
  lemma CallRun(r: seq<State>, t: Thread, a: Action) returns (r': seq<State>)
    requires Run(r) && Quiet(r[|r| - 1]) && t in r[|r| - 1].pc && r[|r| - 1].pc[t] == Idle
    requires var s := r[|r| - 1]; (a == CallWrite && s.writeCountLock == 0) || (a == CallRead && s.readerGate == 0)
    ensures GoesOn(r, r') && Stuck(r'[|r'| - 1])
  {
    r' := OneMore(r, r, t, a);
    OnlyOneInACall(r[|r| - 1], r'[|r'| - 1], t);
  }

  lemma QuietRun(r: seq<State>)
    requires Run(r) && Quiet(r[|r| - 1])
    ensures var s := r[|r| - 1];
            0 <= s.writeCountLock <= 1 && 0 <= s.readerGate <= 1 &&
            (s.writeCountLock == 1 && s.readerGate == 1 ==> s.writerCount == 0 && (NoFailure(s) || s.resource == 0))
  {
    RunInv(r, |r| - 1);
    QuietTally(r[|r| - 1]);
  }

  /** A writer alone gets as far as resource. */
  lemma WriterRun(r: seq<State>, t: Thread) returns (r': seq<State>)
    requires Run(r) && Quiet(r[|r| - 1]) && t in r[|r| - 1].pc && r[|r| - 1].pc[t] == Idle
    requires var s := r[|r| - 1]; s.writeCountLock == s.readerGate == 1 && s.writerCount == s.resource == 0
    ensures GoesOn(r, r') && Stuck(r'[|r'| - 1])
  {
    var s := r[|r| - 1];
    WriterSteps(s, t);
    r' := OneMore(r, r, t, CallWrite);
    r' := OneMore(r, r', t, Proceed);
    assert r'[|r'| - 1] == AtBump(s, t);
    r' := OneMore(r, r', t, Proceed);
    r' := OneMore(r, r', t, Proceed);
    assert r'[|r'| - 1] == PastGate(s, t);
    r' := OneMore(r, r', t, Proceed);
    OnlyOneInACall(s, r'[|r'| - 1], t);
  }

  ghost function AtBump(s: State, t: Thread): State { s.(writeCountLock := 0, pc := s.pc[t := WriteBump]) }

  ghost function PastGate(s: State, t: Thread): State {
    AtBump(s, t).(writerCount := 1, readerGate := 0, pc := s.pc[t := WriteDropLock])
  }

  lemma WriterSteps(s: State, t: Thread)
    requires t in s.pc && s.pc[t] == Idle && s.writeCountLock == s.readerGate == 1 && s.writerCount == s.resource == 0
    ensures var called := Next(s, t, CallWrite); Enabled(called, t, Proceed) && Next(called, t, Proceed) == AtBump(s, t)
    ensures Enabled(AtBump(s, t), t, Proceed)
    ensures var bumped := Next(AtBump(s, t), t, Proceed);
            Enabled(bumped, t, Proceed) && Next(bumped, t, Proceed) == PastGate(s, t)
    ensures Enabled(PastGate(s, t), t, Proceed)
    ensures var waits := Next(PastGate(s, t), t, Proceed);
            waits.pc == s.pc[t := WriteResource] && Blocked(waits, WriteResource)
  {
    var called := Next(s, t, CallWrite);
    assert called.pc[t := WriteBump] == s.pc[t := WriteBump];
    var bumped := Next(AtBump(s, t), t, Proceed);
    assert bumped.pc[t := WriteDropLock] == s.pc[t := WriteDropLock];
    assert PastGate(s, t).pc[t := WriteResource] == s.pc[t := WriteResource];
  }

  /** What failed calls still hold once all others have ended. */
  lemma QuietTally(s: State)
    requires Inv(s) && Quiet(s)
    ensures s.writeCountLock == 1 && s.readerGate == 1 ==> s.writerCount == 0 && (NoFailure(s) || s.resource == 0)
    ensures 0 <= s.writeCountLock <= 1 && 0 <= s.readerGate <= 1
  {
    QuietRoles(s.pc);
    QuietNumbers(s, ReaderTally(s.pc), WriterTally(s.pc));
    FailedIsCounted(s.pc);
  }

  lemma QuietRoles(pc: map<Thread, PC>)
    requires forall t :: t in pc ==> pc[t] == Idle || Failed(pc[t])
    ensures var y, z := ReaderTally(pc), WriterTally(pc);
            Roles(y) && Roles(z) && y.first == y.last == z.last == z.solo == 0
  {
    CountNone(pc, LastReader);
    CountNone(pc, FirstReader);
    CountNone(pc, LastWriter);
    CountNone(pc, HasGate);
    TallyRoles(pc);
  }

  /** Members that nobody speaks for any more, the first having taken the shared semaphore, keep it. */
  lemma QuietNumbers(s: State, y: Tally, z: Tally)
    requires Switch(s.readerCountLock, s.readerCount, s.resource, y) && Roles(y) && y.first == y.last == 0
    requires Switch(s.writeCountLock, s.writerCount, s.readerGate, z) && Roles(z) && z.last == z.solo == 0
    ensures 0 <= s.writeCountLock <= 1 && 0 <= s.readerGate <= 1
    ensures s.writeCountLock == s.readerGate == 1 ==> s.writerCount == z.counted == 0
    ensures y.counted > 0 ==> s.resource == 0
  {
  }

  /** Every failed call is still counted on its side. */
  lemma FailedIsCounted(pc: map<Thread, PC>)
    ensures (exists t :: t in pc && Failed(pc[t])) ==> ReaderTally(pc).counted > 0 || WriterTally(pc).counted > 0
  {
    if t :| t in pc && Failed(pc[t]) {
      if pc[t].FailedRead? {
        CountPositive(pc, t, CountedReader);
      } else {
        CountPositive(pc, t, CountedWriter);
      }
    }
  }

  // --- a call goes through: with nobody else in the middle of one ---------------------------------

  /** The four methods; each is a way from one standing to another. */
  datatype Method = AcquireRead | ReleaseRead | AcquireWrite | ReleaseWrite

  function StartOf(m: Method): PC {
    match m
    case ReleaseRead => Reading
    case ReleaseWrite => Writing
    case _ => Idle
  }

  function EndOf(m: Method): PC {
    match m
    case AcquireRead => Reading
    case AcquireWrite => Writing
    case _ => Idle
  }

  /** In the middle of the method, or about to do its first operation, with no exception under way. */
  predicate Inside(m: Method, p: PC) {
    match m
    case AcquireRead =>
      p.ReadGate? || p.ReadCountLock? || p.ReadBump? || p.ReadResource? ||
      p == ReadDropLock(true) || p == ReadDropGate(true)
    case ReleaseRead => p.Reading? || p.ReadLeave? || p.ReadFree? || p.ReadLeaveDrop?
    case AcquireWrite => p.WriteLock? || p.WriteBump? || p.WriteGate? || p.WriteDropLock? || p.WriteResource?
    case ReleaseWrite => p.Writing? || p.LeaveLock? || p.LeaveDec? || p.LeaveGate? || p.LeaveDrop?
  }

  /** At most so many operations are left of the method. */
  function Ahead(p: PC): nat {
    match p
    case ReadGate => 6
    case ReadCountLock | WriteLock | Writing => 5
    case ReadBump | Reading | WriteBump | LeaveLock => 4
    case ReadResource | ReadLeave | WriteGate | LeaveDec => 3
    case ReadDropLock(_) | ReadFree | WriteDropLock | LeaveGate => 2
    case _ => 1
  }

  /** Whatever the other threads do, every operation of a method is one fewer until its end. */
  lemma OneFewerAhead(s: State, t: Thread, m: Method)
    requires CanProceed(s, t) && Inside(m, s.pc[t])
    ensures var q := Target(s, t, Proceed);
            q == EndOf(m) || (Inside(m, q) && Ahead(q) < Ahead(s.pc[t]))
  {
  }

  /** Nobody is in t's way: all others are outside, or inside reading while t reads too. */
  ghost predicate Clear(pc: map<Thread, PC>, t: Thread, m: Method) {
    forall u :: u in pc && u != t ==> pc[u] == Idle || (pc[u] == Reading && (m.AcquireRead? || m.ReleaseRead?))
  }

  /** The tallies when only t is in the middle of a method and readers are the others inside. */
  lemma ClearTally(pc: map<Thread, PC>, t: Thread, m: Method) returns (readers: nat)
    requires t in pc && Clear(pc, t, m)
    ensures WriterTally(pc) == WriterWeight(pc[t])
    ensures ReaderTally(pc) == WithReaders(ReaderWeight(pc[t]), readers)
    ensures m.AcquireWrite? || m.ReleaseWrite? ==> readers == 0
  {
    var rest := pc[t := Idle];
    assert rest[t := pc[t]] == pc;
    readers := Count(rest, CountedReader);
    RestTally(rest);
    if m.AcquireWrite? || m.ReleaseWrite? { CountNone(rest, CountedReader); }
    ReaderShift(rest, t, pc[t]);
    WriterShift(rest, t, pc[t]);
    ShiftFromIdle(ReaderTally(rest), ReaderWeight(pc[t]));
    ShiftFromIdle(WriterTally(rest), WriterWeight(pc[t]));
  }

  /** A tally with that many more counted. */
  function WithReaders(y: Tally, readers: int): Tally { y.(counted := y.counted + readers) }

  lemma ShiftFromIdle(y: Tally, w: Tally)
    ensures ReaderWeight(Idle) == WriterWeight(Idle) == Tally(0, 0, 0, 0, 0, 0)
    ensures Shift(Tally(0, y.counted, 0, 0, 0, 0), Tally(0, 0, 0, 0, 0, 0), w) == WithReaders(w, y.counted)
  {
  }

  lemma RestTally(pc: map<Thread, PC>)
    requires forall u :: u in pc ==> pc[u] == Idle || pc[u] == Reading
    ensures ReaderTally(pc) == Tally(0, Count(pc, CountedReader), 0, 0, 0, 0)
    ensures WriterTally(pc) == Tally(0, 0, 0, 0, 0, 0)
  {
    OnlyReading(pc);
    ClearOfWriters(pc);
  }

  lemma OnlyReading(pc: map<Thread, PC>)
    requires forall u :: u in pc ==> pc[u] == Idle || pc[u] == Reading
    ensures ReaderTally(pc) == Tally(0, Count(pc, CountedReader), 0, 0, 0, 0)
  {
    CountNone(pc, HasCountLock);
    CountNone(pc, FirstReader);
    CountNone(pc, LastReader);
    CountNone(pc, Bumping);
    CountNone(pc, WriterInside);
  }

  lemma ClearOfWriters(pc: map<Thread, PC>)
    requires forall u :: u in pc ==> pc[u] == Idle || pc[u] == Reading
    ensures WriterTally(pc) == Tally(0, 0, 0, 0, 0, 0)
  {
    CountNone(pc, HasWriteLock);
    CountNone(pc, CountedWriter);
    CountNone(pc, FirstWriter);
    CountNone(pc, LastWriter);
    CountNone(pc, WriterBumping);
    CountNone(pc, HasGate);
  }

  /** Then t's next operation is possible. */
  lemma ClearGoesOn(s: State, t: Thread, m: Method)
    requires Inv(s) && t in s.pc && Inside(m, s.pc[t]) && Clear(s.pc, t, m)
    ensures CanProceed(s, t)
  {
    var readers := ClearTally(s.pc, t, m);
    FreeByTally(s.readerCountLock, s.readerCount, s.resource, ReaderTally(s.pc));
    FreeByTally(s.writeCountLock, s.writerCount, s.readerGate, WriterTally(s.pc));
    AcquiringWeights(s.pc[t], readers);
    InsideIsBlockedOnly(m, s.pc[t]);
    StuckIsBlocked(s, t);
  }

  lemma InsideIsBlockedOnly(m: Method, p: PC)
    requires Inside(m, p)
    ensures p != Idle && !Failed(p) && (p.WriteResource? ==> m.AcquireWrite?)
  {
  }

  /** Nobody counts as holding the lock, or the shared semaphore. */
  predicate LockFree(y: Tally) { y.lock == 0 }
  predicate SharedFree(y: Tally) { y.solo == y.last == 0 && (y.counted == 0 || y.first > 0) }

  lemma FreeByTally(lock: int, count: int, shared: int, y: Tally)
    requires Switch(lock, count, shared, y)
    ensures LockFree(y) ==> lock == 1
    ensures SharedFree(y) ==> shared == 1
  {
  }

  /** Who is about to acquire a semaphore does not count as holding it. */
  lemma AcquiringWeights(p: PC, readers: nat)
    ensures p.ReadGate? || p.WriteGate? ==> SharedFree(WriterWeight(p))
    ensures p.WriteLock? || p.LeaveLock? ==> LockFree(WriterWeight(p))
    ensures p.ReadCountLock? || p.Reading? ==> LockFree(WithReaders(ReaderWeight(p), readers))
    ensures p.ReadResource? || (p.WriteResource? && readers == 0) ==>
            SharedFree(WithReaders(ReaderWeight(p), readers))
  {
  }

  lemma OneOperation(r: seq<State>, r': seq<State>, t: Thread, m: Method) returns (r'': seq<State>)
    requires GoesOn(r, r') && var s := r'[|r'| - 1]; t in s.pc && Inside(m, s.pc[t]) && Clear(s.pc, t, m)
    ensures GoesOn(r, r'') && var (pc, pc') := (r'[|r'| - 1].pc, r''[|r''| - 1].pc);
            t in pc' && pc' == pc[t := pc'[t]] &&
            (pc'[t] == EndOf(m) || (Inside(m, pc'[t]) && Ahead(pc'[t]) < Ahead(pc[t])))
  {
    var s := r'[|r'| - 1];
    RunInv(r', |r'| - 1);
    ClearGoesOn(s, t, m);
    OneFewerAhead(s, t, m);
    StepPc(s, t, Proceed);
    r'' := OneMore(r, r', t, Proceed);
    assert r''[|r''| - 1] == Next(s, t, Proceed);
  }

  lemma {:induction false} RestOfCall(r: seq<State>, r': seq<State>, t: Thread, m: Method) returns (r'': seq<State>)
    requires GoesOn(r, r') && var s := r'[|r'| - 1]; t in s.pc && Inside(m, s.pc[t]) && Clear(s.pc, t, m)
    ensures GoesOn(r, r'') && r''[|r''| - 1].pc == r'[|r'| - 1].pc[t := EndOf(m)]
    decreases Ahead(r'[|r'| - 1].pc[t])
  {
    var pc := r'[|r'| - 1].pc;
    r'' := OneOperation(r, r', t, m);
    var pc' := r''[|r''| - 1].pc;
    if pc'[t] != EndOf(m) {
      r'' := RestOfCall(r, r'', t, m);
      assert pc'[t := EndOf(m)] == pc[t := EndOf(m)];
    }
  }

  /** Readers share: with any number of others inside reading, a read call gets inside beside them, and a reader leaves
      the others inside. A write call with everybody outside gets inside, and a writer leaves. */
  lemma CallGoesThrough(r: seq<State>, t: Thread, m: Method) returns (r': seq<State>)
    requires Run(r) && t in r[|r| - 1].pc && r[|r| - 1].pc[t] == StartOf(m) && Clear(r[|r| - 1].pc, t, m)
    ensures GoesOn(r, r') && r'[|r'| - 1].pc == r[|r| - 1].pc[t := EndOf(m)]
  {
    var s := r[|r| - 1];
    if m.AcquireRead? || m.AcquireWrite? {
      var a := if m.AcquireRead? then CallRead else CallWrite;
      var called := OneMore(r, r, t, a);
      StepPc(s, t, a);
      r' := RestOfCall(r, called, t, m);
      assert s.pc[t := Target(s, t, a)][t := EndOf(m)] == s.pc[t := EndOf(m)];
    } else {
      r' := RestOfCall(r, r, t, m);
    }
  }

  lemma SideIsKept(s: State, u: Thread, a: Action, t: Thread)
    requires Enabled(s, u, a) && t in s.pc && s.pc[t] != Idle && Next(s, u, a).pc[t] != Idle
    ensures InWriter(Next(s, u, a).pc[t]) <==> InWriter(s.pc[t])
  {
    StepPc(s, u, a);
  }

  /** Whatever the others do, a thread that came to read takes no step of a writer until it is out again, and one that
      came to write none of a reader. */
  lemma {:induction false} KeepsToItsSide(r: seq<State>, i: nat, j: nat, t: Thread, a: Action)
    requires Run(r) && i < j < |r| && Enabled(r[i], t, a) && r[i + 1] == Next(r[i], t, a)
    requires a == CallRead || a == CallWrite
    requires forall k :: i < k <= j ==> t in r[k].pc && r[k].pc[t] != Idle
    ensures InWriter(r[j].pc[t]) <==> a == CallWrite
    decreases j
  {
    StepPc(r[i], t, a);
    if j > i + 1 {
      KeepsToItsSide(r, i, j - 1, t, a);
      assert StepAfter(r, j - 1);
      var u, b :| Enabled(r[j - 1], u, b) && r[j] == Next(r[j - 1], u, b);
      SideIsKept(r[j - 1], u, b, t);
    }
  }
}
