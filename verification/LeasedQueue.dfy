/** The job queue with leases and bounded retries: each method is one lock-protected block, a run is any sequence of
    them. */
module LeasedQueue {
  import opened Basics

  datatype Status = Pending | Processing | Success | Failed

  /** Jobs are numbered from 0 in the order they were submitted, and none is ever removed. */
  datatype Job = Job(payload: string, status: Status, claimedAt: Option<real>, attempts: nat, result: string)

  datatype Policy = Policy(lease: real, maxAttempts: int)

  datatype Op =
    | Submit(payload: string)
    | Claim(now: real)
    | Complete(id: nat, result: string)
    | Fail(id: nat)
    | SweepStuck(now: real)

  function Requeued(p: Policy, job: Job): Job {
    if job.attempts >= p.maxAttempts then job.(status := Failed) else job.(status := Pending, claimedAt := None)
  }

  predicate LeaseIsOver(p: Policy, job: Job, now: real) {
    job.status == Processing && job.claimedAt.Some? && now - job.claimedAt.value >= p.lease
  }

  function Swept(p: Policy, job: Job, now: real): Job {
    if LeaseIsOver(p, job, now) then Requeued(p, job) else job
  }

  function Claimed(job: Job, now: real): Job {
    job.(status := Processing, claimedAt := Some(now), attempts := job.attempts + 1)
  }

  /** id is the pending job submitted first. */
  ghost predicate IsNext(jobs: seq<Job>, id: nat) {
    id < |jobs| && jobs[id].status == Pending && forall i :: 0 <= i < id ==> jobs[i].status != Pending
  }

  /** What an operation makes of job id. An operation that names an unknown id raises KeyError and changes no job. */
  ghost function Becomes(p: Policy, jobs: seq<Job>, op: Op, id: nat): Job
    requires id < |jobs|
  {
    match op
    case Submit(_) => jobs[id]
    case Claim(now) => if IsNext(jobs, id) then Claimed(jobs[id], now) else jobs[id]
    case Complete(i, result) => if i == id then jobs[id].(status := Success, result := result) else jobs[id]
    case Fail(i) => if i == id then Requeued(p, jobs[id]) else jobs[id]
    case SweepStuck(now) => Swept(p, jobs[id], now)
  }

  function NewJob(payload: string): Job { Job(payload, Pending, None, 0, "") }

  ghost predicate Step(p: Policy, jobs: seq<Job>, op: Op, jobs': seq<Job>) {
    |jobs'| == |jobs| + (if op.Submit? then 1 else 0) &&
    (forall id: nat {:trigger jobs'[id]} :: id < |jobs| ==> jobs'[id] == Becomes(p, jobs, op, id)) &&
    (op.Submit? ==> jobs'[|jobs|] == NewJob(op.payload))
  }

  // --- runs -----------------------------------------------------------------------------------

  /** The reading the operation makes, if it makes one; otherwise the last one. */
  function ClockAfter(clock: real, op: Op): real {
    if op.Claim? || op.SweepStuck? then op.now else clock
  }

  /** States before and after each operation, from no jobs, with the clock before each. */
  datatype Run = Run(ops: seq<Op>, jobs: seq<seq<Job>>, clock: seq<real>)

  ghost predicate StepAt(p: Policy, r: Run, i: nat)
    requires |r.jobs| == |r.clock| == |r.ops| + 1 && i < |r.ops|
  {
    Step(p, r.jobs[i], r.ops[i], r.jobs[i + 1]) &&
    r.clock[i] <= r.clock[i + 1] == ClockAfter(r.clock[i], r.ops[i])
  }

  ghost predicate IsRun(p: Policy, r: Run) {
    |r.jobs| == |r.clock| == |r.ops| + 1 && r.jobs[0] == [] && forall i :: 0 <= i < |r.ops| ==> StepAt(p, r, i)
  }

  /** Operation i hands job id to a worker. */
  ghost predicate Claims(r: Run, i: nat, id: nat)
    requires |r.jobs| == |r.clock| == |r.ops| + 1 && i < |r.ops|
  {
    r.ops[i].Claim? && IsNext(r.jobs[i], id)
  }

  ghost function ClaimCount(r: Run, k: nat, id: nat): nat
    requires |r.jobs| == |r.clock| == |r.ops| + 1 && k <= |r.ops|
  {
    if k == 0 then 0 else ClaimCount(r, k - 1, id) + if Claims(r, k - 1, id) then 1 else 0
  }

  ghost function Attempts(jobs: seq<Job>, id: nat): nat {
    if id < |jobs| then jobs[id].attempts else 0
  }

  ghost predicate WithinAttempts(p: Policy, job: Job) {
    (job.status == Pending ==> job.attempts == 0 || job.attempts < p.maxAttempts) &&
    (job.status == Processing ==> job.attempts >= 1) &&
    (job.attempts <= 1 || job.attempts <= p.maxAttempts)
  }

  lemma {:induction false} CountsAgree(p: Policy, r: Run, k: nat, id: nat)
    requires IsRun(p, r) && k <= |r.ops|
    ensures id < |r.jobs[k]| ==> WithinAttempts(p, r.jobs[k][id])
    ensures ClaimCount(r, k, id) == Attempts(r.jobs[k], id)
  {
    if k > 0 {
      CountsAgree(p, r, k - 1, id);
      assert StepAt(p, r, k - 1);
      if id < |r.jobs[k]| {
        assert id < |r.jobs[k - 1]| ==> r.jobs[k][id] == Becomes(p, r.jobs[k - 1], r.ops[k - 1], id);
      }
    }
  }

  /** Whatever the workers and the monitor do, a job is handed out at most max_attempts times, or once if that is
      less. */
  lemma BoundedClaims(p: Policy, r: Run, k: nat, id: nat)
    requires IsRun(p, r) && k <= |r.ops|
    ensures ClaimCount(r, k, id) <= if p.maxAttempts < 1 then 1 else p.maxAttempts
  {
    CountsAgree(p, r, k, id);
  }

  /** What a claim of job id at time t leaves true until a fail of that job. */
  ghost predicate Held(p: Policy, jobs: seq<Job>, clock: real, id: nat, t: real) {
    id < |jobs| &&
    (clock >= t + p.lease || jobs[id].status == Success ||
     (jobs[id].status == Processing && jobs[id].claimedAt == Some(t)))
  }

  lemma StepHolds(p: Policy, jobs: seq<Job>, clock: real, op: Op, jobs': seq<Job>, id: nat, t: real)
    requires Step(p, jobs, op, jobs') && clock <= ClockAfter(clock, op)
    requires Held(p, jobs, clock, id, t) && !(op.Fail? && op.id == id)
    ensures Held(p, jobs', ClockAfter(clock, op), id, t)
  {
    assert jobs'[id] == Becomes(p, jobs, op, id);
  }

  lemma {:induction false} HeldUntil(p: Policy, r: Run, i: nat, j: nat, id: nat)
    requires IsRun(p, r) && i < j <= |r.ops| && Claims(r, i, id)
    requires forall m :: i < m < j ==> !(r.ops[m].Fail? && r.ops[m].id == id)
    ensures Held(p, r.jobs[j], r.clock[j], id, r.ops[i].now)
    decreases j
  {
    assert StepAt(p, r, j - 1);
    if j == i + 1 {
      assert r.jobs[j][id] == Becomes(p, r.jobs[i], r.ops[i], id);
    } else {
      HeldUntil(p, r, i, j - 1, id);
      StepHolds(p, r.jobs[j - 1], r.clock[j - 1], r.ops[j - 1], r.jobs[j], id, r.ops[i].now);
    }
  }

  /** Two claims of one job with no fail of it between them are at least a lease apart. */
  lemma ClaimsAreALeaseApart(p: Policy, r: Run, i: nat, j: nat, id: nat)
    requires IsRun(p, r) && i < j < |r.ops| && Claims(r, i, id) && Claims(r, j, id)
    requires forall m :: i < m < j ==> !(r.ops[m].Fail? && r.ops[m].id == id)
    ensures r.ops[j].now - r.ops[i].now >= p.lease
  {
    HeldUntil(p, r, i, j, id);
    assert StepAt(p, r, j);
  }

  // --- exactly when a fail lets the job out again within the lease -------------------------------

  ghost function Outcome(p: Policy, jobs: seq<Job>, op: Op): seq<Job> {
    seq(|jobs|, i requires 0 <= i < |jobs| => Becomes(p, jobs, op, i)) + if op.Submit? then [NewJob(op.payload)] else []
  }

  /** The run with one operation more. */
  ghost function Extended(p: Policy, r: Run, op: Op): Run
    requires |r.jobs| == |r.clock| == |r.ops| + 1
  {
    var n := |r.ops|;
    Run(r.ops + [op], r.jobs + [Outcome(p, r.jobs[n], op)], r.clock + [ClockAfter(r.clock[n], op)])
  }

  ghost predicate Continues(p: Policy, r: Run, r': Run) {
    IsRun(p, r) && IsRun(p, r') && r.ops <= r'.ops && r.jobs <= r'.jobs && r.clock <= r'.clock
  }

  lemma ExtendedIsRun(p: Policy, r: Run, op: Op)
    requires IsRun(p, r) && r.clock[|r.ops|] <= ClockAfter(r.clock[|r.ops|], op)
    ensures Continues(p, r, Extended(p, r, op))
  {
    var r' := Extended(p, r, op);
    forall i | 0 <= i < |r'.ops| ensures StepAt(p, r', i) {
      if i < |r.ops| { assert StepAt(p, r, i); }
    }
  }

  ghost function PendingBefore(jobs: seq<Job>, id: nat): nat
    requires id <= |jobs|
  {
    if id == 0 then 0 else PendingBefore(jobs, id - 1) + if jobs[id - 1].status == Pending then 1 else 0
  }

  /** Claiming the first pending job leaves one fewer before any later one. */
  lemma {:induction false} OneFewerPending(jobs: seq<Job>, first: nat, now: real, id: nat)
    requires IsNext(jobs, first) && first < id <= |jobs|
    ensures PendingBefore(jobs[first := Claimed(jobs[first], now)], id) == PendingBefore(jobs, id) - 1
    decreases id
  {
    var jobs' := jobs[first := Claimed(jobs[first], now)];
    if id == first + 1 {
      SamePending(jobs, jobs', first);
    } else {
      OneFewerPending(jobs, first, now, id - 1);
    }
  }

  lemma {:induction false} SamePending(jobs: seq<Job>, jobs': seq<Job>, id: nat)
    requires id <= |jobs| == |jobs'| && forall i :: 0 <= i < id ==> jobs'[i] == jobs[i]
    ensures PendingBefore(jobs', id) == PendingBefore(jobs, id)
  {
    if id > 0 {
      SamePending(jobs, jobs', id - 1);
    }
  }

  lemma FirstPending(jobs: seq<Job>, id: nat) returns (first: nat)
    requires id < |jobs| && jobs[id].status == Pending
    ensures first <= id && IsNext(jobs, first)
  {
    first := 0;
    while jobs[first].status != Pending
      invariant first <= id && forall i :: 0 <= i < first ==> jobs[i].status != Pending
      decreases id - first
    {
      first := first + 1;
    }
  }

  /** A pending job is handed out, at the time of the last reading, after as many claims as it takes to reach it. */
  lemma {:induction false} ClaimUntil(p: Policy, r: Run, id: nat) returns (r': Run)
    requires IsRun(p, r) && id < |r.jobs[|r.ops|]| && r.jobs[|r.ops|][id].status == Pending
    ensures Continues(p, r, r') && |r'.ops| > |r.ops| && Claims(r', |r'.ops| - 1, id)
    ensures r'.ops[|r'.ops| - 1].now == r.clock[|r.ops|]
    decreases PendingBefore(r.jobs[|r.ops|], id)
  {
    var jobs, now := r.jobs[|r.ops|], r.clock[|r.ops|];
    var first := FirstPending(jobs, id);
    ExtendedIsRun(p, r, Claim(now));
    r' := Extended(p, r, Claim(now));
    if first < id {
      var jobs' := Outcome(p, jobs, Claim(now));
      OnlyFirstClaimed(p, jobs, first, now);
      OneFewerPending(jobs, first, now, id);
      r' := ClaimUntil(p, r', id);
    }
  }

  lemma OnlyFirstClaimed(p: Policy, jobs: seq<Job>, first: nat, now: real)
    requires IsNext(jobs, first)
    ensures Outcome(p, jobs, Claim(now)) == jobs[first := Claimed(jobs[first], now)]
  {
    assert jobs[first].status == Pending;
    forall i: nat | i < |jobs| ensures IsNext(jobs, i) <==> i == first {
      assert i < first ==> jobs[i].status != Pending;
    }
  }

  /** The run goes on with a fail of the job and, within the lease of its last claim, another claim of it. */
  ghost predicate Reclaims(p: Policy, r: Run, r': Run, id: nat, j: nat) {
    Continues(p, r, r') && r.ops != [] && r.ops[|r.ops| - 1].Claim? && |r.ops| < j < |r'.ops| &&
    r'.ops[|r.ops|] == Fail(id) && Claims(r', j, id) && r'.ops[j].now - r.ops[|r.ops| - 1].now < p.lease
  }

  /** From a claim of a job: a fail lets it out again within the lease exactly when it has attempts left, and a
      lease. */
  lemma ReclaimedIff(p: Policy, r: Run, id: nat)
    requires IsRun(p, r) && r.ops != [] && Claims(r, |r.ops| - 1, id)
    ensures (exists r', j :: Reclaims(p, r, r', id, j)) <==>
            Attempts(r.jobs[|r.ops|], id) < p.maxAttempts && p.lease > 0.0
  {
    var n := |r.ops|;
    assert StepAt(p, r, n - 1);
    assert r.jobs[n][id] == Becomes(p, r.jobs[n - 1], r.ops[n - 1], id);
    forall r', j | Reclaims(p, r, r', id, j)
      ensures Attempts(r.jobs[n], id) < p.maxAttempts && p.lease > 0.0
    {
      CountsAgree(p, r', n, id);
      CountsAgree(p, r', j, id);
      CountGrows(r', n, j, id);
      ClockRises(p, r', n, j);
      assert StepAt(p, r', j);
    }
    if Attempts(r.jobs[n], id) < p.maxAttempts && p.lease > 0.0 {
      ExtendedIsRun(p, r, Fail(id));
      var failed := Extended(p, r, Fail(id));
      var r' := ClaimUntil(p, failed, id);
      assert Reclaims(p, r, r', id, |r'.ops| - 1);
    }
  }

  lemma {:induction false} CountGrows(r: Run, i: nat, j: nat, id: nat)
    requires |r.jobs| == |r.clock| == |r.ops| + 1 && i <= j <= |r.ops|
    ensures ClaimCount(r, i, id) <= ClaimCount(r, j, id)
    decreases j
  {
    if i < j {
      CountGrows(r, i, j - 1, id);
    }
  }

  lemma {:induction false} ClockRises(p: Policy, r: Run, i: nat, j: nat)
    requires IsRun(p, r) && i <= j <= |r.ops|
    ensures r.clock[i] <= r.clock[j]
    decreases j
  {
    if i < j {
      ClockRises(p, r, i, j - 1);
      assert StepAt(p, r, j - 1);
    }
  }

  // --- what becomes of a job --------------------------------------------------------------------

  /** A sweep takes every overdue job from its worker, and the job can be handed out again exactly when it has attempts
      left; otherwise it has failed. */
  lemma SweptComesBackIff(p: Policy, r: Run, id: nat, now: real)
    requires IsRun(p, r) && r.clock[|r.ops|] <= now
    requires id < |r.jobs[|r.ops|]| && LeaseIsOver(p, r.jobs[|r.ops|][id], now)
    ensures var (r', job) := (Extended(p, r, SweepStuck(now)), r.jobs[|r.ops|][id]);
            Continues(p, r, r') && id < |r'.jobs[|r'.ops|]| &&
            r'.jobs[|r'.ops|][id].status == (if job.attempts < p.maxAttempts then Pending else Failed) &&
            ((exists r'', j :: HandsOut(p, r', r'', id, j)) <==> job.attempts < p.maxAttempts)
  {
    var n, job := |r.ops|, r.jobs[|r.ops|][id];
    ExtendedIsRun(p, r, SweepStuck(now));
    var swept := Extended(p, r, SweepStuck(now));
    CountsAgree(p, r, n, id);
    forall r', j | HandsOut(p, swept, r', id, j) ensures job.attempts < p.maxAttempts {
      assert r'.jobs[n] == swept.jobs[n] == r.jobs[n];
      CountsAgree(p, r', n, id);
      CountsAgree(p, r', j, id);
      CountGrows(r', n, j, id);
    }
    if job.attempts < p.maxAttempts {
      var r' := ClaimUntil(p, swept, id);
      assert HandsOut(p, swept, r', id, |r'.ops| - 1);
    }
  }

  ghost predicate HandsOut(p: Policy, r: Run, r': Run, id: nat, j: nat) {
    Continues(p, r, r') && |r.ops| <= j < |r'.ops| && Claims(r', j, id)
  }

  /** A job keeps the result it was completed with until it is completed again, and counts as done until a fail of
      it. */
  lemma {:induction false} ResultIsKept(p: Policy, r: Run, i: nat, j: nat, id: nat, result: string)
    requires IsRun(p, r) && i < j <= |r.ops| && r.ops[i] == Complete(id, result) && id < |r.jobs[i]|
    requires forall m :: i < m < j ==> !(r.ops[m].Complete? && r.ops[m].id == id)
    ensures id < |r.jobs[j]| && r.jobs[j][id].result == result
    ensures (forall m :: i < m < j ==> r.ops[m] != Fail(id)) ==> r.jobs[j][id].status == Success
    decreases j
  {
    assert StepAt(p, r, j - 1);
    if j > i + 1 {
      ResultIsKept(p, r, i, j - 1, id, result);
    }
    assert r.jobs[j][id] == Becomes(p, r.jobs[j - 1], r.ops[j - 1], id);
  }

  /** A job keeps the payload it was submitted with. */
  lemma {:induction false} PayloadIsKept(p: Policy, r: Run, i: nat, j: nat)
    requires IsRun(p, r) && i < j <= |r.ops| && r.ops[i].Submit?
    ensures |r.jobs[i]| < |r.jobs[j]| && r.jobs[j][|r.jobs[i]|].payload == r.ops[i].payload
    decreases j
  {
    assert StepAt(p, r, j - 1);
    if j > i + 1 {
      PayloadIsKept(p, r, i, j - 1);
      var id := |r.jobs[i]|;
      assert r.jobs[j][id] == Becomes(p, r.jobs[j - 1], r.ops[j - 1], id);
    }
  }

  /** For instance: a job that was failed with attempts left is claimed again at once. */
  lemma FailedJobIsClaimedAtOnce()
    ensures var p := Policy(30.0, 3);
            exists r :: IsRun(p, r) && |r.ops| == 4 && Claims(r, 1, 0) && Claims(r, 3, 0) &&
                        r.ops[3].now == r.ops[1].now
  {
    var p := Policy(30.0, 3);
    var fresh0 := NewJob("");
    var taken, again := Claimed(fresh0, 0.0), Claimed(fresh0, 0.0).(status := Pending, claimedAt := None);
    var r := Run([Submit(""), Claim(0.0), Fail(0), Claim(0.0)],
                 [[], [fresh0], [taken], [again], [Claimed(again, 0.0)]],
                 [0.0, 0.0, 0.0, 0.0, 0.0]);
    assert StepAt(p, r, 0);
    assert IsNext(r.jobs[1], 0) && StepAt(p, r, 1);
    assert StepAt(p, r, 2);
    assert IsNext(r.jobs[3], 0) && StepAt(p, r, 3);
    assert IsRun(p, r);
  }

  // --- the class ------------------------------------------------------------------------------

  /** One row, shared with the worker that claims it. */
  class JobRow {
    const id: nat
    const payload: string
    var status: Status
    var claimedAt: Option<real>
    var attempts: nat
    var result: string

    ghost function Row(): Job
      reads this
    {
      Job(payload, status, claimedAt, attempts, result)
    }

    constructor (id: nat, payload: string)
      ensures this.id == id && Row() == NewJob(payload)
    {
      this.id, this.payload, status, claimedAt, attempts, result := id, payload, Pending, None, 0, "";
    }
  }

  class LeasedQueue {
    const policy: Policy
    var jobs: seq<JobRow>

    ghost predicate Valid()
      reads this
    {
      Distinct(jobs) && forall i :: 0 <= i < |jobs| ==> jobs[i].id == i
    }

    ghost function Rows(): (rows: seq<Job>)
      reads this, jobs
      ensures |rows| == |jobs| && forall i :: 0 <= i < |jobs| ==> rows[i] == jobs[i].Row()
    {
      seq(|jobs|, i requires 0 <= i < |jobs| reads this, jobs => jobs[i].Row())
    }

    constructor (policy: Policy)
      ensures Valid() && this.policy == policy && Rows() == []
    {
      this.policy, jobs := policy, [];
    }

    method SubmitJob(payload: string) returns (id: nat)
      requires Valid()
      modifies this
      ensures Valid() && Step(policy, old(Rows()), Submit(payload), Rows()) && id == |old(jobs)|
      ensures old(jobs) <= jobs && fresh(jobs[id])
    {
      id := |jobs|;
      var job := new JobRow(id, payload);
      jobs := jobs + [job];
    }

    /** The row submitted first of those pending, taken for the caller; null when there is none. */
    method ClaimJob(now: real) returns (job: JobRow?)
      requires Valid()
      modifies jobs
      ensures Step(policy, old(Rows()), Claim(now), Rows())
      ensures job != null ==> job.id < |jobs| && jobs[job.id] == job && IsNext(old(Rows()), job.id)
      ensures job == null ==> forall i :: 0 <= i < |jobs| ==> jobs[i].status != Pending
    {
      for i := 0 to |jobs|
        invariant Rows() == old(Rows())
        invariant forall k :: 0 <= k < i ==> jobs[k].status != Pending
      {
        job := jobs[i];
        if job.status == Pending {
          assert IsNext(old(Rows()), i);
          job.status := Processing;
          job.claimedAt := Some(now);
          job.attempts := job.attempts + 1;
          assert Rows()[i] == Claimed(old(Rows())[i], now);
          return;
        }
      }
      return null;
    }

    method CompleteJob(id: nat, result: string) returns (ok: bool)
      requires Valid()
      modifies jobs
      ensures Step(policy, old(Rows()), Complete(id, result), Rows()) && (ok <==> id < |jobs|)
    {
      ok := id < |jobs|;
      if ok {
        jobs[id].status := Success;
        jobs[id].result := result;
      }
    }

    /** _requeue_or_fail */
    method RequeueOrFail(job: JobRow)
      modifies job
      ensures job.Row() == Requeued(policy, old(job.Row()))
    {
      if job.attempts >= policy.maxAttempts {
        job.status := Failed;
      } else {
        job.status := Pending;
        job.claimedAt := None;
      }
    }

    method FailJob(id: nat) returns (ok: bool)
      requires Valid()
      modifies jobs
      ensures Step(policy, old(Rows()), Fail(id), Rows()) && (ok <==> id < |jobs|)
    {
      ok := id < |jobs|;
      if ok {
        RequeueOrFail(jobs[id]);
      }
    }

    /** Afterwards no job is in the hands of a worker whose lease is over, and acted says how many were. */
    method SweepStuckJobs(now: real) returns (acted: nat)
      requires Valid()
      modifies jobs
      ensures Step(policy, old(Rows()), SweepStuck(now), Rows())
      ensures forall i :: 0 <= i < |jobs| ==> !LeaseIsOver(policy, jobs[i].Row(), now)
      ensures acted == OverdueAmong(policy, old(Rows()), now)
    {
      ghost var rows := Rows();
      acted := 0;
      for i := 0 to |jobs|
        invariant forall k :: 0 <= k < i ==> jobs[k].Row() == Swept(policy, rows[k], now)
        invariant forall k :: i <= k < |jobs| ==> jobs[k].Row() == rows[k]
        invariant acted == OverdueAmong(policy, rows[..i], now)
      {
        assert rows[..i + 1][..i] == rows[..i];
        var job := jobs[i];
        assert forall k :: 0 <= k < |jobs| && k != i ==> jobs[k] != job;
        assert job.Row() == rows[i];
        if job.status == Processing && job.claimedAt.Some? && now - job.claimedAt.value >= policy.lease {
          RequeueOrFail(job);
          acted := acted + 1;
        }
      }
      assert rows[..|jobs|] == rows;
      SweptAll(policy, rows, Rows(), now);
      assert forall i :: 0 <= i < |jobs| ==> jobs[i].Row() == Rows()[i];
    }
  }

  lemma SweptAll(p: Policy, jobs: seq<Job>, jobs': seq<Job>, now: real)
    requires |jobs'| == |jobs| && forall i :: 0 <= i < |jobs| ==> jobs'[i] == Swept(p, jobs[i], now)
    ensures Step(p, jobs, SweepStuck(now), jobs')
    ensures forall i :: 0 <= i < |jobs| ==> !LeaseIsOver(p, jobs'[i], now)
  {
  }

  ghost function OverdueAmong(p: Policy, jobs: seq<Job>, now: real): nat {
    if jobs == [] then 0
    else OverdueAmong(p, jobs[..|jobs| - 1], now) + if LeaseIsOver(p, jobs[|jobs| - 1], now) then 1 else 0
  }
}
