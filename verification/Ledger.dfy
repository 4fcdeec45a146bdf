/**
 Concurrent transfers as a step system: every lock operation and every single load or store of
 a balance is its own transition, so only the locks keep two transfers from mixing.
 Amounts are exact, counted in units fine enough for every Decimal in play.
 */
module Ledger {
  import opened Basics
  import opened Counting

  type Thread = nat
  type Id = int

  datatype Transfer = Transfer(src: Id, dst: Id, amount: int)

  /** Where a thread stands: each name is the operation it is about to perform. */
  datatype PC =
    | Idle
    | LockFirst(x: Transfer) | LockSecond(x: Transfer)
    | Check(x: Transfer)
    | DebitLoad(x: Transfer) | DebitStore(x: Transfer, loaded: int)
    | CreditLoad(x: Transfer) | CreditStore(x: Transfer, loaded: int)
    | UnlockSecond(x: Transfer) | UnlockFirst(x: Transfer)

  datatype State = State(balance: map<Id, int>, lock: map<Id, Option<Thread>>, pc: map<Thread, PC>)

  /** The account locks are taken in ascending id order. */
  function First(x: Transfer): Id { if x.src < x.dst then x.src else x.dst }
  function Second(x: Transfer): Id { if x.src < x.dst then x.dst else x.src }

  /** What transfer accepts; anything else raises before a lock is touched. */
  predicate Accepted(s: State, x: Transfer) {
    x.src != x.dst && x.amount > 0 && x.src in s.balance && x.dst in s.balance
  }

  predicate Accounts(s: State) { s.lock.Keys == s.balance.Keys }

  predicate Enabled(s: State, t: Thread) {
    t in s.pc && !s.pc[t].Idle? && Accounts(s) && Accepted(s, s.pc[t].x) &&
    (s.pc[t].LockFirst? ==> s.lock[First(s.pc[t].x)] == None) &&
    (s.pc[t].LockSecond? ==> s.lock[Second(s.pc[t].x)] == None)
  }

  function Next(s: State, t: Thread): State
    requires Enabled(s, t)
  {
    var x := s.pc[t].x;
    match s.pc[t]
    case LockFirst(_) => s.(lock := s.lock[First(x) := Some(t)], pc := s.pc[t := LockSecond(x)])
    case LockSecond(_) => s.(lock := s.lock[Second(x) := Some(t)], pc := s.pc[t := Check(x)])
    case Check(_) => s.(pc := s.pc[t := if s.balance[x.src] < x.amount then UnlockSecond(x) else DebitLoad(x)])
    case DebitLoad(_) => s.(pc := s.pc[t := DebitStore(x, s.balance[x.src])])
    case DebitStore(_, v) => s.(balance := s.balance[x.src := v - x.amount], pc := s.pc[t := CreditLoad(x)])
    case CreditLoad(_) => s.(pc := s.pc[t := CreditStore(x, s.balance[x.dst])])
    case CreditStore(_, v) => s.(balance := s.balance[x.dst := v + x.amount], pc := s.pc[t := UnlockSecond(x)])
    case UnlockSecond(_) => s.(lock := s.lock[Second(x) := None], pc := s.pc[t := UnlockFirst(x)])
    case UnlockFirst(_) => s.(lock := s.lock[First(x) := None], pc := s.pc[t := Idle])
  }

  ghost predicate StepBy(s: State, s': State, t: Thread) {
    (t in s.pc && s.pc[t].Idle? && exists x :: Accepted(s, x) && s' == s.(pc := s.pc[t := LockFirst(x)])) ||
    (Enabled(s, t) && s' == Next(s, t))
  }

  ghost predicate Step(s: State, s': State) { exists t :: StepBy(s, s', t) }

  ghost predicate Init(s: State) {
    Accounts(s) && (forall id :: id in s.lock ==> s.lock[id] == None) && forall t :: t in s.pc ==> s.pc[t] == Idle
  }

  ghost predicate StepAfter(r: seq<State>, i: nat)
    requires i + 1 < |r|
  {
    Step(r[i], r[i + 1])
  }

  ghost predicate Run(r: seq<State>) {
    |r| > 0 && Init(r[0]) && forall i: nat {:trigger StepAfter(r, i)} :: i + 1 < |r| ==> StepAfter(r, i)
  }

  // --- the invariant ----------------------------------------------------------------------

  predicate HoldsSecond(p: PC) {
    p.Check? || p.DebitLoad? || p.DebitStore? || p.CreditLoad? || p.CreditStore? || p.UnlockSecond?
  }

  predicate HoldsFirst(p: PC) { HoldsSecond(p) || p.LockSecond? || p.UnlockFirst? }

  predicate Holds(p: PC, id: Id) {
    (HoldsFirst(p) && id == First(p.x)) || (HoldsSecond(p) && id == Second(p.x))
  }

  /** A thread holds what its position says, and what it loaded is still the balance. */
  predicate ThreadInv(s: State, t: Thread)
    requires Accounts(s) && t in s.pc
  {
    var p := s.pc[t];
    !p.Idle? ==>
      Accepted(s, p.x) &&
      (HoldsFirst(p) ==> s.lock[First(p.x)] == Some(t)) &&
      (HoldsSecond(p) ==> s.lock[Second(p.x)] == Some(t)) &&
      (p.DebitLoad? || p.DebitStore? ==> s.balance[p.x.src] >= p.x.amount) &&
      (p.DebitStore? ==> p.loaded == s.balance[p.x.src]) &&
      (p.CreditStore? ==> p.loaded == s.balance[p.x.dst])
  }

  predicate LockInv(s: State, id: Id)
    requires Accounts(s) && id in s.lock
  {
    s.lock[id].Some? ==> s.lock[id].value in s.pc && Holds(s.pc[s.lock[id].value], id)
  }

  ghost predicate Inv(s: State) {
    Accounts(s) &&
    (forall t {:trigger ThreadInv(s, t)} :: t in s.pc ==> ThreadInv(s, t)) &&
    (forall id {:trigger LockInv(s, id)} :: id in s.lock ==> LockInv(s, id))
  }

  lemma StepInv(s: State, s': State, t: Thread)
    requires Inv(s) && StepBy(s, s', t)
    ensures Inv(s') && s'.balance.Keys == s.balance.Keys
  {
    assert ThreadInv(s, t);
    StepOwn(s, s', t);
    forall u | u in s'.pc ensures ThreadInv(s', u) {
      if u != t { OthersKept(s, s', t, u); }
    }
    forall id | id in s'.lock ensures LockInv(s', id) {
      assert LockInv(s, id);
      if !s.pc[t].Idle? {
        assert LockInv(s, First(s.pc[t].x)) && LockInv(s, Second(s.pc[t].x));
      }
    }
  }

  lemma StepOwn(s: State, s': State, t: Thread)
    requires Inv(s) && StepBy(s, s', t)
    ensures Accounts(s') && ThreadInv(s', t)
  {
    assert ThreadInv(s, t);
  }

  /** The locks keep every other thread's position true: two holders of one account are one thread. */
  lemma OthersKept(s: State, s': State, t: Thread, u: Thread)
    requires Inv(s) && StepBy(s, s', t) && u in s'.pc && u != t
    ensures Accounts(s') && ThreadInv(s', u)
  {
    assert ThreadInv(s, t) && ThreadInv(s, u);
  }

  // --- conservation -----------------------------------------------------------------------

  /** Debited but not yet credited. */
  function Carried(p: PC): int { if p.CreditLoad? || p.CreditStore? then p.x.amount else 0 }

  /** All the money there is: in the accounts and in transfers under way. */
  ghost function Money(s: State): int { Sum(s.balance, Same) + Sum(s.pc, Carried) }

  lemma StepMoney(s: State, s': State, t: Thread)
    requires Inv(s) && StepBy(s, s', t)
    ensures Money(s') == Money(s)
  {
    assert ThreadInv(s, t);
    SumUpdate(s.pc, t, s'.pc[t], Carried);
    if s.pc[t].DebitStore? {
      SumUpdate(s.balance, s.pc[t].x.src, s.pc[t].loaded - s.pc[t].x.amount, Same);
    } else if s.pc[t].CreditStore? {
      SumUpdate(s.balance, s.pc[t].x.dst, s.pc[t].loaded + s.pc[t].x.amount, Same);
    }
  }

  predicate NonNegative(s: State) { forall id :: id in s.balance ==> s.balance[id] >= 0 }

  lemma StepNonNegative(s: State, s': State, t: Thread)
    requires Inv(s) && StepBy(s, s', t) && NonNegative(s)
    ensures NonNegative(s')
  {
    assert ThreadInv(s, t);
  }

  lemma {:induction false} RunInv(r: seq<State>, i: nat)
    requires Run(r) && i < |r|
    ensures Inv(r[i]) && Money(r[i]) == Money(r[0])
    ensures NonNegative(r[0]) ==> NonNegative(r[i])
  {
    if i == 0 {
      forall t | t in r[0].pc ensures ThreadInv(r[0], t) {}
      forall id | id in r[0].lock ensures LockInv(r[0], id) {}
    } else {
      RunInv(r, i - 1);
      assert StepAfter(r, i - 1);
      var t :| StepBy(r[i - 1], r[i], t);
      StepInv(r[i - 1], r[i], t);
      StepMoney(r[i - 1], r[i], t);
      if NonNegative(r[i - 1]) { StepNonNegative(r[i - 1], r[i], t); }
    }
  }

  lemma {:induction false} NothingCarried(pc: map<Thread, PC>)
    requires forall t :: t in pc ==> Carried(pc[t]) == 0
    ensures Sum(pc, Carried) == 0
  {
    if pc != map[] {
      var t :| t in pc;
      SumRemove(pc, t, Carried);
      NothingCarried(pc - {t});
    }
  }

  /** In every run, balances plus amounts under way equal the opening total, which is the
      balances' own total whenever no transfer is between its debit and its credit; and no
      balance goes below zero if none started there. */
  lemma MoneyIsConserved(r: seq<State>, i: nat)
    requires Run(r) && i < |r|
    ensures Sum(r[i].balance, Same) + Sum(r[i].pc, Carried) == Sum(r[0].balance, Same)
    ensures (forall t :: t in r[i].pc ==> Carried(r[i].pc[t]) == 0) ==>
      Sum(r[i].balance, Same) == Sum(r[0].balance, Same)
    ensures NonNegative(r[0]) ==> NonNegative(r[i])
  {
    RunInv(r, i);
    NothingCarried(r[0].pc);
    if forall t :: t in r[i].pc ==> Carried(r[i].pc[t]) == 0 {
      NothingCarried(r[i].pc);
    }
  }

  // --- atomicity --------------------------------------------------------------------------

  /** What t's position says of its two accounts, given their balances when it came to hold both. */
  predicate Progress(p: PC, src: int, dst: int, src': int, dst': int) {
    match p
    case Check(_) => src' == src && dst' == dst
    case DebitLoad(x) => src' == src >= x.amount && dst' == dst
    case DebitStore(x, _) => src' == src >= x.amount && dst' == dst
    case CreditLoad(x) => src' == src - x.amount >= 0 && dst' == dst
    case CreditStore(x, _) => src' == src - x.amount >= 0 && dst' == dst
    case UnlockSecond(x) =>
      if src < x.amount then src' == src && dst' == dst
      else src' == src - x.amount && dst' == dst + x.amount
    case _ => true
  }

  /** No other thread changes the accounts t holds. */
  lemma OthersLeave(s: State, s': State, u: Thread, t: Thread)
    requires Inv(s) && StepBy(s, s', u) && u != t && t in s.pc && HoldsSecond(s.pc[t])
    ensures s'.pc[t] == s.pc[t]
    ensures Accepted(s, s.pc[t].x)
    ensures s'.balance[s.pc[t].x.src] == s.balance[s.pc[t].x.src]
    ensures s'.balance[s.pc[t].x.dst] == s.balance[s.pc[t].x.dst]
  {
    assert ThreadInv(s, t) && ThreadInv(s, u);
  }

  /** t's transfer x stands where its accounts' balances say it stands. */
  ghost predicate At(s: State, t: Thread, x: Transfer, src: int, dst: int) {
    t in s.pc && HoldsSecond(s.pc[t]) && s.pc[t].x == x && Accepted(s, x) &&
    Progress(s.pc[t], src, dst, s.balance[x.src], s.balance[x.dst])
  }

  lemma StepKeepsAt(s: State, s': State, u: Thread, t: Thread, x: Transfer, src: int, dst: int)
    requires Inv(s) && StepBy(s, s', u) && At(s, t, x, src, dst)
    requires t in s'.pc && HoldsSecond(s'.pc[t])
    ensures At(s', t, x, src, dst)
  {
    assert ThreadInv(s, t);
    StepInv(s, s', u);
    if u != t {
      OthersLeave(s, s', u, t);
    }
  }

  ghost predicate HoldsBoth(r: seq<State>, k: nat, t: Thread)
    requires k < |r|
  {
    t in r[k].pc && HoldsSecond(r[k].pc[t])
  }

  /** A transfer is all or nothing: from the moment it holds both accounts until it lets go of the
      first of them, whatever the others do, its accounts change by exactly its debit and credit,
      or not at all when the money is short. */
  lemma {:induction false} TransferIsAtomic(r: seq<State>, i: nat, j: nat, t: Thread, x: Transfer)
    requires Run(r) && i <= j < |r|
    requires forall k: nat {:trigger HoldsBoth(r, k, t)} :: i <= k <= j ==> HoldsBoth(r, k, t)
    requires t in r[i].pc && r[i].pc[t] == Check(x) && Accepted(r[i], x)
    ensures At(r[j], t, x, r[i].balance[x.src], r[i].balance[x.dst])
    decreases j
  {
    if i < j {
      TransferIsAtomic(r, i, j - 1, t, x);
      assert HoldsBoth(r, j, t);
      RunInv(r, j - 1);
      assert StepAfter(r, j - 1);
      var u :| StepBy(r[j - 1], r[j], u);
      StepKeepsAt(r[j - 1], r[j], u, t, x, r[i].balance[x.src], r[i].balance[x.dst]);
    }
  }

  // --- no deadlock ------------------------------------------------------------------------

  /** A thread that holds one lock and waits for its second. */
  ghost predicate Halfway(s: State, t: Thread) { t in s.pc && s.pc[t].LockSecond? }

  /** Of the threads waiting for their second lock, one whose first lock has the greatest id. */
  lemma {:induction false} Topmost(s: State, ts: set<Thread>) returns (t: Thread)
    requires ts != {} && forall u :: u in ts ==> Halfway(s, u)
    ensures t in ts && Halfway(s, t)
    ensures forall u :: u in ts ==> Halfway(s, u) && First(s.pc[u].x) <= First(s.pc[t].x)
    decreases |ts|
  {
    t :| t in ts;
    if ts != {t} {
      var u := Topmost(s, ts - {t});
      t := if First(s.pc[u].x) > First(s.pc[t].x) then u else t;
    }
  }

  /** Whoever holds a lock can move, or waits for a second lock with a greater id. */
  lemma HolderMoves(s: State, id: Id) returns (u: Thread)
    requires Inv(s) && id in s.lock && s.lock[id].Some?
    ensures u in s.pc && !s.pc[u].Idle? && s.lock[id] == Some(u)
    ensures Enabled(s, u) || (Halfway(s, u) && First(s.pc[u].x) == id)
  {
    u := s.lock[id].value;
    assert LockInv(s, id);
    assert ThreadInv(s, u);
  }

  /** Follow the waiting from t to a thread that can move: second locks only ever lead upwards. */
  lemma Mover(s: State, t: Thread) returns (u: Thread)
    requires Inv(s) && t in s.pc && !s.pc[t].Idle?
    ensures Enabled(s, u)
  {
    assert ThreadInv(s, t);
    var half := set v | v in s.pc && Halfway(s, v);
    if Enabled(s, t) {
      u := t;
    } else if half == {} {
      u := HolderMoves(s, First(s.pc[t].x));
      assert Halfway(s, u) <==> u in half;
    } else {
      var top := Topmost(s, half);
      assert ThreadInv(s, top);
      if Enabled(s, top) {
        u := top;
      } else {
        u := HolderMoves(s, Second(s.pc[top].x));
        assert Halfway(s, u) <==> u in half;
      }
    }
  }

  /** In every reachable state with a transfer pending, some transfer can take a step. */
  lemma NeverStuck(r: seq<State>, i: nat, t: Thread)
    requires Run(r) && i < |r| && t in r[i].pc && !r[i].pc[t].Idle?
    ensures exists u :: Enabled(r[i], u)
  {
    RunInv(r, i);
    var u := Mover(r[i], t);
  }

  /** Another thread's transfer holds the account. */
  ghost predicate TakenFrom(s: State, t: Thread, id: Id) {
    id in s.lock && s.lock[id].Some? && s.lock[id].value != t && s.lock[id].value in s.pc &&
    Holds(s.pc[s.lock[id].value], id)
  }

  /** A transfer waits for nothing but an account of its own that another transfer holds: transfers of other accounts
      never delay it. */
  lemma WaitsOnlyForItsAccounts(r: seq<State>, i: nat, t: Thread) returns (id: Id)
    requires Run(r) && i < |r| && t in r[i].pc && !r[i].pc[t].Idle? && !Enabled(r[i], t)
    ensures (id == r[i].pc[t].x.src || id == r[i].pc[t].x.dst) && TakenFrom(r[i], t, id)
  {
    RunInv(r, i);
    var s := r[i];
    assert ThreadInv(s, t);
    id := if s.pc[t].LockFirst? then First(s.pc[t].x) else Second(s.pc[t].x);
    assert LockInv(s, id) && !Holds(s.pc[t], id);
  }

  // --- every transfer that should start can, and ends with its outcome ----------------------------

  /** In any state, whatever is under way, a thread outside can begin a transfer exactly when it names two different
      known accounts and a positive amount. */
  lemma StartsIff(s: State, t: Thread, x: Transfer)
    requires t in s.pc && s.pc[t].Idle?
    ensures (exists s' :: StepBy(s, s', t) && t in s'.pc && s'.pc[t] == LockFirst(x)) <==>
            x.src != x.dst && x.amount > 0 && x.src in s.balance && x.dst in s.balance
  {
    if Accepted(s, x) {
      assert StepBy(s, s.(pc := s.pc[t := LockFirst(x)]), t);
    }
  }

  lemma {:induction false} SameAccounts(r: seq<State>, i: nat)
    requires Run(r) && i < |r|
    ensures r[i].balance.Keys == r[0].balance.Keys
  {
    if i > 0 {
      SameAccounts(r, i - 1);
      RunInv(r, i - 1);
      assert StepAfter(r, i - 1);
      var t :| StepBy(r[i - 1], r[i], t);
      StepInv(r[i - 1], r[i], t);
    }
  }

  /** So in every run any transfer between two accounts of the opening state can begin at any time. */
  lemma TransferCanStart(r: seq<State>, i: nat, t: Thread, x: Transfer)
    requires Run(r) && i < |r| && t in r[i].pc && r[i].pc[t].Idle?
    requires x.src != x.dst && x.amount > 0 && x.src in r[0].balance && x.dst in r[0].balance
    ensures exists s' :: StepBy(r[i], s', t) && t in s'.pc && s'.pc[t] == LockFirst(x)
  {
    SameAccounts(r, i);
    StartsIff(r[i], t, x);
  }

  ghost predicate AllIdle(s: State) { forall t :: t in s.pc ==> s.pc[t] == Idle }

  ghost predicate Alone(s: State, t: Thread) {
    t in s.pc && forall u :: u in s.pc && u != t ==> s.pc[u] == Idle
  }

  /** The balances t's transfer leaves, if nobody else moves. */
  function Outcome(s: State, p: PC): map<Id, int>
    requires !p.Idle? ==> p.x.src in s.balance && p.x.dst in s.balance
  {
    match p
    case Idle => s.balance
    case UnlockSecond(_) => s.balance
    case UnlockFirst(_) => s.balance
    case CreditLoad(x) => s.balance[x.dst := s.balance[x.dst] + x.amount]
    case CreditStore(x, _) => s.balance[x.dst := s.balance[x.dst] + x.amount]
    case _ => if s.balance[p.x.src] < p.x.amount then s.balance else Transferred(s.balance, p.x)
  }

  function Transferred(balance: map<Id, int>, x: Transfer): map<Id, int>
    requires x.src in balance && x.dst in balance
  {
    balance[x.src := balance[x.src] - x.amount][x.dst := balance[x.dst] + x.amount]
  }

  function StepsLeft(p: PC): nat {
    match p
    case Idle => 0
    case UnlockFirst(_) => 1
    case UnlockSecond(_) => 2
    case CreditStore(_, _) => 3
    case CreditLoad(_) => 4
    case DebitStore(_, _) => 5
    case DebitLoad(_) => 6
    case Check(_) => 7
    case LockSecond(_) => 8
    case LockFirst(_) => 9
  }

  lemma AloneSteps(s: State, t: Thread)
    requires Inv(s) && Alone(s, t) && !s.pc[t].Idle?
    ensures Enabled(s, t) && Alone(Next(s, t), t) && Inv(Next(s, t))
    ensures StepsLeft(Next(s, t).pc[t]) < StepsLeft(s.pc[t]) && Next(s, t).pc == s.pc[t := Next(s, t).pc[t]]
  {
    assert ThreadInv(s, t);
    assert LockInv(s, First(s.pc[t].x)) && LockInv(s, Second(s.pc[t].x));
    assert Enabled(s, t);
    StepInv(s, Next(s, t), t);
  }

  lemma OutcomeStays(s: State, t: Thread)
    requires Inv(s) && Enabled(s, t)
    ensures var s' := Next(s, t);
            (!s'.pc[t].Idle? ==> Accepted(s', s'.pc[t].x)) && Outcome(s', s'.pc[t]) == Outcome(s, s.pc[t])
  {
    assert ThreadInv(s, t);
  }

  ghost predicate Continues(r: seq<State>, r': seq<State>) {
    r != [] && Run(r') && |r| <= |r'| && r'[..|r|] == r
  }

  lemma RunStep(r: seq<State>, r': seq<State>, s: State, t: Thread)
    requires Continues(r, r') && StepBy(r'[|r'| - 1], s, t)
    ensures Continues(r, r' + [s])
  {
    var r'' := r' + [s];
    forall k: nat | k + 1 < |r''| ensures StepAfter(r'', k) {
      if k + 1 < |r'| { assert StepAfter(r', k); }
    }
    assert r''[..|r|] == r'[..|r|];
  }

  lemma {:induction false} RestOfTransfer(r: seq<State>, r': seq<State>, t: Thread) returns (r'': seq<State>)
    requires Continues(r, r') && Alone(r'[|r'| - 1], t) && Inv(r'[|r'| - 1])
    ensures var s := r'[|r'| - 1]; !s.pc[t].Idle? ==> Accepted(s, s.pc[t].x)
    ensures Continues(r, r'')
    ensures var (s, s') := (r'[|r'| - 1], r''[|r''| - 1]);
            s'.pc == s.pc[t := Idle] && s'.balance == Outcome(s, s.pc[t])
    decreases StepsLeft(r'[|r'| - 1].pc[t])
  {
    var s := r'[|r'| - 1];
    assert ThreadInv(s, t);
    if s.pc[t].Idle? {
      assert s.pc[t := Idle] == s.pc;
      r'' := r';
    } else {
      AloneSteps(s, t);
      OutcomeStays(s, t);
      RunStep(r, r', Next(s, t), t);
      r'' := RestOfTransfer(r, r' + [Next(s, t)], t);
      assert Next(s, t).pc[t := Idle] == s.pc[t := Idle];
    }
  }

  /** With every thread outside, a transfer runs to its end: the amount is moved and no other balance touched, or all is
      as before when the money is short; and every lock is free again. */
  lemma TransferGoesThrough(r: seq<State>, t: Thread, x: Transfer) returns (r': seq<State>)
    requires Run(r) && AllIdle(r[|r| - 1]) && t in r[|r| - 1].pc && Accepted(r[|r| - 1], x)
    ensures Continues(r, r')
    ensures var (s, s') := (r[|r| - 1], r'[|r'| - 1]);
            s'.pc == s.pc &&
            s'.balance == (if s.balance[x.src] < x.amount then s.balance else Transferred(s.balance, x)) &&
            forall id :: id in s'.lock ==> s'.lock[id] == None
  {
    var s := r[|r| - 1];
    var called := s.(pc := s.pc[t := LockFirst(x)]);
    RunInv(r, |r| - 1);
    assert StepBy(s, called, t);
    RunStep(r, r, called, t);
    StepInv(s, called, t);
    r' := RestOfTransfer(r, r + [called], t);
    assert called.pc[t := Idle] == s.pc;
    RunInv(r', |r'| - 1);
    var s' := r'[|r'| - 1];
    forall id | id in s'.lock ensures s'.lock[id] == None {
      assert LockInv(s', id);
    }
  }
}
