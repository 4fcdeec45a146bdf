/** The token bucket of the synchronous and the locked tiers. Clock readings are real arguments that never decrease. */
module TokenBucket {
  import opened Basics

  /** The fields of a bucket; whole tokens only, the fraction of a token being earned is the time since last. */
  datatype Bucket = Bucket(capacity: int, rate: real, tokens: int, last: real)

  ghost predicate Sound(b: Bucket) {
    0 <= b.tokens <= b.capacity && 0.0 <= b.rate
  }

  function TokensIn(elapsed: real, rate: real): int { (elapsed * rate).Floor }

  function TimeOf(earned: int, rate: real): real
    requires rate > 0.0
  {
    earned as real / rate
  }

  /** Whole tokens earned since the last credit. */
  function Earned(b: Bucket, now: real): int { TokensIn(now - b.last, b.rate) }

  lemma EarnsAtARate(b: Bucket, now: real)
    requires Sound(b) && b.last <= now
    ensures 0 <= Earned(b, now) && (Earned(b, now) > 0 ==> b.rate > 0.0)
  {
    assert (now - b.last) * b.rate >= 0.0;
  }

  /** _refill: credit what was earned, capped, and move last by the credited time only. */
  function Refill(b: Bucket, now: real): Bucket
    requires Sound(b) && b.last <= now
  {
    EarnsAtARate(b, now);
    var earned := Earned(b, now);
    if earned > 0 then b.(tokens := Min(b.capacity, b.tokens + earned), last := b.last + TimeOf(earned, b.rate))
    else b
  }

  /** One locked attempt: refill, then take all n or nothing. */
  function Attempt(b: Bucket, now: real, n: nat): (Bucket, bool)
    requires Sound(b) && b.last <= now
  {
    var r := Refill(b, now);
    if r.tokens < n then (r, false) else (r.(tokens := r.tokens - n), true)
  }

  // --- one refill ---------------------------------------------------------------------------

  lemma Credit(earned: int, rate: real)
    requires rate > 0.0
    ensures (earned as real / rate) * rate == earned as real
  {
  }

  lemma Distribute(a: real, b: real, rate: real)
    ensures (a - b) * rate == a * rate - b * rate
  {
  }

  lemma MulMono(a: real, b: real, rate: real)
    requires a <= b && 0.0 <= rate
    ensures a * rate <= b * rate
  {
  }

  /** The clock never overtakes: what remains uncredited is less than one token. */
  lemma RefillLeavesAFraction(b: Bucket, now: real)
    requires Sound(b) && b.last <= now
    ensures var r := Refill(b, now);
            Sound(r) && r.capacity == b.capacity && r.rate == b.rate &&
            b.last <= r.last <= now && 0.0 <= (now - r.last) * r.rate < 1.0 &&
            (r.last - b.last) * b.rate == Earned(b, now) as real
  {
    EarnsAtARate(b, now);
    var earned := Earned(b, now);
    if earned > 0 {
      var step := earned as real / b.rate;
      Credit(earned, b.rate);
      Distribute(now - b.last, step, b.rate);
      assert (now - b.last - step) * b.rate >= 0.0;
      if now - b.last - step < 0.0 { NegativeProduct(now - b.last - step, b.rate); }
      if step < 0.0 { NegativeProduct(step, b.rate); }
      assert now - (b.last + step) == now - b.last - step;
    }
  }

  /** What the clock earns between two readings, in tokens and fractions of tokens. */
  ghost function Gain(rate: real, s: real, t: real): real {
    rate * (t - s)
  }

  lemma GainChain(rate: real, s: real, t: real, u: real)
    ensures Gain(rate, s, u) == Gain(rate, s, t) + Gain(rate, t, u)
  {
  }

  lemma GainGrows(rate: real, s: real, t: real, u: real)
    requires 0.0 <= rate && t <= u
    ensures Gain(rate, s, t) <= Gain(rate, s, u)
  {
    MulMono(t - s, u - s, rate);
  }

  lemma NegativeProduct(x: real, rate: real)
    requires x < 0.0 < rate
    ensures x * rate < 0.0
  {
  }

  lemma UncreditedGain(b: Bucket, now: real)
    requires Sound(b) && b.last <= now
    ensures var r := Refill(b, now);
            Sound(r) && r.capacity == b.capacity && r.rate == b.rate && r.last <= now &&
            0.0 <= Gain(b.rate, r.last, now) < 1.0
  {
    RefillLeavesAFraction(b, now);
  }

  lemma FloorShift(x: real, k: int)
    ensures (x - k as real).Floor == x.Floor - k
  {
  }

  /** What one refill at t1 credits, a later reading earns less of. */
  lemma CreditedOnce(b: Bucket, t1: real, t2: real)
    requires Sound(b) && b.last <= t1 <= t2
    ensures Refill(b, t1).last <= t2 && Earned(Refill(b, t1), t2) == Earned(b, t2) - Earned(b, t1)
    ensures 0 <= Earned(b, t1) <= Earned(b, t2)
  {
    RefillLeavesAFraction(b, t1);
    EarnsAtARate(b, t1);
    var r := Refill(b, t1);
    var gone := r.last - b.last;
    Distribute(t2 - b.last, gone, b.rate);
    FloorShift((t2 - b.last) * b.rate, Earned(b, t1));
    assert t2 - r.last == t2 - b.last - gone;
    EarnsAtARate(r, t2);
  }

  /** Refilling at t1 on the way to t2 earns exactly what one refill at t2 earns, the cap included. */
  lemma RefillsCompose(b: Bucket, t1: real, t2: real)
    requires Sound(b) && b.last <= t1 <= t2
    ensures var r := Refill(b, t1); Sound(r) && r.last <= t2 && Refill(r, t2) == Refill(b, t2)
  {
    EarnsAtARate(b, t1);
    EarnsAtARate(b, t2);
    CreditedOnce(b, t1, t2);
    if Earned(b, t1) > 0 {
      SumOfQuotients(Earned(b, t1), Earned(Refill(b, t1), t2), b.rate);
    }
  }

  lemma SumOfQuotients(x: int, y: int, rate: real)
    requires rate > 0.0
    ensures TimeOf(x, rate) + TimeOf(y, rate) == TimeOf(x + y, rate)
  {
  }

  /** Many refills, at any nondecreasing readings, are the last one. */
  function Refills(b: Bucket, times: seq<real>): Bucket
    requires Sound(b) && NonDecreasing(b.last, times)
    decreases |times|
  {
    if times == [] then b
    else
      RefillLeavesAFraction(b, times[0]);
      Later(Refill(b, times[0]).last, times[0], times[1..]);
      Refills(Refill(b, times[0]), times[1..])
  }

  ghost predicate NonDecreasing(from: real, times: seq<real>) {
    (forall i :: 0 <= i < |times| ==> from <= times[i]) && forall i, j :: 0 <= i < j < |times| ==> times[i] <= times[j]
  }

  lemma Later(from: real, after: real, times: seq<real>)
    requires from <= after && NonDecreasing(after, times)
    ensures NonDecreasing(from, times)
  {
  }

  lemma {:induction false} SplitRefillsEarnTheSame(b: Bucket, times: seq<real>)
    requires Sound(b) && NonDecreasing(b.last, times) && times != []
    ensures b.last <= times[|times| - 1]
    ensures Refills(b, times) == Refill(b, times[|times| - 1])
    decreases |times|
  {
    RefillLeavesAFraction(b, times[0]);
    var r := Refill(b, times[0]);
    Later(r.last, times[0], times[1..]);
    if |times| > 1 {
      SplitRefillsEarnTheSame(r, times[1..]);
      assert times[1..][|times| - 2] == times[|times| - 1];
      RefillsCompose(b, times[0], times[|times| - 1]);
    }
  }

  // --- who is served ------------------------------------------------------------------------

  /** The bucket can pay n at a clock reading: an n within capacity, on hand or earned by then. No rounding involved. */
  ghost predicate Affords(b: Bucket, now: real, n: nat) {
    n <= b.capacity && (n <= b.tokens || Gain(b.rate, b.last, now) >= (n - b.tokens) as real)
  }

  lemma AttemptIffAffords(b: Bucket, now: real, n: nat)
    requires Sound(b) && b.last <= now
    ensures Attempt(b, now, n).1 <==> Affords(b, now, n)
  {
    EarnsAtARate(b, now);
  }

  /** Success takes n and no more: a second demand at the same reading is granted exactly when the bucket could have
      paid both at once; a later one exactly when what was on hand and earned since, the fraction included, pays
      both. */
  lemma SuccessTakesOnlyN(b: Bucket, now: real, n: nat, later: real, m: nat)
    requires Sound(b) && b.last <= now <= later && Attempt(b, now, n).1
    ensures var r := Attempt(b, now, n).0;
            Sound(r) && r.last <= now && (Attempt(r, now, m).1 <==> Affords(b, now, n + m))
    ensures var (r, k) := (Attempt(b, now, n).0, Refill(b, now));
            Attempt(r, later, m).1 <==>
            m <= b.capacity && (n + m <= k.tokens || Gain(b.rate, k.last, later) >= (n + m - k.tokens) as real)
  {
    RefillLeavesAFraction(b, now);
    RefillsCompose(b, now, now);
    var r := Attempt(b, now, n).0;
    AttemptIffAffords(b, now, n + m);
    AttemptIffAffords(r, now, m);
    AttemptIffAffords(r, later, m);
  }

  /** Failing takes nothing and costs nothing: whatever is asked later is answered as if the attempt had not been
      made. */
  lemma FailureLeavesNoTrace(b: Bucket, t1: real, n1: nat, t2: real, n2: nat)
    requires Sound(b) && b.last <= t1 <= t2 && !Attempt(b, t1, n1).1
    ensures var r := Attempt(b, t1, n1).0;
            Sound(r) && r.last <= t2 && Attempt(r, t2, n2) == Attempt(b, t2, n2) &&
            (Affords(r, t2, n2) <==> Affords(b, t2, n2))
  {
    RefillsCompose(b, t1, t2);
    AttemptIffAffords(b, t2, n2);
    AttemptIffAffords(Attempt(b, t1, n1).0, t2, n2);
  }

  /** After a failed attempt, a lone waiter for n within capacity is served at the end of its full timed wait, or
      later. */
  lemma OneTimedWaitSuffices(b: Bucket, now: real, n: nat, woken: real)
    requires Sound(b) && b.rate > 0.0 && b.last <= now && n <= b.capacity
    requires !Attempt(b, now, n).1
    requires woken >= now + Timeout(Attempt(b, now, n).0, n)
    ensures Sound(Attempt(b, now, n).0) && now <= woken && Attempt(Attempt(b, now, n).0, woken, n).1
  {
    var r := Attempt(b, now, n).0;
    UncreditedGain(b, now);
    var end := now + Timeout(r, n);
    GainOfTimeout(r, n, now);
    GainChain(r.rate, r.last, now, end);
    GainGrows(r.rate, r.last, end, woken);
    AttemptIffAffords(r, woken, n);
  }

  lemma GainOfTimeout(b: Bucket, n: nat, now: real)
    requires b.rate > 0.0 && b.tokens < n
    ensures Timeout(b, n) > 0.0 && Gain(b.rate, now, now + Timeout(b, n)) == (n - b.tokens) as real
  {
    var w := Timeout(b, n);
    Credit(n - b.tokens, b.rate);
    if w < 0.0 { NegativeProduct(w, b.rate); }
    assert now + w - now == w;
  }

  /** The wait the code asks for. */
  function Timeout(b: Bucket, n: nat): real
    requires b.rate > 0.0
  {
    (n - b.tokens) as real / b.rate
  }

  /** The estimate is not the minimum the documentation calls it: the fraction already earned could end the wait
      sooner. */
  lemma TimeoutCanBeTooLong()
    ensures var b := Bucket(1, 1.0, 0, 0.0);
            !Attempt(b, 0.5, 1).1 && Timeout(Attempt(b, 0.5, 1).0, 1) == 1.0 && Attempt(b, 1.0, 1).1 && 1.0 < 0.5 + 1.0
  {
    var b := Bucket(1, 1.0, 0, 0.0);
    assert TokensIn(0.5, 1.0) == 0;
    assert Refill(b, 0.5) == b;
    AttemptIffAffords(b, 1.0, 1);
  }

  /** Exactly when the timed wait is the least one: no fraction of a token is on its way at the failed attempt. */
  lemma TimeoutIsLeastIff(b: Bucket, now: real, n: nat)
    requires Sound(b) && b.rate > 0.0 && b.last <= now && n <= b.capacity && !Attempt(b, now, n).1
    ensures (forall early :: now <= early < now + Timeout(Attempt(b, now, n).0, n) ==> !Attempt(b, early, n).1)
       <==> Refill(b, now).last == now
  {
    var r := Attempt(b, now, n).0;
    UncreditedGain(b, now);
    var enough := r.last + Timeout(r, n);
    GainOfTimeout(r, n, r.last);
    if r.last == now {
      forall early | now <= early < enough ensures !Attempt(b, early, n).1 {
        FailureLeavesNoTrace(b, now, n, early, n);
        AttemptIffAffords(r, early, n);
        GainChain(r.rate, r.last, early, enough);
        GainIsPositive(r.rate, early, enough);
      }
    } else {
      GainChain(r.rate, r.last, now, enough);
      if enough < now { GainIsPositive(r.rate, enough, now); }
      FailureLeavesNoTrace(b, now, n, enough, n);
      AttemptIffAffords(r, enough, n);
      assert now <= enough < now + Timeout(r, n) && Attempt(b, enough, n).1;
    }
  }

  lemma GainIsPositive(rate: real, s: real, t: real)
    requires 0.0 < rate && s < t
    ensures Gain(rate, s, t) > 0.0 && Gain(rate, t, s) < 0.0
  {
    NegativeProduct(s - t, rate);
  }

  /** A timed wait overshoots the first reading that would do by less than the time of one token. */
  lemma TimeoutOvershootsByLessThanAToken(b: Bucket, now: real, n: nat, early: real)
    requires Sound(b) && b.rate > 0.0 && b.last <= now <= early
    requires !Attempt(b, now, n).1 && Attempt(b, early, n).1
    ensures Gain(b.rate, early, now + Timeout(Attempt(b, now, n).0, n)) < 1.0
  {
    var r := Attempt(b, now, n).0;
    UncreditedGain(b, now);
    FailureLeavesNoTrace(b, now, n, early, n);
    AttemptIffAffords(r, early, n);
    var end := now + Timeout(r, n);
    GainOfTimeout(r, n, now);
    GainChain(r.rate, r.last, now, end);
    GainChain(r.rate, r.last, early, end);
  }

  // --- runs ---------------------------------------------------------------------------------

  /** One attempt by some thread. A blocking acquire is one such call at each of its wakes, a try_acquire is one
      call. */
  datatype Call = Call(now: real, n: nat)

  ghost predicate Ordered(from: real, calls: seq<Call>)
    decreases |calls|
  {
    calls != [] ==> from <= calls[0].now && Ordered(calls[0].now, calls[1..])
  }

  lemma OrderedLater(from: real, after: real, calls: seq<Call>)
    requires from <= after && Ordered(after, calls)
    ensures Ordered(from, calls)
  {
  }

  lemma AttemptKeeps(b: Bucket, now: real, n: nat)
    requires Sound(b) && b.last <= now
    ensures var r := Attempt(b, now, n).0;
            Sound(r) && r.capacity == b.capacity && r.rate == b.rate && b.last <= r.last <= now
  {
    RefillLeavesAFraction(b, now);
  }

  /** The bucket after the calls, and the tokens they were granted. */
  function Run(b: Bucket, calls: seq<Call>): (Bucket, int)
    requires Sound(b) && Ordered(b.last, calls)
    decreases |calls|
  {
    if calls == [] then (b, 0)
    else
      var c := calls[0];
      AttemptKeeps(b, c.now, c.n);
      var (r, ok) := Attempt(b, c.now, c.n);
      OrderedLater(r.last, c.now, calls[1..]);
      var (end, granted) := Run(r, calls[1..]);
      (end, granted + if ok then c.n else 0)
  }

  ghost function EndTime(from: real, calls: seq<Call>): real {
    if calls == [] then from else calls[|calls| - 1].now
  }

  lemma OneAttemptIsPaid(b: Bucket, now: real, n: nat)
    requires Sound(b) && b.last <= now
    ensures var (r, ok) := Attempt(b, now, n);
            (if ok then n else 0) as real + r.tokens as real <= b.tokens as real + Gain(b.rate, b.last, r.last)
  {
    RefillLeavesAFraction(b, now);
    EarnsAtARate(b, now);
  }

  /** Tokens granted and kept are paid for by the time credited. */
  lemma {:induction false} GrantsArePaid(b: Bucket, calls: seq<Call>)
    requires Sound(b) && Ordered(b.last, calls)
    ensures var (end, granted) := Run(b, calls);
            Sound(end) && end.rate == b.rate && end.capacity == b.capacity &&
            b.last <= end.last <= EndTime(b.last, calls) &&
            granted as real + end.tokens as real <= b.tokens as real + Gain(b.rate, b.last, end.last)
    decreases |calls|
  {
    if calls != [] {
      var c := calls[0];
      AttemptKeeps(b, c.now, c.n);
      OneAttemptIsPaid(b, c.now, c.n);
      var r := Attempt(b, c.now, c.n).0;
      OrderedLater(r.last, c.now, calls[1..]);
      GrantsArePaid(r, calls[1..]);
      GainChain(b.rate, b.last, r.last, Run(r, calls[1..]).0.last);
      EndIsLater(c.now, calls[1..]);
      assert |calls| > 1 ==> calls[1..][|calls| - 2] == calls[|calls| - 1];
    }
  }

  lemma {:induction false} EndIsLater(from: real, calls: seq<Call>)
    requires Ordered(from, calls)
    ensures from <= EndTime(from, calls)
    decreases |calls|
  {
    if |calls| > 1 {
      EndIsLater(calls[0].now, calls[1..]);
    }
  }

  /** From the start, full at t0: never more than capacity + rate * (t - t0) by time t. */
  lemma GrantsFromTheStart(capacity: nat, rate: real, t0: real, calls: seq<Call>, t: real)
    requires rate >= 0.0 && Ordered(t0, calls) && EndTime(t0, calls) <= t
    ensures Run(Bucket(capacity, rate, capacity, t0), calls).1 as real <= capacity as real + Gain(rate, t0, t)
  {
    var b := Bucket(capacity, rate, capacity, t0);
    GrantsArePaid(b, calls);
    GainGrows(rate, t0, Run(b, calls).0.last, t);
  }

  /** From the first call on: what was on hand then, the gain kept since the last credit, and the gain since. */
  lemma GrantsFromWhatIsKept(b: Bucket, calls: seq<Call>, t: real)
    requires Sound(b) && Ordered(b.last, calls) && calls != [] && EndTime(b.last, calls) <= t
    ensures var (s, full) := (calls[0].now, Refill(b, calls[0].now));
            Run(b, calls).1 as real <= full.tokens as real + Gain(b.rate, full.last, s) + Gain(b.rate, s, t)
  {
    var s := calls[0].now;
    var full := Refill(b, s);
    UncreditedGain(b, s);
    RunFromRefilled(b, calls);
    GrantsArePaid(full, calls);
    var end := Run(full, calls).0;
    GainGrows(b.rate, full.last, end.last, t);
    GainChain(b.rate, full.last, s, t);
  }

  /** Over any window, whatever happened before it: fewer than capacity + rate * (t - s) + 1. */
  lemma GrantsInAWindow(b: Bucket, calls: seq<Call>, t: real)
    requires Sound(b) && Ordered(b.last, calls) && calls != [] && EndTime(b.last, calls) <= t
    ensures Run(b, calls).1 as real < b.capacity as real + Gain(b.rate, calls[0].now, t) + 1.0
  {
    UncreditedGain(b, calls[0].now);
    GrantsFromWhatIsKept(b, calls, t);
  }

  /** The first call's refill may as well have happened before the run. */
  lemma RunFromRefilled(b: Bucket, calls: seq<Call>)
    requires Sound(b) && Ordered(b.last, calls) && calls != []
    ensures var full := Refill(b, calls[0].now);
            Sound(full) && Ordered(full.last, calls) && Run(full, calls) == Run(b, calls)
  {
    RefillLeavesAFraction(b, calls[0].now);
    RefillsCompose(b, calls[0].now, calls[0].now);
  }

  ghost predicate WithinWindow(calls: seq<Call>, s: real, t: real) {
    calls != [] && calls[0].now == s && calls[|calls| - 1].now <= t
  }

  /** Whatever is asked from s on, no more than capacity and the clock's gain is granted by t. */
  ghost predicate KeepsTightBound(b: Bucket, s: real)
    requires Sound(b) && b.last <= s
  {
    forall calls: seq<Call>, t | Ordered(b.last, calls) && WithinWindow(calls, s, t) ::
      Run(b, calls).1 as real <= b.capacity as real + Gain(b.rate, s, t)
  }

  /** Exactly when the extra token is not needed: at s the bucket is not full, or no fraction is kept over a full
      one. */
  lemma TightBoundIff(b: Bucket, s: real)
    requires Sound(b) && b.last <= s && b.capacity >= 1
    ensures KeepsTightBound(b, s) <==> Refill(b, s).tokens < b.capacity || Gain(b.rate, Refill(b, s).last, s) == 0.0
  {
    UncreditedGain(b, s);
    if Refill(b, s).tokens < b.capacity || Gain(b.rate, Refill(b, s).last, s) == 0.0 {
      forall calls: seq<Call>, t | Ordered(b.last, calls) && WithinWindow(calls, s, t)
        ensures Run(b, calls).1 as real <= b.capacity as real + Gain(b.rate, s, t)
      {
        GrantsFromWhatIsKept(b, calls, t);
      }
    } else {
      BurstThenFraction(b, s);
    }
  }

  /** A full bucket with a fraction kept pays a burst of its capacity and, once the fraction is whole, one token
      more. */
  lemma BurstThenFraction(b: Bucket, s: real)
    requires Sound(b) && b.last <= s && b.capacity >= 1
    requires Refill(b, s).tokens == b.capacity && Gain(b.rate, Refill(b, s).last, s) > 0.0
    ensures !KeepsTightBound(b, s)
  {
    var full := Refill(b, s);
    UncreditedGain(b, s);
    assert b.rate > 0.0;
    var whole := full.last + TimeOf(1, b.rate);
    WholeToken(full, whole);
    GainChain(b.rate, full.last, s, whole);
    if whole < s { GainIsPositive(b.rate, whole, s); }
    var calls := [Call(s, b.capacity), Call(whole, 1)];
    BurstIsGranted(b, s, whole);
    assert WithinWindow(calls, s, whole);
  }

  lemma BurstIsGranted(b: Bucket, s: real, whole: real)
    requires Sound(b) && b.last <= s <= whole && b.capacity >= 1
    requires Refill(b, s).tokens == b.capacity && Gain(b.rate, Refill(b, s).last, whole) == 1.0
    ensures var calls := [Call(s, b.capacity), Call(whole, 1)];
            Ordered(b.last, calls) && Run(b, calls).1 == b.capacity + 1
  {
    var calls, rest := [Call(s, b.capacity), Call(whole, 1)], [Call(whole, 1)];
    assert calls[1..] == rest && rest[1..] == [];
    UncreditedGain(b, s);
    var empty := Refill(b, s).(tokens := 0);
    assert Attempt(b, s, b.capacity) == (empty, true);
    AttemptIffAffords(empty, whole, 1);
    AttemptKeeps(empty, whole, 1);
    assert Run(Attempt(empty, whole, 1).0, []).1 == 0;
    assert Run(empty, rest).1 == 1;
  }

  lemma WholeToken(b: Bucket, whole: real)
    requires b.rate > 0.0 && whole == b.last + TimeOf(1, b.rate)
    ensures Gain(b.rate, b.last, whole) == 1.0
  {
    Credit(1, b.rate);
    assert whole - b.last == TimeOf(1, b.rate);
  }

  /** Such a bucket: full at 0, with half a token's time gone by at the first call. */
  lemma WindowBoundNeedsTheExtraToken()
    ensures var b := Bucket(1, 1.0, 1, 0.0);
            var calls := [Call(0.5, 1), Call(1.0, 1)];
            Ordered(b.last, calls) && Run(b, calls).1 == 2 && 2.0 > b.capacity as real + Gain(b.rate, 0.5, 1.0)
  {
    var full, empty := Bucket(1, 1.0, 1, 0.0), Bucket(1, 1.0, 0, 0.0);
    var calls, rest := [Call(0.5, 1), Call(1.0, 1)], [Call(1.0, 1)];
    assert calls[1..] == rest && rest[1..] == [];
    assert TokensIn(0.5, 1.0) == 0;
    assert Attempt(full, 0.5, 1) == (empty, true);
    AttemptIffAffords(empty, 1.0, 1);
    AttemptKeeps(empty, 1.0, 1);
    assert Run(Attempt(empty, 1.0, 1).0, []).1 == 0;
    assert Run(empty, rest).1 == 1;
  }

  // --- waiting among other threads ----------------------------------------------------------

  /** One turn of acquire's loop: what other threads asked for while it waited, and its clock reading on waking. */
  datatype Turn = Turn(others: seq<Call>, now: real)

  /** Every call made, in order, the waiter's own attempts for n included. */
  ghost function CallsOf(turns: seq<Turn>, n: nat): seq<Call> {
    if turns == [] then [] else turns[0].others + ([Call(turns[0].now, n)] + CallsOf(turns[1..], n))
  }

  lemma {:induction false} OrderedSplit(from: real, a: seq<Call>, b: seq<Call>)
    requires Ordered(from, a + b)
    ensures Ordered(from, a) && Ordered(EndTime(from, a), b)
    decreases |a|
  {
    if a == [] {
      assert a + b == b;
    } else {
      assert (a + b)[1..] == a[1..] + b;
      OrderedSplit(a[0].now, a[1..], b);
      assert |a| > 1 ==> a[1..][|a| - 2] == a[|a| - 1];
    }
  }

  /** The calls of one turn can be made, and those of the turns after it then. */
  lemma TurnAhead(b: Bucket, turns: seq<Turn>, n: nat)
    requires Sound(b) && turns != [] && Ordered(b.last, CallsOf(turns, n))
    ensures Ordered(b.last, turns[0].others)
    ensures var found := Run(b, turns[0].others).0;
            Sound(found) && found.last <= turns[0].now && Sound(Attempt(found, turns[0].now, n).0) &&
            Ordered(turns[0].now, CallsOf(turns[1..], n)) &&
            Attempt(found, turns[0].now, n).0.last <= turns[0].now &&
            Ordered(Attempt(found, turns[0].now, n).0.last, CallsOf(turns[1..], n))
  {
    var (others, now) := (turns[0].others, turns[0].now);
    var rest := CallsOf(turns[1..], n);
    OrderedSplit(b.last, others, [Call(now, n)] + rest);
    assert ([Call(now, n)] + rest)[1..] == rest;
    GrantsArePaid(b, others);
    var found := Run(b, others).0;
    AttemptKeeps(found, now, n);
    OrderedLater(Attempt(found, now, n).0.last, now, rest);
  }

  /** The bucket that the waiter finds at turn i, all its attempts before having failed. */
  ghost function Found(b: Bucket, turns: seq<Turn>, n: nat, i: nat): Bucket
    requires Sound(b) && i < |turns| && Ordered(b.last, CallsOf(turns, n))
    decreases i
  {
    TurnAhead(b, turns, n);
    var found := Run(b, turns[0].others).0;
    if i == 0 then found else Found(Attempt(found, turns[0].now, n).0, turns[1..], n, i - 1)
  }

  /** Acquire's loop: the bucket it leaves, and the turn at which it returns, |turns| while it still waits. */
  ghost function Waiting(b: Bucket, turns: seq<Turn>, n: nat): (Bucket, nat)
    requires Sound(b) && Ordered(b.last, CallsOf(turns, n))
    decreases |turns|
  {
    if turns == [] then (b, 0)
    else
      TurnAhead(b, turns, n);
      var (r, ok) := Attempt(Run(b, turns[0].others).0, turns[0].now, n);
      if ok then (r, 0)
      else
        var (end, k) := Waiting(r, turns[1..], n);
        (end, k + 1)
  }

  /** The waiter is served at the first turn at which the bucket it finds affords n, and takes n of that bucket. */
  lemma {:induction false} ServedAtTheFirstTurn(b: Bucket, turns: seq<Turn>, n: nat)
    requires Sound(b) && Ordered(b.last, CallsOf(turns, n))
    ensures var (end, k) := Waiting(b, turns, n);
            k <= |turns| && (forall i :: 0 <= i < k ==> !Affords(Found(b, turns, n, i), turns[i].now, n)) &&
            (k < |turns| ==>
              Affords(Found(b, turns, n, k), turns[k].now, n) && Sound(Found(b, turns, n, k)) &&
              Found(b, turns, n, k).last <= turns[k].now && end == Attempt(Found(b, turns, n, k), turns[k].now, n).0)
    decreases |turns|
  {
    if turns != [] {
      TurnAhead(b, turns, n);
      var found := Run(b, turns[0].others).0;
      AttemptIffAffords(found, turns[0].now, n);
      var (r, ok) := Attempt(found, turns[0].now, n);
      if !ok {
        ServedAtTheFirstTurn(r, turns[1..], n);
        var k := Waiting(r, turns[1..], n).1;
        forall i | 0 <= i < k + 1 ensures !Affords(Found(b, turns, n, i), turns[i].now, n) {
          if i > 0 { assert turns[1..][i - 1] == turns[i]; }
        }
      }
    }
  }

  lemma {:induction false} OrderedJoin(from: real, a: seq<Call>, b: seq<Call>)
    requires Ordered(from, a) && Ordered(EndTime(from, a), b)
    ensures Ordered(from, a + b)
    decreases |a|
  {
    if a == [] {
      assert a + b == b;
    } else {
      assert (a + b)[1..] == a[1..] + b;
      assert |a| > 1 ==> a[1..][|a| - 2] == a[|a| - 1];
      OrderedJoin(a[0].now, a[1..], b);
    }
  }

  lemma {:induction false} RunThrough(b: Bucket, first: seq<Call>, more: seq<Call>)
    requires Sound(b) && Ordered(b.last, first + more)
    ensures Ordered(b.last, first) && Sound(Run(b, first).0) && Ordered(Run(b, first).0.last, more)
    ensures Run(b, first + more).0 == Run(Run(b, first).0, more).0
    decreases |first|
  {
    OrderedSplit(b.last, first, more);
    if first == [] {
      assert first + more == more;
    } else {
      var c := first[0];
      assert (first + more)[1..] == first[1..] + more;
      AttemptKeeps(b, c.now, c.n);
      var r := Attempt(b, c.now, c.n).0;
      OrderedLater(r.last, c.now, first[1..] + more);
      RunThrough(r, first[1..], more);
    }
  }

  /** So a waiting acquire is a run of calls like any other, to which the bounds on grants apply. */
  lemma {:induction false} WaitingIsARun(b: Bucket, turns: seq<Turn>, n: nat, from: real)
    requires Sound(b) && b.last <= from && Ordered(from, CallsOf(turns, n))
    ensures Ordered(b.last, CallsOf(turns, n))
    ensures var (end, k) := Waiting(b, turns, n);
            var made := CallsOf(Taken(turns, k), n);
            Ordered(from, made) && Ordered(b.last, made) && Run(b, made).0 == end
    decreases |turns|
  {
    OrderedLater(b.last, from, CallsOf(turns, n));
    if turns != [] {
      TurnAhead(b, turns, n);
      var (others, now) := (turns[0].others, turns[0].now);
      var (r, ok) := Attempt(Run(b, others).0, now, n);
      var k := Waiting(b, turns, n).1;
      var rest := if ok then [] else Taken(turns[1..], k - 1);
      if !ok {
        WaitingIsARun(r, turns[1..], n, now);
      }
      var made := Taken(turns, k);
      assert made == [turns[0]] + rest && made[1..] == rest;
      OrderedSplit(from, others, [Call(now, n)] + CallsOf(turns[1..], n));
      OrderedJoin(from, others, [Call(now, n)] + CallsOf(rest, n));
      OrderedLater(b.last, from, CallsOf(made, n));
      OneTurn(b, others, now, n, CallsOf(rest, n));
    }
  }

  /** The turns that have come, the k-th included. */
  ghost function Taken(turns: seq<Turn>, k: nat): seq<Turn> {
    if k < |turns| then turns[..k + 1] else turns
  }

  lemma OneTurn(b: Bucket, others: seq<Call>, now: real, n: nat, rest: seq<Call>)
    requires Sound(b) && Ordered(b.last, others + ([Call(now, n)] + rest))
    ensures Ordered(b.last, others)
    ensures var found := Run(b, others).0;
            Sound(found) && found.last <= now && Sound(Attempt(found, now, n).0) &&
            Ordered(Attempt(found, now, n).0.last, rest) &&
            Run(b, others + ([Call(now, n)] + rest)).0 == Run(Attempt(found, now, n).0, rest).0
  {
    RunThrough(b, others, [Call(now, n)] + rest);
    var found := Run(b, others).0;
    assert ([Call(now, n)] + rest)[1..] == rest;
    AttemptKeeps(found, now, n);
    OrderedLater(Attempt(found, now, n).0.last, now, rest);
  }

  /** With no calls of others, what counts at each wake is the bucket as it was at the start. */
  lemma {:induction false} LoneWaiterIsServedByTheStart(b: Bucket, turns: seq<Turn>, n: nat, i: nat)
    requires Sound(b) && i < |turns| && Ordered(b.last, CallsOf(turns, n))
    requires forall j :: 0 <= j < |turns| ==> turns[j].others == []
    requires forall j :: 0 <= j < i ==> !Affords(b, turns[j].now, n)
    ensures Affords(Found(b, turns, n, i), turns[i].now, n) <==> Affords(b, turns[i].now, n)
    decreases i
  {
    TurnAhead(b, turns, n);
    if i > 0 {
      AttemptIffAffords(b, turns[0].now, n);
      var r := Attempt(b, turns[0].now, n).0;
      var rest := turns[1..];
      forall j | 0 <= j < i ensures Affords(r, rest[j].now, n) <==> Affords(b, turns[j + 1].now, n) {
        TurnsRise(turns[0].now, rest, n, j);
        FailureLeavesNoTrace(b, turns[0].now, n, rest[j].now, n);
      }
      LoneWaiterIsServedByTheStart(r, rest, n, i - 1);
    }
  }

  lemma {:induction false} TurnsRise(from: real, turns: seq<Turn>, n: nat, i: nat)
    requires i < |turns| && Ordered(from, CallsOf(turns, n))
    ensures from <= turns[i].now
    decreases i
  {
    var (others, now) := (turns[0].others, turns[0].now);
    var rest := CallsOf(turns[1..], n);
    OrderedSplit(from, others, [Call(now, n)] + rest);
    EndIsLater(from, others);
    assert ([Call(now, n)] + rest)[1..] == rest;
    if i > 0 {
      TurnsRise(now, turns[1..], n, i - 1);
    }
  }

  // --- the classes --------------------------------------------------------------------------

  class SimpleTokenBucket {
    const maxCapacity: int
    const fillRate: real
    var tokens: int
    var lastRefill: real

    ghost function State(): Bucket
      reads this
    {
      Bucket(maxCapacity, fillRate, tokens, lastRefill)
    }

    constructor (maxCapacity: nat, fillRate: real, now: real)
      requires fillRate >= 0.0
      ensures Sound(State()) && State() == Bucket(maxCapacity, fillRate, maxCapacity, now)
    {
      this.maxCapacity, this.fillRate, tokens, lastRefill := maxCapacity, fillRate, maxCapacity, now;
    }

    method RefillNow(now: real)
      requires Sound(State()) && lastRefill <= now
      modifies this
      ensures Sound(State()) && State() == Refill(old(State()), now) && lastRefill <= now
    {
      RefillLeavesAFraction(State(), now);
      EarnsAtARate(State(), now);
      var earned := TokensIn(now - lastRefill, fillRate);
      if earned > 0 {
        tokens := Min(maxCapacity, tokens + earned);
        lastRefill := lastRefill + TimeOf(earned, fillRate);
      }
    }

    method TryAcquire(now: real, n: nat) returns (ok: bool)
      requires Sound(State()) && lastRefill <= now
      modifies this
      ensures Sound(State()) && lastRefill <= now
      ensures (State(), ok) == Attempt(old(State()), now, n)
      ensures ok <==> Affords(old(State()), now, n)
    {
      AttemptIffAffords(State(), now, n);
      RefillNow(now);
      if tokens < n {
        return false;
      }
      tokens := tokens - n;
      return true;
    }
  }

  /** The locked tier. Its bookkeeping is the simple tier's; each method below but Acquire is one lock-protected
      block. */
  class ConcurrentTokenBucket {
    const bucket: SimpleTokenBucket

    constructor (maxCapacity: nat, fillRate: real, now: real)
      requires fillRate >= 0.0
      ensures fresh(bucket) && Sound(bucket.State())
      ensures bucket.State() == Bucket(maxCapacity, fillRate, maxCapacity, now)
    {
      bucket := new SimpleTokenBucket(maxCapacity, fillRate, now);
    }

    method TryAcquire(now: real, n: nat) returns (ok: bool)
      requires Sound(bucket.State()) && bucket.lastRefill <= now
      modifies bucket
      ensures Sound(bucket.State()) && bucket.lastRefill <= now
      ensures (bucket.State(), ok) == Attempt(old(bucket.State()), now, n)
      ensures ok <==> Affords(old(bucket.State()), now, n)
    {
      ok := bucket.TryAcquire(now, n);
    }

    /** The blocking acquire. The clock is read at each wake, timed, notified or spurious, and the calls of other
        threads come in before it. */
    method Acquire(n: nat, turns: seq<Turn>) returns (k: nat)
      requires Sound(bucket.State()) && Ordered(bucket.lastRefill, CallsOf(turns, n))
      modifies bucket
      ensures Sound(bucket.State())
      ensures (bucket.State(), k) == Waiting(old(bucket.State()), turns, n)
    {
      ghost var start := bucket.State();
      k := 0;
      while k < |turns|
        invariant 0 <= k <= |turns| && Sound(bucket.State())
        invariant Ordered(bucket.lastRefill, CallsOf(turns[k..], n))
        invariant var (end, more) := Waiting(bucket.State(), turns[k..], n);
                  Waiting(start, turns, n) == (end, k + more)
      {
        assert turns[k..][0] == turns[k] && turns[k..][1..] == turns[k + 1..];
        TurnAhead(bucket.State(), turns[k..], n);
        MakeCalls(turns[k].others);
        var served := bucket.TryAcquire(turns[k].now, n);
        if served {
          return;
        }
        k := k + 1;
      }
    }

    /** Calls that other threads make, one locked block each. */
    method MakeCalls(calls: seq<Call>)
      requires Sound(bucket.State()) && Ordered(bucket.lastRefill, calls)
      modifies bucket
      ensures Sound(bucket.State()) && bucket.State() == Run(old(bucket.State()), calls).0
    {
      ghost var start := bucket.State();
      for i := 0 to |calls|
        invariant Sound(bucket.State()) && Ordered(bucket.lastRefill, calls[i..])
        invariant Run(bucket.State(), calls[i..]).0 == Run(start, calls).0
      {
        assert calls[i..][0] == calls[i] && calls[i..][1..] == calls[i + 1..];
        AttemptKeeps(bucket.State(), calls[i].now, calls[i].n);
        OrderedLater(Attempt(bucket.State(), calls[i].now, calls[i].n).0.last, calls[i].now, calls[i + 1..]);
        var _ := bucket.TryAcquire(calls[i].now, calls[i].n);
      }
    }
  }
}
