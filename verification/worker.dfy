/** One turn of the worker loop (`process_loop`) and what repeated turns
    do to a job whose command always fails. */
module Worker {
  import opened Jobs
  import opened Config
  import opened Claim
  import opened Policy
  import Control

  /** What one turn of the loop did. */
  datatype Turn =
    | Idle
    | Ran(row: Row, decision: Decision, slept: nat)

  /** One turn: claim at time `now`, run (its outcome is the input
      `success`), apply the policy with the time `finishedAt` read after the
      run, and sleep off the backoff delay after a requeue. An idle turn (no
      claim) leaves the table as it was. */
  method WorkerTurn(store: Store, now: int, finishedAt: int, lockAcquired: bool, success: bool, settings: Settings, stopAt: Option<nat>)
    returns (turn: Turn, store': Store)
    requires now <= finishedAt
    ensures !lockAcquired ==> turn.Idle?
    ensures turn.Idle? ==> store' == store && (lockAcquired ==> !AnyEligible(store, now))
    ensures turn.Ran? ==>
      && IsClaimChoice(store, now, turn.row.id)
      && turn.row.job == store[turn.row.id]
      && var r := Finish(ClaimAt(store, turn.row.id, now), turn.row, success, settings, finishedAt);
         turn.decision == r.1 && store' == r.0
    ensures turn.Ran? && turn.decision.Requeue? ==> turn.slept <= Max(turn.decision.delay, 0)
    ensures turn.Ran? && !turn.decision.Requeue? ==> turn.slept == 0
  {
    var claimed, claimedStore := FetchPendingJob(store, now, lockAcquired);
    if claimed.None? {
      return Idle, store;
    }
    var row := claimed.value;
    var r := Finish(claimedStore, row, success, settings, finishedAt);
    var slept := 0;
    if r.1.Requeue? {
      slept := BackoffSleep(r.1.delay, stopAt);
    }
    return Ran(row, r.1, slept), r.0;
  }

  /** The effective ceiling of job `id`, when it is an integer. */
  ghost predicate HasCeiling(store: Store, id: string, settings: Settings, ceiling: int) {
    id in store && Ceiling(store[id].maxRetries, settings.maxRetries) == Int(ceiling)
  }

  /** Claim job `id` and record a failed run of it. */
  function FailCycle(store: Store, id: string, settings: Settings, now: int): (s: Store)
    requires id in store
    ensures s.Keys == store.Keys
    ensures SameElsewhere(store, s, id)
  {
    Finish(ClaimAt(store, id, now), Row(id, store[id]), false, settings, now).0
  }

  /** `n` consecutive claim-and-fail cycles of job `id`. */
  function FailCycles(store: Store, id: string, settings: Settings, now: int, n: nat): (s: Store)
    requires id in store
    ensures s.Keys == store.Keys
    ensures SameElsewhere(store, s, id)
  {
    if n == 0 then store else FailCycles(FailCycle(store, id, settings, now), id, settings, now, n - 1)
  }

  /** One failed cycle of an eligible job below its ceiling: attempts grow by
      one and the job is requeued while attempts stay below the ceiling,
      buried once they reach it. Nothing but state, attempts and the
      timestamp changes. */
  lemma FailCycleStep(store: Store, id: string, settings: Settings, now: int, ceiling: int)
    requires HasCeiling(store, id, settings, ceiling)
    requires Eligible(store[id], now)
    ensures var s := FailCycle(store, id, settings, now);
      && s[id].attempts == store[id].attempts + 1
      && s[id].state == (if store[id].attempts + 1 < ceiling then Pending else Dead)
      && s[id].(state := store[id].state, attempts := store[id].attempts, updatedAt := store[id].updatedAt) == store[id]
  {
  }

  /** A job that always fails, starting eligible with `attempts` below its
      integer ceiling `c`, after `n <= c - attempts` cycles has
      `attempts + n` attempts, and is pending (so eligible again) until the
      ceiling is reached, when it is dead. */
  lemma {:induction false} FailCyclesReachCeiling(store: Store, id: string, settings: Settings, now: int, c: int, n: nat)
    requires HasCeiling(store, id, settings, c)
    requires Eligible(store[id], now)
    requires store[id].attempts + n <= c
    ensures var s := FailCycles(store, id, settings, now, n);
      && HasCeiling(s, id, settings, c)
      && s[id].attempts == store[id].attempts + n
      && s[id].runAt == store[id].runAt
      && (s[id].attempts < c ==> s[id].state == Pending)
      && (n > 0 && s[id].attempts == c ==> s[id].state == Dead)
  {
    if n > 0 {
      FailCycleStep(store, id, settings, now, c);
      var s1 := FailCycle(store, id, settings, now);
      if store[id].attempts + 1 < c {
        FailCyclesReachCeiling(s1, id, settings, now, c, n - 1);
      } else {
        assert n == 1;
        assert FailCycles(s1, id, settings, now, 0) == s1;
      }
    }
  }

  /** Retry exhaustion: a fresh job with ceiling 3 whose command always
      fails is claimable after its first and second failures, is dead with
      3 attempts after the third, and from then on no claim returns it. */
  lemma RetryExhaustion(store: Store, id: string, settings: Settings, now: int)
    requires HasCeiling(store, id, settings, 3)
    requires Eligible(store[id], now) && store[id].attempts == 0
    ensures Eligible(FailCycles(store, id, settings, now, 1)[id], now)
    ensures Eligible(FailCycles(store, id, settings, now, 2)[id], now)
    ensures FailCycles(store, id, settings, now, 3)[id].state == Dead
    ensures FailCycles(store, id, settings, now, 3)[id].attempts == 3
    ensures forall t :: !IsClaimChoice(FailCycles(store, id, settings, now, 3), t, id)
  {
    FailCyclesReachCeiling(store, id, settings, now, 3, 1);
    FailCyclesReachCeiling(store, id, settings, now, 3, 2);
    FailCyclesReachCeiling(store, id, settings, now, 3, 3);
  }

  /** A job's own non-zero `max_retries` is its ceiling under any
      configuration; a job with 0 takes the configured value when that is an
      integer. */
  lemma CeilingSource(store: Store, id: string, settings: Settings)
    requires id in store
    ensures store[id].maxRetries != 0 ==> HasCeiling(store, id, settings, store[id].maxRetries)
    ensures store[id].maxRetries == 0 && settings.maxRetries.Int? ==>
      HasCeiling(store, id, settings, settings.maxRetries.n)
  {
  }

  /** A job enqueued without `max_retries` has ceiling 3 whatever the
      configuration says, so the configured value never applies to it. */
  lemma EnqueueDefaultCeiling(store: Store, spec: Control.JobSpec, now: int, settings: Settings)
    requires Control.Enqueue(store, spec, now).Enqueued?
    requires spec.maxRetries.None?
    ensures HasCeiling(Control.Enqueue(store, spec, now).store, spec.id.value, settings, 3)
  {
  }

  /** Pausing a job while a worker runs it does not stick: the worker's own
      write after execution overwrites `paused` (last writer wins). */
  lemma PauseDuringRunIsOverwritten(store: Store, id: string, success: bool, settings: Settings, now: int, later: int)
    requires id in store
    requires !Decide(store[id].attempts, store[id].maxRetries, success, settings).Crash?
    ensures var running := ClaimAt(store, id, now);
      var paused := Control.Pause(running, id, later).store;
      Finish(paused, Row(id, store[id]), success, settings, later).0[id].state != Paused
  {
  }
}
