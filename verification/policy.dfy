/** What a worker does with a job after running it (the body of
    `process_loop` after `execute_job_with_logging`): complete it, requeue it
    with exponential backoff, or move it to the dead-letter queue. */
module Policy {
  import opened Jobs
  import opened Config

  /** Integer power with a natural exponent, as Python's `**` on ints. */
  function Pow(base: int, e: nat): int {
    if e == 0 then 1 else base * Pow(base, e - 1)
  }

  /** The retry ceiling `job.max_retries or max_retries_conf`: the job's own
      value unless it is 0, when the configured value is used instead. */
  function Ceiling(jobMaxRetries: int, conf: ConfigValue): ConfigValue {
    if jobMaxRetries != 0 then Int(jobMaxRetries) else conf
  }

  /** The backoff base: the configured value when it is an integer, else 2. */
  function BackoffBase(conf: ConfigValue): int {
    if conf.Int? then conf.n else DefaultBackoffBase
  }

  /** The backoff delay in seconds after the `attempts`-th failure. */
  function BackoffDelay(conf: ConfigValue, attempts: nat): int {
    Pow(BackoffBase(conf), attempts)
  }

  /** The outcome of the post-execution policy. `Crash` is the case where
      the ceiling is a non-integer text: comparing an `int` with a `str`
      raises, the worker process dies and the job stays `processing`. */
  datatype Decision =
    | Complete(attempts: nat)
    | Requeue(attempts: nat, delay: int)
    | Bury(attempts: nat)
    | Crash

  /** The state a decision writes, if any. */
  function DecisionState(d: Decision): Option<State> {
    match d
    case Complete(_) => Some(Completed)
    case Requeue(_, _) => Some(Pending)
    case Bury(_) => Some(Dead)
    case Crash => None
  }

  /** The policy for a job claimed with `attempts` and per-job `maxRetries`. */
  function Decide(attempts: nat, maxRetries: int, success: bool, settings: Settings): (d: Decision)
    ensures success ==> d == Complete(attempts)
    ensures !success && d.Complete? ==> false
    ensures !success && !d.Crash? ==> d.attempts == attempts + 1
    ensures !success && (maxRetries != 0 || settings.maxRetries.Int?) ==> !d.Crash?
    ensures !success && maxRetries == 0 && settings.maxRetries.Text? ==> d == Crash
    ensures !success && maxRetries != 0 ==>
      (d.Requeue? <==> attempts + 1 < maxRetries) && (d.Bury? <==> attempts + 1 >= maxRetries)
    ensures !success && maxRetries == 0 && settings.maxRetries.Int? ==>
      (d.Requeue? <==> attempts + 1 < settings.maxRetries.n)
    ensures d.Requeue? ==> d.delay == Pow(BackoffBase(settings.backoffBase), attempts + 1)
  {
    if success then
      Complete(attempts)
    else
      var newAttempts := attempts + 1;
      match Ceiling(maxRetries, settings.maxRetries)
      case Text(_) => Crash
      case Int(ceiling) =>
        if newAttempts < ceiling then
          Requeue(newAttempts, BackoffDelay(settings.backoffBase, newAttempts))
        else
          Bury(newAttempts)
  }

  /** `update_job_state`: set state and attempts and stamp `updated_at`. An
      id no longer in the table matches no row and nothing changes. */
  function UpdateJobState(store: Store, id: string, state: State, attempts: nat, now: int): (s: Store)
    ensures s.Keys == store.Keys
    ensures SameElsewhere(store, s, id)
    ensures id in store ==>
      s[id] == store[id].(state := state, attempts := attempts, updatedAt := now)
  {
    if id in store then
      store[id := store[id].(state := state, attempts := attempts, updatedAt := now)]
    else
      store
  }

  /** The write that follows execution of the claimed `row` (a snapshot
      taken before the claim's own update). */
  function Finish(store: Store, row: Row, success: bool, settings: Settings, now: int): (r: (Store, Decision))
    ensures r.1 == Decide(row.job.attempts, row.job.maxRetries, success, settings)
    ensures r.1.Crash? ==> r.0 == store
    ensures r.0.Keys == store.Keys
    ensures SameElsewhere(store, r.0, row.id)
    ensures row.id in store && !r.1.Crash? ==>
      r.0[row.id] == store[row.id].(state := DecisionState(r.1).value, attempts := r.1.attempts, updatedAt := now)
  {
    var d := Decide(row.job.attempts, row.job.maxRetries, success, settings);
    match d
    case Complete(a) => (UpdateJobState(store, row.id, Completed, a, now), d)
    case Requeue(a, _) => (UpdateJobState(store, row.id, Pending, a, now), d)
    case Bury(a) => (UpdateJobState(store, row.id, Dead, a, now), d)
    case Crash => (store, d)
  }

  function Max(a: int, b: int): int {
    if a >= b then a else b
  }

  function Min(a: int, b: int): int {
    if a <= b then a else b
  }

  /** The worker's interruptible backoff sleep: one second per iteration
      until `delay` seconds have passed or the stop flag is seen set.
      `stopAt` is the number of completed one-second sleeps after which the
      flag is first seen set (`None`: never during this sleep). */
  method BackoffSleep(delay: int, stopAt: Option<nat>) returns (slept: nat)
    ensures slept <= Max(delay, 0)
    ensures slept >= delay || (stopAt.Some? && stopAt.value <= slept)
    ensures stopAt.None? ==> slept == Max(delay, 0)
    ensures stopAt.Some? ==> slept == Min(Max(delay, 0), stopAt.value)
  {
    slept := 0;
    while slept < delay && !(stopAt.Some? && stopAt.value <= slept)
      invariant slept <= Max(delay, 0)
      invariant stopAt.Some? ==> slept <= stopAt.value
      decreases delay - slept
    {
      slept := slept + 1;
    }
  }

  lemma {:induction false} PowPositive(base: int, e: nat)
    requires base >= 1
    ensures Pow(base, e) >= 1
  {
    if e > 0 {
      PowPositive(base, e - 1);
    }
  }

  /** With a base of at least 2 each further failure at least doubles the
      delay, so the delays strictly grow. */
  lemma DelayAtLeastDoubles(conf: ConfigValue, attempts: nat)
    requires BackoffBase(conf) >= 2
    ensures BackoffDelay(conf, attempts + 1) >= 2 * BackoffDelay(conf, attempts)
    ensures BackoffDelay(conf, attempts + 1) > BackoffDelay(conf, attempts)
  {
    PowPositive(BackoffBase(conf), attempts);
  }

  /** With the default base the first three retries wait 2, 4 and 8 seconds,
      and an unparseable `backoff_base` falls back to that default. */
  lemma DefaultDelays(text: string)
    ensures BackoffDelay(Int(DefaultBackoffBase), 1) == 2
    ensures BackoffDelay(Int(DefaultBackoffBase), 2) == 4
    ensures BackoffDelay(Int(DefaultBackoffBase), 3) == 8
    ensures BackoffDelay(Text(text), 3) == 8
  {
  }
}
