/** The commands that change the jobs table outside the worker loop:
    `enqueue`, the dead-letter queue's `retry` and `purge`, and the job
    controls `pause`, `resume` and `cancel`. */
module Control {
  import opened Jobs

  /** The job descriptor given to `enqueue`; `None` is a key absent from it. */
  datatype JobSpec = JobSpec(
    id: Option<string>,
    command: Option<string>,
    priority: Option<int>,
    maxRetries: Option<int>,
    runAt: Option<int>)

  /** `OutOfRange` is the OverflowError the database driver raises when an
      integer does not fit a 64-bit INTEGER column; it is not the integrity
      error the source catches, so the command aborts with nothing inserted. */
  datatype EnqueueError = MissingId | MissingCommand | OutOfRange | DuplicateId(id: string)

  datatype EnqueueResult = Enqueued(store: Store) | Rejected(error: EnqueueError)

  /** The `max_retries` given to a job whose descriptor leaves it out. */
  const EnqueueMaxRetries: int := 3

  /** Whether `n` fits a 64-bit signed INTEGER column. */
  predicate FitsInt64(n: int) {
    -0x8000_0000_0000_0000 <= n < 0x8000_0000_0000_0000
  }

  /** The integers the INSERT binds from the descriptor all fit 64 bits. */
  predicate IntegersFit(spec: JobSpec) {
    FitsInt64(spec.priority.GetOr(0)) && FitsInt64(spec.maxRetries.GetOr(EnqueueMaxRetries))
  }

  /** Python truthiness of an optional string: absent or empty is false. */
  predicate Present(s: Option<string>) {
    s.Some? && s.value != ""
  }

  /** `enqueue`: check the id, then the command, then bind the INSERT's
      integers, then insert a fresh pending row; an id already in the table
      is rejected and nothing changes. */
  function Enqueue(store: Store, spec: JobSpec, now: int): (r: EnqueueResult)
    ensures !Present(spec.id) ==> r == Rejected(MissingId)
    ensures Present(spec.id) && !Present(spec.command) ==> r == Rejected(MissingCommand)
    ensures Present(spec.id) && Present(spec.command) && !IntegersFit(spec) ==> r == Rejected(OutOfRange)
    ensures Present(spec.id) && Present(spec.command) && IntegersFit(spec) && spec.id.value in store ==>
      r == Rejected(DuplicateId(spec.id.value))
    ensures r.Enqueued? <==>
      Present(spec.id) && Present(spec.command) && IntegersFit(spec) && spec.id.value !in store
    ensures r.Enqueued? ==>
      && r.store.Keys == store.Keys + {spec.id.value}
      && SameElsewhere(store, r.store, spec.id.value)
      && r.store[spec.id.value] == Job(
           command := spec.command.value,
           state := Pending,
           attempts := 0,
           maxRetries := spec.maxRetries.GetOr(EnqueueMaxRetries),
           priority := spec.priority.GetOr(0),
           createdAt := now,
           updatedAt := now,
           runAt := spec.runAt)
  {
    if !Present(spec.id) then
      Rejected(MissingId)
    else if !Present(spec.command) then
      Rejected(MissingCommand)
    else if !IntegersFit(spec) then
      Rejected(OutOfRange)
    else if spec.id.value in store then
      Rejected(DuplicateId(spec.id.value))
    else
      Enqueued(store[spec.id.value := Job(
        command := spec.command.value,
        state := Pending,
        attempts := 0,
        maxRetries := spec.maxRetries.GetOr(EnqueueMaxRetries),
        priority := spec.priority.GetOr(0),
        createdAt := now,
        updatedAt := now,
        runAt := spec.runAt)])
  }

  /** The table after a control command and whether a row was affected
      (the source reports "not found" when none was). */
  datatype Reply = Reply(store: Store, found: bool)

  /** `job pause`: any existing job becomes `paused`, whatever its state,
      even `processing`. */
  function Pause(store: Store, id: string, now: int): (r: Reply)
    ensures r.found <==> id in store
    ensures r.store.Keys == store.Keys
    ensures SameElsewhere(store, r.store, id)
    ensures id in store ==> r.store[id] == store[id].(state := Paused, updatedAt := now)
  {
    if id in store then
      Reply(store[id := store[id].(state := Paused, updatedAt := now)], true)
    else
      Reply(store, false)
  }

  /** `job resume`: only a `paused` job changes, back to `pending`. */
  function Resume(store: Store, id: string, now: int): (r: Reply)
    ensures r.found <==> id in store && store[id].state == Paused
    ensures !r.found ==> r.store == store
    ensures r.store.Keys == store.Keys
    ensures SameElsewhere(store, r.store, id)
    ensures r.found ==> r.store[id] == store[id].(state := Pending, updatedAt := now)
  {
    if id in store && store[id].state == Paused then
      Reply(store[id := store[id].(state := Pending, updatedAt := now)], true)
    else
      Reply(store, false)
  }

  /** `job cancel`: delete the row, whatever its state. */
  function Cancel(store: Store, id: string): (r: Reply)
    ensures r.found <==> id in store
    ensures r.store.Keys == store.Keys - {id}
    ensures SameElsewhere(store, r.store, id)
  {
    Reply(store - {id}, id in store)
  }

  /** `dlq retry`: a `dead` job goes back to `pending` with its attempts
      reset; any other id is reported not found and nothing changes. */
  function DlqRetry(store: Store, id: string, now: int): (r: Reply)
    ensures r.found <==> id in store && store[id].state == Dead
    ensures !r.found ==> r.store == store
    ensures r.store.Keys == store.Keys
    ensures SameElsewhere(store, r.store, id)
    ensures r.found ==> r.store[id] == store[id].(state := Pending, attempts := 0, updatedAt := now)
  {
    if id in store && store[id].state == Dead then
      Reply(store[id := store[id].(state := Pending, attempts := 0, updatedAt := now)], true)
    else
      Reply(store, false)
  }

  /** `dlq purge`: delete every `dead` row and keep every other row as is. */
  function DlqPurge(store: Store): (s: Store)
    ensures forall k :: k in s <==> k in store && store[k].state != Dead
    ensures forall k :: k in s ==> s[k] == store[k]
  {
    map k | k in store && store[k].state != Dead :: store[k]
  }

  /** Cancelling a job just enqueued restores the table it was added to. */
  lemma EnqueueThenCancel(store: Store, spec: JobSpec, now: int)
    requires Enqueue(store, spec, now).Enqueued?
    ensures Cancel(Enqueue(store, spec, now).store, spec.id.value).store == store
  {
    var s := Enqueue(store, spec, now).store;
    assert Cancel(s, spec.id.value).store.Keys == store.Keys;
  }

  /** A freshly enqueued job without a future `run_at` is immediately
      eligible for claiming. */
  lemma EnqueuedIsEligible(store: Store, spec: JobSpec, now: int, later: int)
    requires Enqueue(store, spec, now).Enqueued?
    requires spec.runAt.None? || spec.runAt.value <= later
    ensures Eligible(Enqueue(store, spec, now).store[spec.id.value], later)
  {
  }

  /** Pausing a pending job and resuming it gives back the same job with a
      newer timestamp, so it is eligible again exactly when it was before. */
  lemma PauseThenResume(store: Store, id: string, t1: int, t2: int, now: int)
    requires id in store && store[id].state == Pending
    ensures !Eligible(Pause(store, id, t1).store[id], now)
    ensures Resume(Pause(store, id, t1).store, id, t2).found
    ensures Resume(Pause(store, id, t1).store, id, t2).store == store[id := store[id].(updatedAt := t2)]
    ensures Eligible(Resume(Pause(store, id, t1).store, id, t2).store[id], now) <==> Eligible(store[id], now)
  {
  }

  /** Pausing is idempotent apart from the timestamp. */
  lemma PauseTwice(store: Store, id: string, t1: int, t2: int)
    ensures Pause(Pause(store, id, t1).store, id, t2) == Pause(store, id, t2)
  {
  }

  /** A retried dead job is pending with no attempts, and eligible at any
      time its `run_at` allows. */
  lemma DlqRetryRestoresEligibility(store: Store, id: string, now: int, later: int)
    requires id in store && store[id].state == Dead
    requires Due(store[id], later)
    ensures Eligible(DlqRetry(store, id, now).store[id], later)
    ensures DlqRetry(store, id, now).store[id].attempts == 0
  {
  }

  /** Purging leaves no dead job, and a second purge changes nothing. */
  lemma PurgeIdempotent(store: Store)
    ensures forall k :: k in DlqPurge(store) ==> DlqPurge(store)[k].state != Dead
    ensures DlqPurge(DlqPurge(store)) == DlqPurge(store)
  {
  }
}
