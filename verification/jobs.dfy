/** The jobs table of queuectl as an immutable value: one row per job id,
    with the job state machine's five states. */
module Jobs {

  datatype Option<+T> = None | Some(value: T) {
    function GetOr(default: T): T {
      if Some? then value else default
    }
  }

  /** The `state` column. The source writes no other state string. */
  datatype State = Pending | Processing | Completed | Dead | Paused

  /** The text stored in the `state` column for each state. */
  function StateName(s: State): string {
    match s
    case Pending => "pending"
    case Processing => "processing"
    case Completed => "completed"
    case Dead => "dead"
    case Paused => "paused"
  }

  /** One row of the `jobs` table, without its primary key. Timestamps are
      whole seconds; `runAt` is `None` when the column is NULL. */
  datatype Job = Job(
    command: string,
    state: State,
    attempts: nat,
    maxRetries: int,
    priority: int,
    createdAt: int,
    updatedAt: int,
    runAt: Option<int>)

  /** A row together with its primary key, as a SELECT returns it. */
  datatype Row = Row(id: string, job: Job)

  /** The jobs table, keyed by job id. */
  type Store = map<string, Job>

  /** The `run_at IS NULL OR run_at <= now` half of the claim filter. */
  predicate Due(j: Job, now: int) {
    j.runAt.None? || j.runAt.value <= now
  }

  /** A job the claim query may select at time `now`. */
  predicate Eligible(j: Job, now: int) {
    j.state == Pending && Due(j, now)
  }

  /** Every row other than `id` is present in `s'` exactly when it is present
      in `s`, and with the same contents. */
  ghost predicate SameElsewhere(s: Store, s': Store, id: string) {
    forall k :: k != id ==> (k in s <==> k in s') && (k in s ==> s'[k] == s[k])
  }

  /** The names of distinct states are distinct, so filtering by a state name
      selects exactly the rows in that state. */
  lemma StateNameInjective(a: State, b: State)
    ensures StateName(a) == StateName(b) <==> a == b
  {
  }
}
