# queuectl job queue — a Dafny model

queuectl is a persistent job queue driven from the command line. Clients
enqueue shell commands as jobs, each with a priority and an optional start
time. Worker processes claim jobs one at a time, run them and retry failures
with exponential backoff. A job that keeps failing is moved to the
dead-letter queue (DLQ), where it can be listed, retried or purged. Jobs can
also be paused, resumed and cancelled. Settings live in a small key/value
table.

This project models the core of `queuectl.py` as pure operations on
immutable values:

- The `jobs` table is a `map<string, Job>` keyed by job id.
- The `config` table is a `map<string, string>`.
- Timestamps are integers, and the current time is a parameter. The
  source stores them as UTC ISO-8601 text from `now_iso()` and compares
  them as text; for stamps all written by `now_iso()` that text order is
  the time order, which is the order the integers keep.
- Each SQL transaction is one atomic step.

Modules:

- `Jobs` (`jobs.dfy`): the job record, its five states and the claim
  eligibility test (`state = pending` and `run_at` absent or due).
- `Config` (`config.dfy`): the settings table, `get_config` /
  `set_config_value`, and a decimal integer parser and printer with a proved
  round trip.
- `Claim` (`claim.dfy`): `fetch_pending_job`. It takes the best eligible job
  by `priority DESC, created_at ASC` and marks it `processing`.
- `Policy` (`policy.dfy`): what the worker does after running a job. Success
  completes it. A failure adds one attempt, then compares the count with the
  retry ceiling. Below the ceiling the job is requeued after a backoff of
  `base ^ attempts` seconds; at the ceiling it goes to the DLQ. This module
  also holds `update_job_state` and the backoff sleep, which the stop flag
  can interrupt.
- `Worker` (`worker.dfy`): one turn of `process_loop`, and the
  retry-exhaustion theorem for a command that always fails.
- `Control` (`control.dfy`): `enqueue`, `dlq retry`, `dlq purge`, and
  `job pause` / `resume` / `cancel`.
- `Listing` (`listing.dfy`): `list`, `dlq list` and `status`.

Kept exactly as the source has them:

- `pause` works on a job in any state, including `processing`. The worker's
  write after the run then overwrites `paused` (last writer wins).
- `enqueue` stores `max_retries = 3` when the descriptor leaves it out. So
  the configured `max_retries` only applies to a job enqueued with an
  explicit 0.
- `get_config` returns the raw text when the stored value does not parse as
  an integer. Suppose a job has `max_retries = 0` and the configured
  `max_retries` is such text. Then the comparison `new_attempts < ceiling`
  compares an `int` with a `str`, and Python raises. The worker process dies
  and the job stays `processing`. The model calls this outcome
  `Decision.Crash`, and it leaves the table unchanged.
- The backoff base is the configured `backoff_base` when it parses as an
  integer, and 2 otherwise.
- `status` prints a `failed` count. No code path ever writes that state, so
  the count is always 0.

How a job's retry ceiling is chosen:

- `enqueue` stores `max_retries = 3` when the descriptor omits it
  (queuectl.py:298).
- The worker uses the job's own value whenever it is non-zero, negative
  values included, and the configured setting only when it is 0
  (queuectl.py:215).
- The setting itself reads as 3 only when the key is absent
  (queuectl.py:196). A stored non-integer value crashes the worker, as
  described above.

## Model

| member | source | states |
|---|---|---|
| Jobs.StateNameInjective | queuectl.py:320-321 | distinct states have distinct names in the `state` column, so filtering by a name selects exactly one state |
| Config.ParseInt | queuectl.py:87-90 | an all-digit string parses to its decimal value; a '-' or '+' followed by digits parses to that value negated or kept; any text not of the form optional sign then one or more digits parses to nothing |
| Config.ParseShowInt | queuectl.py:87-98 | parsing the decimal text of any integer gives that integer back |
| Config.GetConfig | queuectl.py:80-91 | an absent key gives the caller's default; a present key gives an integer exactly when its text parses (and then the parsed value), otherwise the raw text |
| Config.SetConfigValue | queuectl.py:94-100 | upsert: the key is present with the new value and every other key keeps its value |
| Config.SetThenGet | queuectl.py:80-100 | after setting a key to the decimal text of n, reading it gives n whatever the table held before |
| Config.SetKeepsOthers | queuectl.py:96-99 | setting one key does not change what any other key reads as |
| Config.LastWriteWins | queuectl.py:97 | of two writes to one key the second wins (ON CONFLICT DO UPDATE) |
| Config.LoadSettings | queuectl.py:195-197 | the worker's snapshot: 3 and 2 when `max_retries` / `backoff_base` are absent, and integers exactly when the stored texts parse |
| Claim.ClaimAt | queuectl.py:130-133 | the claimed row becomes `processing` stamped `now`, all its other fields and every other row unchanged |
| Claim.FetchPendingJob | queuectl.py:105-135 | no lock gives no job and an untouched table; with the lock a job is returned exactly when one is eligible; the returned job is eligible, no eligible job precedes it in `priority DESC, created_at` order, it is the pre-update snapshot, and the new table is exactly that claim |
| Claim.OnlyEligibleClaimed | queuectl.py:117-124 | paused, dead, completed, processing and not-yet-due jobs are never claim choices |
| Claim.SoleEligibleIsChoice | queuectl.py:117-125 | when one job alone is eligible the claim must return it |
| Claim.HigherPriorityFirst | queuectl.py:122 | an eligible job is not claimed while an eligible job of higher priority waits |
| Claim.ClaimedNotReclaimed | queuectl.py:120-133 | a job just claimed cannot be claimed again at any time until something moves it back to `pending` |
| Policy.Decide | queuectl.py:209-222 | success completes with attempts unchanged; failure adds one attempt; with a non-zero job ceiling, or a zero one and an integer setting, it requeues exactly when the new count is below the ceiling and otherwise buries; a failure with job ceiling 0 and a text setting is exactly the crash case; the requeue delay is base^(new attempts) |
| Policy.UpdateJobState | queuectl.py:176-182 | sets state, attempts and `updated_at` of that row only; an id no longer present changes nothing |
| Policy.Finish | queuectl.py:209-232 | writes the decision's state and attempt count with timestamp `now` to the claimed row only, or nothing when the worker crashes |
| Policy.BackoffSleep | queuectl.py:226-229 | the loop stops only once `delay` seconds have passed or the stop flag is seen; it never sleeps more than max(delay, 0) and sleeps exactly that without a stop |
| Policy.DelayAtLeastDoubles | queuectl.py:217-222 | with base at least 2, each further failure at least doubles the delay |
| Policy.DefaultDelays | queuectl.py:217-222 | with the default base (or an unparseable one) the delays for attempts 1, 2, 3 are 2, 4, 8 |
| Worker.WorkerTurn | queuectl.py:199-229 | without the lock the turn is idle; an idle turn changes nothing and with the lock means nothing was eligible; a turn that ran a job claimed the claim choice at the claim time and left the table as finishing that claim, stamped with the later finish time, does; it sleeps only after a requeue and then at most the delay |
| Worker.FailCycle | queuectl.py:200-232 | a claim-and-fail cycle of one job keeps every other row and the set of ids |
| Worker.FailCycles | queuectl.py:199-232 | repeated claim-and-fail cycles of one job keep every other row and the set of ids |
| Worker.FailCycleStep | queuectl.py:213-232 | one failed run adds one attempt and leaves the job pending below the ceiling, dead at it, with all else unchanged |
| Worker.FailCyclesReachCeiling | queuectl.py:213-232 | after n failed runs within the ceiling the job has n more attempts, is pending while below the ceiling and dead on reaching it |
| Worker.RetryExhaustion | queuectl.py:213-232 | with ceiling 3 a fresh always-failing job is claimable after 1 and 2 failures and dead with 3 attempts after 3, after which no claim returns it |
| Worker.CeilingSource | queuectl.py:215 | a job's own non-zero `max_retries`, negative values included, is its ceiling; a job with 0 takes the configured integer value |
| Worker.EnqueueDefaultCeiling | queuectl.py:298 | a job enqueued without `max_retries` has ceiling 3 whatever the configured setting |
| Worker.PauseDuringRunIsOverwritten | queuectl.py:476 | a pause made while a worker runs the job is overwritten by the worker's write after the run |
| Control.Enqueue | queuectl.py:277-307 | a missing or empty id is rejected, then a missing or empty command, then a priority or `max_retries` outside the 64-bit range, then a duplicate id, each with the table unchanged; otherwise exactly one row is added: pending, 0 attempts, priority defaulting to 0, `max_retries` defaulting to 3, created and updated at `now` |
| Control.Pause | queuectl.py:476-481 | any existing job becomes paused whatever its state, only that row changes, and a missing id is reported |
| Control.Resume | queuectl.py:492-497 | only a paused job changes, to pending; any other id is reported and nothing changes |
| Control.Cancel | queuectl.py:508-513 | exactly that id is deleted, whatever its state; every other row stays |
| Control.DlqRetry | queuectl.py:397-408 | a dead job becomes pending with 0 attempts; a missing or non-dead id is reported and nothing changes |
| Control.DlqPurge | queuectl.py:419 | exactly the dead rows are deleted and every other row is kept as it was |
| Control.EnqueueThenCancel | queuectl.py:290-303 | cancelling a job just enqueued restores the previous table |
| Control.EnqueuedIsEligible | queuectl.py:296-302 | a job just enqueued is eligible as soon as its `run_at` allows |
| Control.PauseThenResume | queuectl.py:476-492 | a paused pending job is not eligible; resuming it gives back the same job with a new timestamp and restores its eligibility |
| Control.PauseTwice | queuectl.py:476 | pausing twice equals pausing once at the later time |
| Control.DlqRetryRestoresEligibility | queuectl.py:404-407 | a retried dead job has 0 attempts and is eligible whenever its `run_at` allows |
| Control.PurgeIdempotent | queuectl.py:419 | after a purge no dead job remains and a second purge changes nothing |
| Listing.InsertAddsRow | queuectl.py:321-323 | building a listing by insertion adds exactly the inserted row, nothing lost or duplicated |
| Listing.InsertSorted | queuectl.py:321-323 | inserting into a listing sorted by the ORDER BY key keeps it sorted |
| Listing.InsertKeepsIdsDistinct | queuectl.py:321-323 | inserting a row with a new id keeps every id in the listing distinct |
| Listing.SelectRows | queuectl.py:320-324 | the result lists every row passing the filter, each once, with its stored contents, and nothing else, in the requested order |
| Listing.ListJobs | queuectl.py:315-331 | `list`: every matching job once, oldest created first; an absent or empty filter matches all |
| Listing.DlqList | queuectl.py:375-386 | `dlq list`: exactly the dead jobs, each once, most recently updated first |
| Listing.Status | queuectl.py:337-347 | the `failed` count is always 0 |
| Listing.CountRemove | queuectl.py:342-345 | removing one row lowers exactly its own state's count by one |
| Listing.StatusAccountsForEveryJob | queuectl.py:342-347 | the printed counts add up to the number of jobs |

## Left out

- SQLite connections, `init_db`, `BEGIN IMMEDIATE` locking and the
  10-second busy timeout: each transaction is one atomic step. A failed lock
  is the input `lockAcquired`. The isolation between worker processes cannot
  be stated in a sequential model.
- `start_workers`, `multiprocessing`, the shared stop event and the signal
  handlers: the stop flag is the input `stopAt`. It gives the number of
  one-second sleeps after which the flag is first seen set. The whole
  `while not stop_event.is_set()` loop is modelled one turn at a time, and
  the one-second idle sleep is not modelled.
- `execute_job_with_logging`, `subprocess.run` and `write_job_log`: the run
  is external, and its outcome is the input `success`. The return code is
  only printed, so it is dropped.
- The click command wiring, `json.loads` / `json.dumps`, console output,
  and `config get`, which prints the config table. These are presentation.
- The real clock and ISO-8601 text timestamps: integers stand in for them.
  Their order agrees with the source's text comparison only for stamps in
  `now_iso()`'s format. `fetch_pending_job` reads the clock twice, once for
  the filter and once for the update stamp; the model uses one `now` for
  both.
- Claim.FetchPendingJob: a user-supplied `run_at` is compared with the
  current time as text (queuectl.py:121), so a value written with `Z`, a
  non-UTC offset or a different precision can order differently from the
  time it denotes; the model compares the instants.
- Config.ParseInt: accepts an optional sign and ASCII digits only. Python's
  `int()` also strips surrounding whitespace and accepts `_` separators and
  non-ASCII digits; the model reads such texts as non-integers.
- Control.Enqueue: the descriptor's `id` and `command` are strings, and its
  integers are present or absent. JSON `null`, other JSON types, and the
  NOT NULL failure that an explicit `null` `max_retries` causes (which the
  source reports as a duplicate id) are not modelled. An out-of-range
  integer is modelled as a rejection; the source does not catch that
  OverflowError, so the command fails with a traceback rather than a
  message.
- Listing.ListJobs, Listing.DlqList, Claim.FetchPendingJob: when rows tie on
  the sort key, their order is left open, because SQL promises none.
- Control.DlqRetry: the source reads the dead row and then updates it by
  id without re-checking its state (queuectl.py:397-405); a pause or
  resume landing between the two is overwritten. The model makes the
  command one atomic step.
- Recovery of jobs left `processing` by a crashed worker: the source has
  none.
