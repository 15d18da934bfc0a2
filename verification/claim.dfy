/** The claim protocol (`fetch_pending_job`): inside one write transaction,
    pick the best eligible job and mark it `processing`. */
module Claim {
  import opened Jobs

  /** `a` comes before `b` in `ORDER BY priority DESC, created_at`. */
  predicate Before(a: Job, b: Job) {
    a.priority > b.priority || (a.priority == b.priority && a.createdAt < b.createdAt)
  }

  /** `id` is a row the claim query may return at time `now`: it is eligible
      and no eligible row comes before it. Rows equal in both priority and
      creation time are all acceptable choices, as they are to the query. */
  ghost predicate IsClaimChoice(store: Store, now: int, id: string) {
    && id in store
    && Eligible(store[id], now)
    && forall k :: k in store && Eligible(store[k], now) ==> !Before(store[k], store[id])
  }

  /** Whether any row is eligible at time `now`. */
  ghost predicate AnyEligible(store: Store, now: int) {
    exists k :: k in store && Eligible(store[k], now)
  }

  /** The UPDATE of a successful claim: the row goes to `processing` and is
      stamped `now`; nothing else in the table changes. */
  function ClaimAt(store: Store, id: string, now: int): (s: Store)
    requires id in store
    ensures s.Keys == store.Keys
    ensures s[id].state == Processing && s[id].updatedAt == now
    ensures s[id].(state := store[id].state, updatedAt := store[id].updatedAt) == store[id]
    ensures SameElsewhere(store, s, id)
  {
    store[id := store[id].(state := Processing, updatedAt := now)]
  }

  /** `fetch_pending_job`. `lockAcquired` is false when `BEGIN IMMEDIATE`
      fails; the whole transaction is one atomic step. The result is the
      claimed row as it was before the UPDATE, and the new table. */
  method FetchPendingJob(store: Store, now: int, lockAcquired: bool) returns (claimed: Option<Row>, store': Store)
    ensures claimed.None? ==> store' == store
    ensures !lockAcquired ==> claimed.None?
    ensures lockAcquired ==> (claimed.Some? <==> AnyEligible(store, now))
    ensures claimed.Some? ==>
      && IsClaimChoice(store, now, claimed.value.id)
      && claimed.value.job == store[claimed.value.id]
      && store' == ClaimAt(store, claimed.value.id, now)
  {
    if !lockAcquired {
      return None, store;
    }
    var rest := store.Keys;
    var best: Option<string> := None;
    while rest != {}
      invariant rest <= store.Keys
      invariant best.Some? ==> best.value in store && best.value !in rest && Eligible(store[best.value], now)
      invariant forall k :: k in store && k !in rest && Eligible(store[k], now) ==>
        best.Some? && !Before(store[k], store[best.value])
      decreases rest
    {
      var k :| k in rest;
      if Eligible(store[k], now) && (best.None? || Before(store[k], store[best.value])) {
        best := Some(k);
      }
      rest := rest - {k};
    }
    match best
    case None =>
      return None, store;
    case Some(id) =>
      return Some(Row(id, store[id])), ClaimAt(store, id, now);
  }

  /** Jobs that are paused, dead, completed, already processing or not yet
      due are never claimed. */
  lemma OnlyEligibleClaimed(store: Store, now: int, id: string)
    requires id in store
    requires store[id].state != Pending || !Due(store[id], now)
    ensures !IsClaimChoice(store, now, id)
  {
  }

  /** When exactly one job is eligible, the claim must take it. */
  lemma SoleEligibleIsChoice(store: Store, now: int, id: string)
    requires id in store && Eligible(store[id], now)
    requires forall k :: k in store && k != id ==> !Eligible(store[k], now)
    ensures IsClaimChoice(store, now, id)
  {
  }

  /** Of two eligible jobs, one with higher priority is claimed first: the
      lower one is not a claim choice while the higher one is waiting. */
  lemma HigherPriorityFirst(store: Store, now: int, hi: string, lo: string)
    requires hi in store && lo in store
    requires Eligible(store[hi], now) && Eligible(store[lo], now)
    requires store[hi].priority > store[lo].priority
    ensures !IsClaimChoice(store, now, lo)
  {
  }

  /** Claiming a job removes it from eligibility, so a second claim in the
      same instant cannot return it again. */
  lemma ClaimedNotReclaimed(store: Store, id: string, now: int, later: int)
    requires id in store
    ensures !IsClaimChoice(ClaimAt(store, id, now), later, id)
  {
  }
}
