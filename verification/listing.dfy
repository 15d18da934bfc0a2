/** The read-only commands: `list`, `dlq list` and `status`. */
module Listing {
  import opened Jobs

  /** The two sort orders used: `ORDER BY created_at` for `list` and
      `ORDER BY updated_at DESC` for `dlq list`. */
  datatype Order = OldestCreatedFirst | NewestUpdatedFirst

  /** A key that increases along the order. */
  function SortKey(order: Order, j: Job): int {
    match order
    case OldestCreatedFirst => j.createdAt
    case NewestUpdatedFirst => -j.updatedAt
  }

  ghost predicate Sorted(order: Order, rows: seq<Row>) {
    forall i, j :: 0 <= i < j < |rows| ==> SortKey(order, rows[i].job) <= SortKey(order, rows[j].job)
  }

  ghost predicate DistinctIds(rows: seq<Row>) {
    forall i, j :: 0 <= i < j < |rows| ==> rows[i].id != rows[j].id
  }

  /** The `WHERE state=?` filter of `list`: an absent or empty filter keeps
      every row, any other text keeps the rows whose state has that name. */
  predicate Matches(filter: Option<string>, j: Job) {
    filter.None? || filter.value == "" || StateName(j.state) == filter.value
  }

  /** Insert `r` before the first row that sorts after it. */
  function Insert(order: Order, rows: seq<Row>, r: Row): (res: seq<Row>)
    ensures |res| == |rows| + 1
  {
    if |rows| == 0 || SortKey(order, r.job) <= SortKey(order, rows[0].job) then
      [r] + rows
    else
      [rows[0]] + Insert(order, rows[1..], r)
  }

  /** Inserting adds exactly the row `r`. */
  lemma {:induction false} InsertAddsRow(order: Order, rows: seq<Row>, r: Row)
    ensures multiset(Insert(order, rows, r)) == multiset(rows) + multiset{r}
  {
    if |rows| > 0 && SortKey(order, r.job) > SortKey(order, rows[0].job) {
      InsertAddsRow(order, rows[1..], r);
      assert rows == [rows[0]] + rows[1..];
    }
  }

  /** Inserting into a sorted listing keeps it sorted. */
  lemma {:induction false} InsertSorted(order: Order, rows: seq<Row>, r: Row)
    requires Sorted(order, rows)
    ensures Sorted(order, Insert(order, rows, r))
  {
    if |rows| == 0 {
    } else if SortKey(order, r.job) <= SortKey(order, rows[0].job) {
      SortedTail(order, rows);
      ConsSorted(order, r, rows);
    } else {
      var tail := Insert(order, rows[1..], r);
      SortedTail(order, rows);
      InsertSorted(order, rows[1..], r);
      InsertAddsRow(order, rows[1..], r);
      MembersOfInsert(rows[1..], r, tail);
      ConsSorted(order, rows[0], tail);
    }
  }

  /** Inserting a row whose id is new keeps the ids distinct. */
  lemma {:induction false} InsertKeepsIdsDistinct(order: Order, rows: seq<Row>, r: Row)
    requires DistinctIds(rows)
    requires forall x :: x in rows ==> x.id != r.id
    ensures DistinctIds(Insert(order, rows, r))
  {
    if |rows| == 0 {
    } else if SortKey(order, r.job) <= SortKey(order, rows[0].job) {
      ConsDistinct(r, rows);
    } else {
      var tail := Insert(order, rows[1..], r);
      assert forall x :: x in rows[1..] ==> x in rows;
      assert DistinctIds(rows[1..]) by {
        forall i, j | 0 <= i < j < |rows[1..]|
          ensures rows[1..][i].id != rows[1..][j].id
        {
          assert rows[1..][i] == rows[i + 1] && rows[1..][j] == rows[j + 1];
        }
      }
      InsertKeepsIdsDistinct(order, rows[1..], r);
      InsertAddsRow(order, rows[1..], r);
      MembersOfInsert(rows[1..], r, tail);
      assert forall x :: x in rows[1..] ==> x.id != rows[0].id by {
        forall x | x in rows[1..]
          ensures x.id != rows[0].id
        {
          var i :| 0 <= i < |rows[1..]| && rows[1..][i] == x;
          assert rows[i + 1] == x;
        }
      }
      ConsDistinct(rows[0], tail);
    }
  }

  /** Rows with the same multiset of members hold the same rows. */
  lemma MembersOfInsert(rows: seq<Row>, r: Row, res: seq<Row>)
    requires multiset(res) == multiset(rows) + multiset{r}
    ensures forall x :: x in res <==> x in rows || x == r
  {
    forall x
      ensures x in res <==> x in rows || x == r
    {
      assert x in res <==> x in multiset(res);
      assert x in rows <==> x in multiset(rows);
    }
  }

  /** Every row after the head of a sorted listing sorts no earlier than it. */
  lemma SortedTail(order: Order, rows: seq<Row>)
    requires |rows| > 0 && Sorted(order, rows)
    ensures Sorted(order, rows[1..])
    ensures forall x :: x in rows[1..] ==> SortKey(order, rows[0].job) <= SortKey(order, x.job)
    ensures forall x :: x in rows ==> SortKey(order, rows[0].job) <= SortKey(order, x.job)
  {
    forall x | x in rows[1..]
      ensures SortKey(order, rows[0].job) <= SortKey(order, x.job)
    {
      var i :| 0 <= i < |rows[1..]| && rows[1..][i] == x;
      assert rows[i + 1] == x;
    }
  }

  lemma ConsSorted(order: Order, x: Row, tail: seq<Row>)
    requires Sorted(order, tail)
    requires forall y :: y in tail ==> SortKey(order, x.job) <= SortKey(order, y.job)
    ensures Sorted(order, [x] + tail)
  {
    var s := [x] + tail;
    forall i, j | 0 <= i < j < |s|
      ensures SortKey(order, s[i].job) <= SortKey(order, s[j].job)
    {
      assert s[j] == tail[j - 1];
      if i > 0 {
        assert s[i] == tail[i - 1];
      }
    }
  }

  lemma ConsDistinct(x: Row, tail: seq<Row>)
    ensures DistinctIds(tail) && (forall y :: y in tail ==> y.id != x.id) ==> DistinctIds([x] + tail)
  {
    if DistinctIds(tail) && (forall y :: y in tail ==> y.id != x.id) {
      var s := [x] + tail;
      forall i, j | 0 <= i < j < |s|
        ensures s[i].id != s[j].id
      {
        assert s[j] == tail[j - 1];
        if i > 0 {
          assert s[i] == tail[i - 1];
        }
      }
    }
  }

  /** The rows of the table that pass `filter`, each exactly once, in
      `order`. Rows equal in the sort key come in no promised order, as in
      SQL. */
  method SelectRows(store: Store, filter: Option<string>, order: Order) returns (rows: seq<Row>)
    ensures Sorted(order, rows)
    ensures DistinctIds(rows)
    ensures forall r :: r in rows ==> r.id in store && r.job == store[r.id] && Matches(filter, r.job)
    ensures forall k :: k in store && Matches(filter, store[k]) ==> Row(k, store[k]) in rows
  {
    rows := [];
    var rest := store.Keys;
    while rest != {}
      invariant rest <= store.Keys
      invariant Sorted(order, rows)
      invariant DistinctIds(rows)
      invariant forall r :: r in rows ==> r.id in store && r.id !in rest && r.job == store[r.id] && Matches(filter, r.job)
      invariant forall k :: k in store && k !in rest && Matches(filter, store[k]) ==> Row(k, store[k]) in rows
      decreases rest
    {
      var k :| k in rest;
      if Matches(filter, store[k]) {
        var inserted := Insert(order, rows, Row(k, store[k]));
        InsertSorted(order, rows, Row(k, store[k]));
        InsertAddsRow(order, rows, Row(k, store[k]));
        InsertKeepsIdsDistinct(order, rows, Row(k, store[k]));
        MembersOfInsert(rows, Row(k, store[k]), inserted);
        rows := inserted;
      }
      rest := rest - {k};
    }
  }

  /** `list [--state S]`: matching jobs, oldest created first. */
  method ListJobs(store: Store, filter: Option<string>) returns (rows: seq<Row>)
    ensures Sorted(OldestCreatedFirst, rows)
    ensures DistinctIds(rows)
    ensures forall r :: r in rows ==> r.id in store && r.job == store[r.id] && Matches(filter, r.job)
    ensures forall k :: k in store && Matches(filter, store[k]) ==> Row(k, store[k]) in rows
  {
    rows := SelectRows(store, filter, OldestCreatedFirst);
  }

  /** `dlq list`: exactly the dead jobs, most recently updated first. */
  method DlqList(store: Store) returns (rows: seq<Row>)
    ensures Sorted(NewestUpdatedFirst, rows)
    ensures forall i, j :: 0 <= i < j < |rows| ==> rows[i].job.updatedAt >= rows[j].job.updatedAt
    ensures DistinctIds(rows)
    ensures forall r :: r in rows ==> r.id in store && r.job == store[r.id] && r.job.state == Dead
    ensures forall k :: k in store && store[k].state == Dead ==> Row(k, store[k]) in rows
  {
    rows := SelectRows(store, Some("dead"), NewestUpdatedFirst);
    forall r | r in rows
      ensures r.job.state == Dead
    {
      StateNameInjective(r.job.state, Dead);
    }
  }

  /** Number of rows whose `state` column holds `name`. */
  function CountLabel(store: Store, name: string): nat {
    |set k | k in store && StateName(store[k].state) == name|
  }

  /** The per-state counts `status` prints, in its order. */
  datatype Counts = Counts(pending: nat, processing: nat, completed: nat, failed: nat, dead: nat, paused: nat)

  function Total(c: Counts): nat {
    c.pending + c.processing + c.completed + c.failed + c.dead + c.paused
  }

  /** `status`: counts for the six labels it prints. No code path writes
      `failed`, so that count is always zero. */
  function Status(store: Store): (c: Counts)
    ensures c.failed == 0
  {
    Counts(
      CountLabel(store, "pending"),
      CountLabel(store, "processing"),
      CountLabel(store, "completed"),
      CountLabel(store, "failed"),
      CountLabel(store, "dead"),
      CountLabel(store, "paused"))
  }

  /** Removing row `k` lowers the count of its own state by one and leaves
      every other count alone. */
  lemma CountRemove(store: Store, k: string, name: string)
    requires k in store
    ensures CountLabel(store, name) ==
      CountLabel(store - {k}, name) + (if StateName(store[k].state) == name then 1 else 0)
  {
    var all := set x | x in store && StateName(store[x].state) == name;
    var rest := set x | x in store - {k} && StateName((store - {k})[x].state) == name;
    if StateName(store[k].state) == name {
      assert all == rest + {k};
    } else {
      assert all == rest;
    }
  }

  /** The counts `status` prints account for every job exactly once. */
  lemma {:induction false} StatusAccountsForEveryJob(store: Store)
    ensures Total(Status(store)) == |store|
    decreases |store|
  {
    if |store| == 0 {
      assert store == map[];
    } else {
      var k :| k in store;
      var rest := store - {k};
      assert |rest| == |store| - 1;
      StatusAccountsForEveryJob(rest);
      CountRemove(store, k, "pending");
      CountRemove(store, k, "processing");
      CountRemove(store, k, "completed");
      CountRemove(store, k, "failed");
      CountRemove(store, k, "dead");
      CountRemove(store, k, "paused");
    }
  }
}
