/** The `tasks` table (internal/repository/postgres.go) as an in-memory table:
    the insert of `Create`, the due-task query of `GetActiveTasks` and the
    flag update of `MarkAsNotified`, each with the effect its SQL statement
    has on the rows. */
module Tasks {
  import opened Wrappers
  import opened Calendar

  /** A row of the table (`domain.Task`). */
  datatype Task = Task(id: int, userId: int, title: string, deadline: Time, notified: bool, createdAt: Instant)

  const ErrQuery := "ошибка GetActiveTasks: "
  const ErrCollect := "failed to collect rows: "
  const ErrMark := "marcAsNotified error: "

  /** `notified = false AND deadline <= now`. */
  predicate Active(t: Task, now: Instant) {
    !t.notified && ToInstant(t.deadline) <= now
  }

  /** The rows the due-task query returns, in table order. */
  function ActiveTasks(rows: seq<Task>, now: Instant): (r: seq<Task>)
    ensures forall t :: t in r <==> t in rows && Active(t, now)
    ensures |r| <= |rows|
  {
    if rows == [] then []
    else (if Active(rows[0], now) then [rows[0]] else []) + ActiveTasks(rows[1..], now)
  }

  /** The rows after `UPDATE tasks SET notified = true` on the rows whose id
      is in `ids`: no row appears or disappears, only the flag of those rows
      changes, and it only ever becomes true. */
  function Marked(rows: seq<Task>, ids: set<int>): (r: seq<Task>)
    ensures |r| == |rows|
    ensures forall i :: 0 <= i < |rows| ==> r[i].(notified := rows[i].notified) == rows[i]
    ensures forall i :: 0 <= i < |rows| ==> r[i].notified == (rows[i].notified || rows[i].id in ids)
  {
    seq(|rows|, i requires 0 <= i < |rows| => if rows[i].id in ids then rows[i].(notified := true) else rows[i])
  }

  predicate DistinctIds(rows: seq<Task>) {
    forall i, j :: 0 <= i < j < |rows| ==> rows[i].id != rows[j].id
  }

  /** How the table may change over time through the three operations: rows
      are only appended, and of an existing row only the flag changes, from
      false to true. */
  predicate Evolves(before: seq<Task>, after: seq<Task>) {
    |before| <= |after|
    && forall i :: 0 <= i < |before| ==>
         after[i].(notified := before[i].notified) == before[i] && (before[i].notified ==> after[i].notified)
  }

  class TaskTable {
    var rows: seq<Task>
    /** The value the `id` column's sequence hands out next. */
    var nextId: int

    ghost predicate Valid()
      reads this
    {
      nextId >= 1 && DistinctIds(rows) && forall i :: 0 <= i < |rows| ==> 1 <= rows[i].id < nextId
    }

    constructor()
      ensures Valid() && rows == [] && nextId == 1
    {
      rows := [];
      nextId := 1;
    }

    /** `INSERT INTO tasks (user_id, title, deadline)`: one new row with the
        given owner, title and deadline; the id, the flag and the creation
        time are the table's own. A failed statement inserts nothing, and its
        error is returned unchanged. */
    method Create(task: Task, now: Instant, fault: Fault) returns (err: Fault)
      requires Valid()
      modifies this
      ensures Valid() && err == fault
      ensures fault.None? ==> rows == old(rows) + [Task(old(nextId), task.userId, task.title, task.deadline, false, now)]
                              && nextId == old(nextId) + 1
      ensures fault.Some? ==> rows == old(rows) && nextId == old(nextId)
      ensures Evolves(old(rows), rows)
    {
      if fault.Some? {
        return fault;
      }
      rows := rows + [Task(nextId, task.userId, task.title, task.deadline, false, now)];
      nextId := nextId + 1;
      err := None;
    }

    /** The due-task query: the active rows, or the wrapped error of a query
        or of collecting its rows, and then no list. */
    function GetActiveTasks(now: Instant, queryFault: Fault, collectFault: Fault): (r: Result<seq<Task>, string>)
      reads this
      ensures queryFault.Some? ==> r == Failure(ErrQuery + queryFault.value)
      ensures queryFault.None? && collectFault.Some? ==> r == Failure(ErrCollect + collectFault.value)
      ensures r.Success? <==> queryFault.None? && collectFault.None?
      ensures r.Success? ==> r.value == ActiveTasks(rows, now)
      ensures r.Success? ==> forall t :: t in r.value <==> t in rows && Active(t, now)
    {
      if queryFault.Some? then Failure(ErrQuery + queryFault.value)
      else if collectFault.Some? then Failure(ErrCollect + collectFault.value)
      else Success(ActiveTasks(rows, now))
    }

    /** `UPDATE tasks SET notified = true WHERE id = $1`. An id no row has
        changes nothing and is no error; a failed statement changes nothing
        and returns its wrapped error. */
    method MarkAsNotified(id: int, fault: Fault) returns (err: Fault)
      requires Valid()
      modifies this
      ensures Valid() && nextId == old(nextId)
      ensures err == if fault.Some? then Some(ErrMark + fault.value) else None
      ensures rows == if fault.None? then Marked(old(rows), {id}) else old(rows)
      ensures Evolves(old(rows), rows)
    {
      if fault.Some? {
        return Some(ErrMark + fault.value);
      }
      MarkedEvolves(rows, {id});
      rows := Marked(rows, {id});
      err := None;
    }
  }

  // ---------------------------------------------------------------------
  // Properties of the table operations
  // ---------------------------------------------------------------------

  /** The query distributes over appended rows, so it keeps table order. */
  lemma {:induction false} ActiveAppend(a: seq<Task>, b: seq<Task>, now: Instant)
    ensures ActiveTasks(a + b, now) == ActiveTasks(a, now) + ActiveTasks(b, now)
  {
    if a != [] {
      assert (a + b)[1..] == a[1..] + b;
      ActiveAppend(a[1..], b, now);
    } else {
      assert a + b == b;
    }
  }

  /** The query returns a row of `rows` at most once. */
  lemma {:induction false} ActiveDistinct(rows: seq<Task>, now: Instant)
    requires DistinctIds(rows)
    ensures DistinctIds(ActiveTasks(rows, now))
  {
    if rows != [] {
      ActiveDistinct(rows[1..], now);
      var rest := ActiveTasks(rows[1..], now);
      forall t | t in rest ensures t.id != rows[0].id {
        var j :| 0 <= j < |rows[1..]| && rows[1..][j] == t;
        assert rows[j + 1] == t;
      }
    }
  }

  /** A row already notified, or marked now, is never returned again. */
  lemma MarkedNotActive(rows: seq<Task>, ids: set<int>, now: Instant)
    ensures forall t :: t in ActiveTasks(Marked(rows, ids), now) ==> t.id !in ids
  {
  }

  /** Marking the same ids again changes nothing. */
  lemma MarkedIdempotent(rows: seq<Task>, ids: set<int>)
    ensures Marked(Marked(rows, ids), ids) == Marked(rows, ids)
  {
  }

  /** An id no row carries leaves the table as it was. */
  lemma MarkedUnknown(rows: seq<Task>, id: int)
    requires forall i :: 0 <= i < |rows| ==> rows[i].id != id
    ensures Marked(rows, {id}) == rows
  {
  }

  /** Marking one batch of ids after another is marking their union. */
  lemma MarkedUnion(rows: seq<Task>, a: set<int>, b: set<int>)
    ensures Marked(Marked(rows, a), b) == Marked(rows, a + b)
  {
  }

  /** A row whose id is not marked keeps being returned while it is due. */
  lemma UnmarkedStaysActive(rows: seq<Task>, ids: set<int>, t: Task, now: Instant, later: Instant)
    requires t in ActiveTasks(rows, now) && t.id !in ids && now <= later
    ensures t in ActiveTasks(Marked(rows, ids), later)
  {
    var i :| 0 <= i < |rows| && rows[i] == t;
    assert Marked(rows, ids)[i] == t;
  }

  lemma MarkedEvolves(rows: seq<Task>, ids: set<int>)
    ensures Evolves(rows, Marked(rows, ids))
  {
  }

  lemma {:induction false} EvolvesTransitive(a: seq<Task>, b: seq<Task>, c: seq<Task>)
    requires Evolves(a, b) && Evolves(b, c)
    ensures Evolves(a, c)
  {
    forall i | 0 <= i < |a|
      ensures c[i].(notified := a[i].notified) == a[i] && (a[i].notified ==> c[i].notified)
    {
      assert c[i].(notified := b[i].notified) == b[i];
      assert b[i].(notified := a[i].notified) == a[i];
    }
  }

  /** Once a row is notified, however the table evolves afterwards, the
      query never returns a row with its id again. */
  lemma NeverActiveAgain(before: seq<Task>, after: seq<Task>, i: int, now: Instant)
    requires Evolves(before, after) && DistinctIds(after)
    requires 0 <= i < |before| && before[i].notified
    ensures forall t :: t in ActiveTasks(after, now) ==> t.id != before[i].id
  {
    forall t | t in ActiveTasks(after, now) ensures t.id != before[i].id {
      var j :| 0 <= j < |after| && after[j] == t;
      assert after[i].id == before[i].id && after[i].notified;
    }
  }
}
