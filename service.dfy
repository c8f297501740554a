/** The task service (package internal/service): task creation
    (task.go), one tick of the notification worker (worker.go) and the
    credential operations (auth.go). The service holds both stores it
    works on: the task table and the key-value store. */
module Service {
  import opened Wrappers
  import opened Text
  import opened Calendar
  import opened Deadlines
  import opened Tasks
  import opened KeyValue
  import opened Tokens
  import Credentials

  const ErrPast := "время выполнения не должно быть в прошлом"
  const ReminderPrefix := "⏰Напоминание: "

  /** A message handed to the bot: the chat it goes to and its text. */
  datatype Outgoing = Outgoing(chatId: int, text: string)

  /** What `CreateTask` hands to the repository, or the error it returns
      without touching it: a deadline the layout refuses, or one the
      current instant is strictly past. The record carries the owner, the
      title as given (no check on it) and the deadline; its other fields
      keep their zero values. */
  function Validate(userId: int, title: string, deadlineStr: string, now: Instant): (r: Result<Task, string>)
    ensures r.Success? <==> ParseLayout(deadlineStr).Some? && now <= ToInstant(ParseLayout(deadlineStr).value)
    ensures r.Success? ==> r.value == Task(0, userId, title, ParseLayout(deadlineStr).value, false, ZeroInstant)
    ensures ParseLayout(deadlineStr).None? ==> r.Failure? && ErrBadTime <= r.error
    ensures ParseLayout(deadlineStr).Some? && r.Failure? ==> r.error == ErrPast
  {
    var (deadline, err) := ParseTime(deadlineStr);
    if err.Some? then Failure(err.value)
    else if now - ToInstant(deadline) > 0 then Failure(ErrPast)
    else Success(Task(0, userId, title, deadline, false, ZeroInstant))
  }

  /** The reminder the worker sends for a due task: to its owner, naming it. */
  function Reminder(t: Task): Outgoing {
    Outgoing(t.userId, ReminderPrefix + t.title)
  }

  /** One reminder per task, in the order of the tasks. */
  function Reminders(tasks: seq<Task>): (r: seq<Outgoing>)
    ensures |r| == |tasks| && forall i :: 0 <= i < |tasks| ==> r[i] == Reminder(tasks[i])
  {
    if tasks == [] then [] else Reminders(tasks[..|tasks| - 1]) + [Reminder(tasks[|tasks| - 1])]
  }

  /** The ids of the first `k` fetched tasks whose reminder went out and
      whose flag update went through. */
  function Delivered(tasks: seq<Task>, k: nat, sendFault: nat -> Fault, markFault: nat -> Fault): set<int>
    requires k <= |tasks|
  {
    set i | 0 <= i < k && sendFault(i).None? && markFault(i).None? :: tasks[i].id
  }

  class TaskService {
    const repo: TaskTable
    const redis: KeyValueStore
    const signer: Signer

    constructor(repo: TaskTable, redis: KeyValueStore, signer: Signer)
      ensures this.repo == repo && this.redis == redis && this.signer == signer
    {
      this.repo := repo;
      this.redis := redis;
      this.signer := signer;
    }

    /** `CreateTask`: parse the deadline, refuse one in the past, then make
        exactly one insert and return its error unchanged. */
    method CreateTask(userId: int, title: string, deadlineStr: string, now: Instant, fault: Fault) returns (err: Fault)
      requires repo.Valid()
      modifies repo
      ensures repo.Valid()
      ensures var v := Validate(userId, title, deadlineStr, now);
        && (v.Failure? ==> err == Some(v.error) && repo.rows == old(repo.rows) && repo.nextId == old(repo.nextId))
        && (v.Success? ==> err == fault)
        && (v.Success? && fault.None? ==>
              repo.rows == old(repo.rows) + [Task(old(repo.nextId), userId, title, v.value.deadline, false, now)])
        && (v.Success? && fault.Some? ==> repo.rows == old(repo.rows))
    {
      var (deadline, parseErr) := ParseTime(deadlineStr);
      if parseErr.Some? {
        return parseErr;
      }
      if now - ToInstant(deadline) > 0 {
        return Some(ErrPast);
      }
      var task := Task(0, userId, title, deadline, false, ZeroInstant);
      err := repo.Create(task, now, fault);
    }

    /** One tick of the notification worker: fetch the due tasks; when the
        fetch fails, do nothing else. Otherwise send one reminder per task,
        in fetch order, and mark a task notified only when its reminder went
        out; an error of the update is ignored and the next task is still
        handled. `sendFault(i)` and `markFault(i)` are the outcomes of the
        i-th send and of the update that may follow it. */
    method NotificationTick(now: Instant, queryFault: Fault, collectFault: Fault,
                            sendFault: nat -> Fault, markFault: nat -> Fault) returns (sends: seq<Outgoing>)
      requires repo.Valid()
      modifies repo
      ensures repo.Valid() && repo.nextId == old(repo.nextId)
      ensures var fetched := old(repo.GetActiveTasks(now, queryFault, collectFault));
        && (fetched.Failure? ==> sends == [] && repo.rows == old(repo.rows))
        && (fetched.Success? ==> sends == Reminders(fetched.value))
        && (fetched.Success? ==>
              repo.rows == Marked(old(repo.rows), Delivered(fetched.value, |fetched.value|, sendFault, markFault)))
    {
      var fetched := repo.GetActiveTasks(now, queryFault, collectFault);
      if fetched.Failure? {
        return [];
      }
      var tasks := fetched.value;
      ghost var rows0 := repo.rows;
      sends := [];
      var i := 0;
      while i < |tasks|
        invariant 0 <= i <= |tasks|
        invariant repo.Valid() && repo.nextId == old(repo.nextId)
        invariant sends == Reminders(tasks[..i])
        invariant repo.rows == Marked(rows0, Delivered(tasks, i, sendFault, markFault))
      {
        var task := tasks[i];
        assert tasks[..i + 1][..i] == tasks[..i];
        sends := sends + [Reminder(task)];
        DeliveredStep(tasks, i, sendFault, markFault);
        if sendFault(i).None? {
          MarkedUnion(rows0, Delivered(tasks, i, sendFault, markFault), {task.id});
          var _ := repo.MarkAsNotified(task.id, markFault(i));
        }
        i := i + 1;
      }
      assert tasks[..i] == tasks;
    }

    /** `GenerateAuthCode`, with `n` the number drawn from [0, 1000000). */
    method GenerateAuthCode(userId: int, n: nat, setFault: Fault) returns (code: string, err: Fault)
      requires n < Credentials.CodeRange
      modifies redis
      ensures var o := Credentials.IssueCode(old(redis.data), userId, n, setFault);
        (code, err) == o.answer && redis.data == o.data
    {
      code := Credentials.AuthCode(n);
      err := redis.Set(Credentials.OtpKey(userId), code, setFault);
    }

    /** `Login`, with `newToken` the new refresh token. */
    method Login(userId: int, code: string, now: Instant, newToken: string,
                 lookupFault: Fault, setFault: Fault, deleteFault: Fault) returns (r: Result<Credentials.TokenPair, string>)
      modifies redis
      ensures var o := Credentials.Login(old(redis.data), signer, userId, code, now, newToken, lookupFault, setFault, deleteFault);
        r == o.answer && redis.data == o.data
    {
      var key := Credentials.OtpKey(userId);
      var saved := redis.Get(key, lookupFault);
      if saved.Failure? || saved.value != code {
        return Failure(Credentials.ErrBadCode);
      }
      var access := GenerateToken(signer, userId, Credentials.AccessLifetime, now);
      var err := redis.Set(Credentials.RefreshKey(newToken), IntToDecimal(userId), setFault);
      if err.Some? {
        return Failure(err.value);
      }
      var _ := redis.Delete(key, deleteFault);
      r := Success(Credentials.TokenPair(access, newToken));
    }

    /** `Logout`: the error of the blacklist write only. */
    method Logout(access: string, refresh: string, deleteFault: Fault, setFault: Fault) returns (err: Fault)
      modifies redis
      ensures var o := Credentials.Logout(old(redis.data), access, refresh, deleteFault, setFault);
        err == o.answer && redis.data == o.data
    {
      var _ := redis.Delete(Credentials.RefreshKey(refresh), deleteFault);
      err := redis.Set(Credentials.BlacklistKey(access), Credentials.Revoked, setFault);
    }

    /** `Refresh`, with `newToken` the new refresh token. */
    method Refresh(previous: string, now: Instant, newToken: string,
                   lookupFault: Fault, deleteFault: Fault, setFault: Fault) returns (r: Result<Credentials.TokenPair, string>)
      modifies redis
      ensures var o := Credentials.Refresh(old(redis.data), signer, previous, now, newToken, lookupFault, deleteFault, setFault);
        r == o.answer && redis.data == o.data
    {
      var key := Credentials.RefreshKey(previous);
      var val := redis.Get(key, lookupFault);
      if val.Failure? {
        return Failure(Credentials.ErrBadRefresh);
      }
      var userId := ScanInt(val.value);
      var access := GenerateToken(signer, userId, Credentials.AccessLifetime, now);
      var _ := redis.Delete(key, deleteFault);
      var _ := redis.Set(Credentials.RefreshKey(newToken), IntToDecimal(userId), setFault);
      r := Success(Credentials.TokenPair(access, newToken));
    }
  }

  // ---------------------------------------------------------------------
  // Task creation
  // ---------------------------------------------------------------------

  /** A deadline written in the zero-padded form the tests use is accepted
      exactly when it is not before the current instant (a deadline equal to
      it passes), and the record then carries that very deadline. */
  lemma ValidateFormatted(userId: int, title: string, dt: Time, now: Instant)
    requires dt.year <= 9999
    ensures Validate(userId, title, Format(dt), now)
            == if now <= ToInstant(dt) then Success(Task(0, userId, title, dt, false, ZeroInstant)) else Failure(ErrPast)
  {
    FormatRoundTrip(dt);
  }

  /** Of two deadlines in the layout, the later one is accepted whenever the
      earlier one is. */
  lemma ValidateLater(userId: int, title: string, early: Time, late: Time, now: Instant)
    requires early.year <= 9999 && late.year <= 9999 && !Before(late, early)
    requires Validate(userId, title, Format(early), now).Success?
    ensures Validate(userId, title, Format(late), now).Success?
  {
    ValidateFormatted(userId, title, early, now);
    ValidateFormatted(userId, title, late, now);
    ToInstantMonotone(late, early);
  }

  // ---------------------------------------------------------------------
  // The notification tick
  // ---------------------------------------------------------------------

  lemma DeliveredStep(tasks: seq<Task>, i: nat, sendFault: nat -> Fault, markFault: nat -> Fault)
    requires i < |tasks|
    ensures Delivered(tasks, i + 1, sendFault, markFault)
            == Delivered(tasks, i, sendFault, markFault)
               + if sendFault(i).None? && markFault(i).None? then {tasks[i].id} else {}
  {
  }

  /** Among tasks with distinct ids, a task's id is delivered exactly when
      its own send and update went through. */
  lemma DeliveredIff(tasks: seq<Task>, sendFault: nat -> Fault, markFault: nat -> Fault, i: int)
    requires DistinctIds(tasks) && 0 <= i < |tasks|
    ensures tasks[i].id in Delivered(tasks, |tasks|, sendFault, markFault)
            <==> sendFault(i).None? && markFault(i).None?
  {
    if tasks[i].id in Delivered(tasks, |tasks|, sendFault, markFault) {
      var j :| 0 <= j < |tasks| && sendFault(j).None? && markFault(j).None? && tasks[j].id == tasks[i].id;
      assert j == i;
    }
  }

  /** After a tick, a fetched task is notified exactly when its reminder
      went out and its update went through. */
  lemma TickMarksIffDelivered(rows: seq<Task>, now: Instant, sendFault: nat -> Fault, markFault: nat -> Fault, i: int, j: int)
    requires DistinctIds(rows)
    requires 0 <= i < |ActiveTasks(rows, now)| && 0 <= j < |rows| && rows[j] == ActiveTasks(rows, now)[i]
    ensures var tasks := ActiveTasks(rows, now);
      Marked(rows, Delivered(tasks, |tasks|, sendFault, markFault))[j].notified
      <==> sendFault(i).None? && markFault(i).None?
  {
    var tasks := ActiveTasks(rows, now);
    ActiveDistinct(rows, now);
    DeliveredIff(tasks, sendFault, markFault, i);
    assert tasks[i] in tasks;
  }

  /** A task whose reminder failed stays unnotified, so every later tick
      fetches it again. */
  lemma FailedSendStaysActive(rows: seq<Task>, now: Instant, sendFault: nat -> Fault, markFault: nat -> Fault, i: int, later: Instant)
    requires DistinctIds(rows) && now <= later
    requires 0 <= i < |ActiveTasks(rows, now)| && sendFault(i).Some?
    ensures var tasks := ActiveTasks(rows, now);
      tasks[i] in ActiveTasks(Marked(rows, Delivered(tasks, |tasks|, sendFault, markFault)), later)
  {
    var tasks := ActiveTasks(rows, now);
    ActiveDistinct(rows, now);
    DeliveredIff(tasks, sendFault, markFault, i);
    assert tasks[i] in tasks;
    UnmarkedStaysActive(rows, Delivered(tasks, |tasks|, sendFault, markFault), tasks[i], now, later);
  }

  /** A task whose reminder went out and was recorded is never fetched
      again, however the table evolves afterwards. */
  lemma DeliveredNeverAgain(rows: seq<Task>, now: Instant, sendFault: nat -> Fault, markFault: nat -> Fault, i: int,
                            future: seq<Task>, later: Instant)
    requires DistinctIds(rows) && 0 <= i < |ActiveTasks(rows, now)|
    requires sendFault(i).None? && markFault(i).None?
    requires var tasks := ActiveTasks(rows, now);
      Evolves(Marked(rows, Delivered(tasks, |tasks|, sendFault, markFault)), future) && DistinctIds(future)
    ensures forall t :: t in ActiveTasks(future, later) ==> t.id != ActiveTasks(rows, now)[i].id
  {
    var tasks := ActiveTasks(rows, now);
    var after := Marked(rows, Delivered(tasks, |tasks|, sendFault, markFault));
    assert tasks[i] in tasks;
    var j :| 0 <= j < |rows| && rows[j] == tasks[i];
    TickMarksIffDelivered(rows, now, sendFault, markFault, i, j);
    NeverActiveAgain(after, future, j, later);
  }

  /** A tick touches only fetched tasks: every row it changes was due and
      unnotified, and it never adds, removes or unflags a row. */
  lemma TickTouchesOnlyFetched(rows: seq<Task>, now: Instant, sendFault: nat -> Fault, markFault: nat -> Fault)
    requires DistinctIds(rows)
    ensures var tasks := ActiveTasks(rows, now);
      var after := Marked(rows, Delivered(tasks, |tasks|, sendFault, markFault));
      Evolves(rows, after)
      && forall j :: 0 <= j < |rows| && after[j] != rows[j] ==> rows[j] in tasks
  {
    var tasks := ActiveTasks(rows, now);
    var ids := Delivered(tasks, |tasks|, sendFault, markFault);
    var after := Marked(rows, ids);
    MarkedEvolves(rows, ids);
    forall j | 0 <= j < |rows| && after[j] != rows[j] ensures rows[j] in tasks {
      var k :| 0 <= k < |tasks| && sendFault(k).None? && markFault(k).None? && tasks[k].id == rows[j].id;
      assert tasks[k] in tasks;
      var p :| 0 <= p < |rows| && rows[p] == tasks[k];
      assert p == j;
    }
  }
}
