/** The row-based distributed lock: the shared retry loop of both acquisition policies,
    the lock object whose construction acquires and whose disposal releases, and what
    is proved about the loop. */
module Locking {
  import opened Base
  import opened LockTable

  /** Everything the loop observes but does not decide, indexed by the attempt number:
      whether statement `s` of attempt `i` raises (`InsertStatement`, `FlipStatement`),
      how many milliseconds the attempt takes, how far a sleep overshoots its request,
      and what other processes do to the table while attempt `i`'s sleep runs. */
  datatype World = World(
    raises: (nat, nat) -> bool,
    attemptTime: nat -> nat,
    oversleep: nat -> nat,
    others: (nat, Table) -> Table)

  const InsertStatement: nat := 0
  const FlipStatement: nat := 1

  /** A world without faults, delays or other processes. */
  function QuietWorld(): World {
    World((i, s) => false, i => 0, i => 0, (i, t) => t)
  }

  datatype LockOutcome = Acquired | TimedOut | Propagated

  /** One pause of the loop: the stopwatch reading that led to it and its duration. */
  datatype Sleep = Sleep(elapsed: int, duration: int)

  datatype RunResult = RunResult(outcome: LockOutcome, table: Table, clock: int, sleeps: seq<Sleep>)

  /** Attempt `i` of the given policy: only the update-count policy's claiming update lets
      an exception out, and a transactional attempt on a held resource fails and changes
      nothing. */
  function AttemptOf(policy: Policy, t: Table, resource: string, world: World, i: nat): (a: Attempt)
    ensures a.Raised? <==> policy == UpdateCount && world.raises(i, FlipStatement)
    ensures policy == Transactional && resource in t ==> a == Attempted(t, false)
  {
    match policy
    case Transactional => TransactionalAttempt(t, resource, world.raises(i, InsertStatement))
    case UpdateCount =>
      UpdateCountAttempt(t, resource, world.raises(i, InsertStatement), world.raises(i, FlipStatement))
  }

  /** The fixed parameters of one acquisition loop: the policy, the resource, the timeout in
      milliseconds, the outside world and the clock reading when the stopwatch started. */
  datatype Loop = Loop(policy: Policy, resource: string, timeout: int, world: World, start: int)

  /** How one iteration ends: the loop stops with an outcome, or it pauses and goes on with
      the table and the clock as they are after the pause. */
  datatype Step =
    | Stop(outcome: LockOutcome, table: Table, clock: int)
    | Continue(pause: Sleep, table: Table, clock: int)

  /** Iteration `i` of the loop, from the table `t` and the clock reading `clock`. An attempt
      that succeeds ends the loop normally; an exception that the attempt does not catch ends
      it at once; otherwise the loop gives up once the elapsed time exceeds the timeout or
      the computed pause is not positive, and sleeps before the next attempt. */
  function StepOf(l: Loop, i: nat, t: Table, clock: int): (s: Step)
    ensures s.Continue? ==> clock - l.start <= l.timeout && s.clock > clock
  {
    var a := AttemptOf(l.policy, t, l.resource, l.world, i);
    var now := clock + l.world.attemptTime(i);
    if a.Raised? then Stop(Propagated, a.table, now)
    else if a.acquired then Stop(Acquired, a.table, now)
    else if now - l.start > l.timeout then Stop(TimedOut, a.table, now)
    else
      var d := SleepDuration(l.timeout, now - l.start);
      if d <= 0 then Stop(TimedOut, a.table, now)
      else Continue(Sleep(now - l.start, d), l.world.others(i, a.table), now + d + l.world.oversleep(i))
  }

  /** A pause is capped and taken before the deadline, and the clock moves past it; the
      loop stops on time only when the elapsed time exceeds the timeout or the computed
      pause is not positive. */
  lemma StepFacts(l: Loop, i: nat, t: Table, clock: int)
    ensures var s := StepOf(l, i, t, clock);
            s.Continue? ==>
              && clock - l.start <= s.pause.elapsed
              && CappedSleep(s.pause, l.timeout)
              && s.clock - l.start >= s.pause.elapsed + s.pause.duration
    ensures var s := StepOf(l, i, t, clock);
            s.Stop? && s.outcome == TimedOut ==>
              s.clock - l.start > l.timeout || SleepDuration(l.timeout, s.clock - l.start) <= 0
  {
  }

  /** The loop from iteration `i` on, with the pauses it takes. It ends with the clock no
      earlier than it began, and only the update-count policy ends with an exception. */
  function Run(l: Loop, i: nat, t: Table, clock: int): (r: RunResult)
    ensures r.clock >= clock
    ensures r.outcome == Propagated ==> l.policy == UpdateCount
    decreases l.timeout - (clock - l.start)
  {
    match StepOf(l, i, t, clock)
    case Stop(outcome, t', clock') => RunResult(outcome, t', clock', [])
    case Continue(pause, t', clock') =>
      var rest := Run(l, i + 1, t', clock');
      rest.(sleeps := [pause] + rest.sleeps)
  }

  function SleepTotal(sleeps: seq<Sleep>): int {
    if sleeps == [] then 0 else sleeps[0].duration + SleepTotal(sleeps[1..])
  }

  /** A pause as the loop computes it: between 1 and 1000 ms, the remaining time capped at
      1000 ms, taken when the elapsed time had not passed the timeout. */
  predicate CappedSleep(s: Sleep, timeout: int) {
    && 1 <= s.duration <= MaxSleep
    && s.elapsed <= timeout
    && s.duration == Min(MaxSleep, timeout - s.elapsed)
  }

  /** Every pause the loop takes is a capped one. */
  lemma {:induction false} SleepsAreCapped(l: Loop, i: nat, t: Table, clock: int)
    ensures forall s :: s in Run(l, i, t, clock).sleeps ==> CappedSleep(s, l.timeout)
    decreases l.timeout - (clock - l.start)
  {
    var s := StepOf(l, i, t, clock);
    StepFacts(l, i, t, clock);
    if s.Continue? {
      SleepsAreCapped(l, i + 1, s.table, s.clock);
    }
  }

  /** The pauses fit in the time left at the start: there are at most
      `timeout - elapsed` of them, so the loop makes at most that many retries. */
  lemma {:induction false} SleepsFitInTimeout(l: Loop, i: nat, t: Table, clock: int)
    ensures var r := Run(l, i, t, clock);
            |r.sleeps| <= SleepTotal(r.sleeps) <= Max(0, l.timeout - (clock - l.start))
    decreases l.timeout - (clock - l.start)
  {
    var s := StepOf(l, i, t, clock);
    StepFacts(l, i, t, clock);
    if s.Continue? {
      SleepsFitInTimeout(l, i + 1, s.table, s.clock);
      var r := Run(l, i, t, clock);
      var rest := Run(l, i + 1, s.table, s.clock);
      assert r.sleeps == [s.pause] + rest.sleeps;
      assert r.sleeps[1..] == rest.sleeps;
    }
  }

  /** The loop gives up only when the elapsed time has passed the timeout or the computed
      pause is not positive: the time left is zero or less, or too large for `(int)`. */
  lemma {:induction false} TimeoutOnlyAtDeadline(l: Loop, i: nat, t: Table, clock: int)
    ensures var r := Run(l, i, t, clock);
            r.outcome == TimedOut ==>
              r.clock - l.start > l.timeout || SleepDuration(l.timeout, r.clock - l.start) <= 0
    ensures var r := Run(l, i, t, clock);
            r.outcome == TimedOut ==>
              r.clock - l.start >= l.timeout || r.clock - l.start < l.timeout - Int32Max
    decreases l.timeout - (clock - l.start)
  {
    var s := StepOf(l, i, t, clock);
    StepFacts(l, i, t, clock);
    if s.Continue? {
      TimeoutOnlyAtDeadline(l, i + 1, s.table, s.clock);
    }
  }

  /** The transactional policy swallows every exception of its attempts, and when it
      acquires, the resource's row is the one its last attempt inserted. */
  lemma {:induction false} TransactionalOutcomes(l: Loop, i: nat, t: Table, clock: int)
    requires l.policy == Transactional
    ensures var r := Run(l, i, t, clock);
            && r.outcome != Propagated
            && (r.outcome == Acquired ==> l.resource in r.table && r.table[l.resource] == DefaultUpdateCount)
    decreases l.timeout - (clock - l.start)
  {
    var s := StepOf(l, i, t, clock);
    if s.Continue? {
      TransactionalOutcomes(l, i + 1, s.table, s.clock);
    }
  }

  /** Mutual exclusion for the transactional policy: while the resource's row exists and
      no other process deletes it, the loop never acquires and leaves the row in place. */
  lemma {:induction false} TransactionalRespectsHeldLock(l: Loop, i: nat, t: Table, clock: int)
    requires l.policy == Transactional && l.resource in t
    requires forall k: nat, u: Table :: l.resource in u ==> l.resource in l.world.others(k, u)
    ensures var r := Run(l, i, t, clock);
            r.outcome == TimedOut && l.resource in r.table
    decreases l.timeout - (clock - l.start)
  {
    var s := StepOf(l, i, t, clock);
    assert AttemptOf(l.policy, t, l.resource, l.world, i) == Attempted(t, false);
    if s.Continue? {
      TransactionalRespectsHeldLock(l, i + 1, s.table, s.clock);
    }
  }

  /** The update-count policy as written acquires a resource whose row is claimed when
      another resource has an unclaimed row: here on its first attempt. */
  lemma UpdateCountAcquiresHeldLock()
    ensures var t := map["queue:default" := 1, "recurring-jobs:lock" := 0];
            var r := Run(Loop(UpdateCount, "queue:default", 5000, QuietWorld(), 0), 0, t, 0);
            r.outcome == Acquired && "queue:default" in r.table && r.table["queue:default"] == 1
  {
    UpdateCountAttemptGrantsHeldResource();
  }

  /** A storage configuration; only the choice of policy matters to the lock. */
  datatype StorageOptions = StorageOptions(useNativeDatabaseTransactions: bool)

  function PolicyOf(options: StorageOptions): Policy {
    if options.useNativeDatabaseTransactions then Transactional else UpdateCount
  }

  datatype LockError =
    | ArgumentNull(paramName: string)
    | LockException(message: string)
    | DatabaseError

  const TimeoutPrefix := "Could not place a lock on the resource '"
  const TimeoutSuffix := "': Lock timeout."
  const ReleasePrefix := "Could not release a lock on the resource '"
  const ReleaseSuffix := "'. Lock does not exists."

  function TimeoutMessage(resource: string): (m: string)
    ensures |m| == |TimeoutPrefix| + |resource| + |TimeoutSuffix|
    ensures m[|TimeoutPrefix|..|TimeoutPrefix| + |resource|] == resource
  {
    TimeoutPrefix + resource + TimeoutSuffix
  }

  function ReleaseMessage(resource: string): (m: string)
    ensures |m| == |ReleasePrefix| + |resource| + |ReleaseSuffix|
    ensures m[|ReleasePrefix|..|ReleasePrefix| + |resource|] == resource
  {
    ReleasePrefix + resource + ReleaseSuffix
  }

  /** How the constructor ends after the loop: normally, with the timeout exception naming
      the resource, or with the exception the flip statement raised. */
  function ErrorOf(outcome: LockOutcome, resource: string): Outcome<LockError> {
    match outcome
    case Acquired => Pass
    case TimedOut => Fail(LockException(TimeoutMessage(resource)))
    case Propagated => Fail(DatabaseError)
  }

  /** The connection's view of the shared database: the lock table and the clock the
      stopwatch reads. */
  class Connection {
    var table: Table
    var clock: int

    constructor (table: Table, clock: int)
      ensures this.table == table && this.clock == clock
    {
      this.table := table;
      this.clock := clock;
    }

    method InsertIfAbsent(resource: string, count: int) returns (rowsAffected: nat)
      modifies this`table
      ensures (table, rowsAffected) == LockTable.InsertIfAbsent(old(table), resource, count)
    {
      var r := LockTable.InsertIfAbsent(table, resource, count);
      table, rowsAffected := r.0, r.1;
    }

    method FlipAllUnclaimed() returns (rowsAffected: nat)
      modifies this`table
      ensures (table, rowsAffected) == LockTable.FlipAllUnclaimed(old(table))
    {
      var r := LockTable.FlipAllUnclaimed(table);
      table, rowsAffected := r.0, r.1;
    }

    method DeleteResource(resource: string) returns (rowsAffected: nat)
      modifies this`table
      ensures (table, rowsAffected) == LockTable.DeleteResource(old(table), resource)
    {
      var r := LockTable.DeleteResource(table, resource);
      table, rowsAffected := r.0, r.1;
    }

    /** Time spent running statements. */
    method Spend(ms: nat)
      modifies this`clock
      ensures clock == old(clock) + ms
    {
      clock := clock + ms;
    }

    /** `Thread.Sleep(ms)`: the clock advances by at least `ms`, and other processes may
      change the table meanwhile. */
    method Sleep(ms: nat, world: World, i: nat)
      modifies this
      ensures clock == old(clock) + ms + world.oversleep(i)
      ensures table == world.others(i, old(table))
    {
      clock := clock + ms + world.oversleep(i);
      table := world.others(i, table);
    }
  }

  class DistributedLock {
    const resource: string
    const connection: Connection
    const options: StorageOptions
    var completed: bool

    constructor (resource: string, connection: Connection, options: StorageOptions)
      ensures this.resource == resource && this.connection == connection && this.options == options
      ensures !completed
    {
      this.resource := resource;
      this.connection := connection;
      this.options := options;
      completed := false;
    }

    /** The constructor: check the arguments, then acquire with the configured policy.
        A lock object is handed out only when the loop acquired. */
    static method Open(resource: Option<string>, timeout: int, connection: Connection?,
                       options: Option<StorageOptions>, world: World)
      returns (r: Result<DistributedLock, LockError>)
      modifies connection
      ensures resource == None || resource == Some("") ==> r == Failure(ArgumentNull("resource"))
      ensures resource.Some? && resource.value != "" && connection == null ==>
                r == Failure(ArgumentNull("connection"))
      ensures resource.Some? && resource.value != "" && connection != null && options == None ==>
                r == Failure(ArgumentNull("options"))
      ensures r.Failure? && r.error.ArgumentNull? ==> connection == null || unchanged(connection)
      ensures resource.Some? && resource.value != "" && connection != null && options.Some? ==>
                var run := Run(Loop(PolicyOf(options.value), resource.value, timeout, world, old(connection.clock)),
                               0, old(connection.table), old(connection.clock));
                && connection.table == run.table
                && connection.clock == run.clock
                && (r.Success? <==> run.outcome == Acquired)
                && (r.Success? ==> fresh(r.value) && r.value.resource == resource.value
                                   && r.value.connection == connection && !r.value.completed)
                && (r.Failure? ==> Fail(r.error) == ErrorOf(run.outcome, resource.value))
    {
      if resource == None || resource == Some("") { return Failure(ArgumentNull("resource")); }
      if connection == null { return Failure(ArgumentNull("connection")); }
      if options == None { return Failure(ArgumentNull("options")); }
      var lk := new DistributedLock(resource.value, connection, options.value);
      var acquired: Outcome<LockError>;
      if options.value.useNativeDatabaseTransactions {
        acquired := lk.InitTransaction(resource.value, timeout, world);
      } else {
        acquired := lk.InitUpdateCount(resource.value, timeout, world);
      }
      if acquired.Fail? { return Failure(acquired.error); }
      return Success(lk);
    }

    /** The try block of the transactional policy: the conditional insert in a
        repeatable-read transaction, committed; an exception rolls it back and is
        swallowed, leaving `rowsAffected` at -1. */
    method TryInsertInTransaction(resource: string, raises: bool) returns (rowsAffected: int)
      modifies connection`table
      ensures TransactionalAttempt(old(connection.table), resource, raises)
                == Attempted(connection.table, rowsAffected > 0)
    {
      rowsAffected := -1;
      if !raises {
        rowsAffected := connection.InsertIfAbsent(resource, DefaultUpdateCount);
      }
    }

    /** The try block of the update-count policy: insert `(resource, 0)` if absent; an
        exception is swallowed. */
    method TryInsertUnclaimed(resource: string, raises: bool)
      modifies connection`table
      ensures connection.table == if raises then old(connection.table)
                                  else LockTable.InsertIfAbsent(old(connection.table), resource, 0).0
    {
      if !raises {
        var inserted := connection.InsertIfAbsent(resource, 0);
      }
    }

    /** One attempt of the update-count policy: the swallowed insert, then the flip, whose
        exception is not caught (`None`). Otherwise the result says whether a row changed. */
    method TryClaim(resource: string, world: World, i: nat) returns (claimed: Option<bool>)
      modifies connection`table
      ensures AttemptOf(UpdateCount, old(connection.table), resource, world, i)
              == if claimed.None? then Raised(connection.table) else Attempted(connection.table, claimed.value)
    {
      TryInsertUnclaimed(resource, world.raises(i, InsertStatement));
      if world.raises(i, FlipStatement) {
        return None;
      }
      var rowsAffected := connection.FlipAllUnclaimed();
      return Some(rowsAffected > 0);
    }

    /** What both loops do after a failed attempt: give up if the elapsed time exceeds the
        timeout; otherwise compute the pause, `(int)(timeout - elapsed)` capped at 1000 ms,
        and sleep for it if it is positive, or give up if it is not. */
    method PauseOrGiveUp(start: int, timeout: int, world: World, i: nat) returns (tryAcquireLock: bool)
      modifies connection
      ensures var elapsed := old(connection.clock) - start;
              tryAcquireLock <==> elapsed <= timeout && SleepDuration(timeout, elapsed) > 0
      ensures var elapsed := old(connection.clock) - start;
              tryAcquireLock ==>
                && connection.clock == old(connection.clock) + SleepDuration(timeout, elapsed) + world.oversleep(i)
                && connection.table == world.others(i, old(connection.table))
      ensures !tryAcquireLock ==> connection.clock == old(connection.clock) && connection.table == old(connection.table)
    {
      var elapsed := connection.clock - start;
      if elapsed > timeout {
        return false;
      }
      var sleepDuration := DoubleToInt32(timeout - elapsed) as int;
      if sleepDuration > 1000 { sleepDuration := 1000; }
      if sleepDuration > 0 {
        connection.Sleep(sleepDuration, world, i);
        return true;
      }
      return false;
    }

    /** The transactional policy's loop. */
    method InitTransaction(resource: string, timeout: int, world: World) returns (r: Outcome<LockError>)
      modifies connection
      ensures var run := Run(Loop(Transactional, resource, timeout, world, old(connection.clock)),
                             0, old(connection.table), old(connection.clock));
              connection.table == run.table && connection.clock == run.clock
              && r == ErrorOf(run.outcome, this.resource)
    {
      var start := connection.clock;
      ghost var l := Loop(Transactional, resource, timeout, world, start);
      ghost var run := Run(l, 0, connection.table, start);
      var tryAcquireLock := true;
      var i: nat := 0;
      while tryAcquireLock
        invariant tryAcquireLock ==>
                    var rest := Run(l, i, connection.table, connection.clock);
                    rest.outcome == run.outcome && rest.table == run.table && rest.clock == run.clock
        invariant !tryAcquireLock ==>
                    run.outcome == TimedOut && connection.table == run.table && connection.clock == run.clock
        decreases tryAcquireLock, timeout - (connection.clock - start)
      {
        ghost var before, clockBefore := connection.table, connection.clock;
        ghost var step := StepOf(l, i, before, clockBefore);
        var rowsAffected := TryInsertInTransaction(resource, world.raises(i, InsertStatement));
        connection.Spend(world.attemptTime(i));
        if rowsAffected > 0 {
          assert step == Stop(Acquired, connection.table, connection.clock);
          return Pass;
        }
        ghost var attempted, clockAttempted := connection.table, connection.clock;
        tryAcquireLock := PauseOrGiveUp(start, timeout, world, i);
        assert step == if tryAcquireLock
                       then Continue(Sleep(clockAttempted - start, connection.clock - clockAttempted - world.oversleep(i)),
                                     connection.table, connection.clock)
                       else Stop(TimedOut, attempted, clockAttempted);
        i := i + 1;
      }
      return Fail(LockException(TimeoutMessage(this.resource)));
    }

    /** The update-count policy's loop. */
    method InitUpdateCount(resource: string, timeout: int, world: World) returns (r: Outcome<LockError>)
      modifies connection
      ensures var run := Run(Loop(UpdateCount, resource, timeout, world, old(connection.clock)),
                             0, old(connection.table), old(connection.clock));
              connection.table == run.table && connection.clock == run.clock
              && r == ErrorOf(run.outcome, this.resource)
    {
      var start := connection.clock;
      ghost var l := Loop(UpdateCount, resource, timeout, world, start);
      ghost var run := Run(l, 0, connection.table, start);
      var tryAcquireLock := true;
      var i: nat := 0;
      while tryAcquireLock
        invariant tryAcquireLock ==>
                    var rest := Run(l, i, connection.table, connection.clock);
                    rest.outcome == run.outcome && rest.table == run.table && rest.clock == run.clock
        invariant !tryAcquireLock ==>
                    run.outcome == TimedOut && connection.table == run.table && connection.clock == run.clock
        decreases tryAcquireLock, timeout - (connection.clock - start)
      {
        ghost var before, clockBefore := connection.table, connection.clock;
        ghost var step := StepOf(l, i, before, clockBefore);
        var claimed := TryClaim(resource, world, i);
        connection.Spend(world.attemptTime(i));
        if claimed.None? {
          assert step == Stop(Propagated, connection.table, connection.clock);
          return Fail(DatabaseError);
        }
        if claimed.value {
          assert step == Stop(Acquired, connection.table, connection.clock);
          return Pass;
        }
        ghost var attempted, clockAttempted := connection.table, connection.clock;
        tryAcquireLock := PauseOrGiveUp(start, timeout, world, i);
        assert step == if tryAcquireLock
                       then Continue(Sleep(clockAttempted - start, connection.clock - clockAttempted - world.oversleep(i)),
                                     connection.table, connection.clock)
                       else Stop(TimedOut, attempted, clockAttempted);
        i := i + 1;
      }
      return Fail(LockException(TimeoutMessage(this.resource)));
    }

    /** Release: only the first call deletes the resource's row; it marks the lock completed
        before the delete, so later calls do nothing even when the first one failed, whether
        the row was missing or the delete itself raised (`deleteRaises`), leaving the row. */
    method Dispose(deleteRaises: bool) returns (r: Outcome<LockError>)
      modifies this`completed, connection`table
      ensures completed
      ensures old(completed) ==> r == Pass && connection.table == old(connection.table)
      ensures !old(completed) && deleteRaises ==>
                r == Fail(DatabaseError) && connection.table == old(connection.table)
      ensures !old(completed) && !deleteRaises ==>
                && connection.table == old(connection.table) - {resource}
                && (r == Pass <==> resource in old(connection.table))
                && (r.Fail? ==> r.error == LockException(ReleaseMessage(resource)))
    {
      if completed { return Pass; }
      completed := true;
      if deleteRaises { return Fail(DatabaseError); }
      var rowsAffected := connection.DeleteResource(resource);
      if rowsAffected <= 0 {
        return Fail(LockException(ReleaseMessage(resource)));
      }
      return Pass;
    }
  }
}
