/** The commands a write-only transaction queues, what each one does to the store when it
    runs inside the commit's database transaction, and the commit's run of the whole queue
    in order. */
module Commands {
  import opened Base
  import opened Storage
  import JobIds

  /** A job state as the transaction writes it; the serialized data is opaque text. */
  datatype StateRecord = StateRecord(name: string, reason: string, data: string)

  /** One queued statement, with the parameters fixed when it was queued, grouped by the
      table it writes. An expiry of `None` clears `expireat`; counter and job expiries are
      whole seconds, the others milliseconds. */
  datatype Command =
    | OnCounters(counterCommand: CounterCommand)
    | OnSets(setCommand: SetCommand)
    | OnLists(listCommand: ListCommand)
    | OnHashes(hashCommand: HashCommand)
    | OnJobs(jobCommand: JobCommand)
    | OnQueues(queue: string, queuedJobId: string)

  datatype CounterCommand = CounterInsert(key: string, delta: int, expireInSeconds: Option<int>)

  datatype SetCommand =
    | SetUpsert(key: string, value: string, score: real)
    | SetInsertRange(key: string, items: seq<string>)
    | SetRemove(key: string, value: string)
    | SetRemoveKey(key: string)
    | SetExpire(key: string, expireIn: Option<int>)

  datatype ListCommand =
    | ListInsert(key: string, value: string)
    | ListRemove(key: string, value: string)
    | ListTrim(key: string, keepStartingFrom: int32, keepEndingAt: int32)
    | ListExpire(key: string, expireIn: Option<int>)

  datatype HashCommand =
    | HashUpsert(key: string, field: string, value: string)
    | HashRemoveKey(key: string)
    | HashExpire(key: string, expireIn: Option<int>)

  datatype JobCommand =
    | JobExpire(jobId: Option<string>, expireInSeconds: Option<int>)
    | JobAddState(jobId: Option<string>, state: StateRecord, setCurrent: bool)

  /** Why a commit does not go through. */
  datatype CommitFault =
    | UniqueViolation(key: string, value: string)
    | NegativeOffsetOrLimit
    | InvalidJobId(jobId: string)
    | ExpiryOutOfRange
    | StatementFailed(index: nat)
    | CommitFailed

  /** `NOW()` is the start of the database transaction; `DateTime.UtcNow` is read by each
      command as it runs, so the client's clock is a function of the command's position.
      Client times are milliseconds since `DateTime.MinValue`. */
  datatype Clocks = Clocks(transactionStart: int, client: nat -> int)

  /** `(long)expireIn.TotalSeconds`: whole seconds, truncated toward zero. */
  function WholeSeconds(ms: int): (r: int)
    ensures 0 <= ms ==> 0 <= r * 1000 <= ms < r * 1000 + 1000
    ensures ms < 0 ==> ms <= r * 1000 <= 0 && r * 1000 - 1000 < ms
  {
    if ms >= 0 then ms / 1000 else -((-ms) / 1000)
  }

  /** `DateTime.MaxValue` in whole milliseconds since `DateTime.MinValue`. */
  const MaxDateTimeMs: int := 315_537_897_599_999

  /** `DateTime.UtcNow.Add(expireIn)`, computed when the command runs, or no expiry.
      `DateTime.Add` throws when the sum leaves DateTime's range. */
  function ExpiryAt(now: int, expireIn: Option<int>): (r: Result<Option<int>, CommitFault>)
    ensures expireIn.None? ==> r == Success(None)
    ensures expireIn.Some? ==> (r.Success? <==> 0 <= now + expireIn.value <= MaxDateTimeMs)
    ensures r.Success? && expireIn.Some? ==> r.value == Some(now + expireIn.value)
    ensures r.Failure? ==> r.error == ExpiryOutOfRange
  {
    match expireIn
    case None => Success(None)
    case Some(ms) => if 0 <= now + ms <= MaxDateTimeMs then Success(Some(now + ms)) else Failure(ExpiryOutOfRange)
  }

  /** `NOW() AT TIME ZONE 'UTC' + INTERVAL 'n SECONDS'`, or no expiry. */
  function ExpiryInSeconds(dbNow: int, seconds: Option<int>): Option<int> {
    match seconds
    case None => None
    case Some(n) => Some(dbNow + n * 1000)
  }

  /** The `LIMIT` of the trim statement, `keepEndingAt - keepStartingFrom + 1` in unchecked
      32-bit arithmetic. */
  function TrimLimit(keepStartingFrom: int32, keepEndingAt: int32): (r: int32)
    ensures 0 < keepStartingFrom <= keepEndingAt ==> r as int == keepEndingAt as int - keepStartingFrom as int + 1 > 0
    ensures keepStartingFrom == 0 && keepEndingAt as int == Int32Max ==> r as int == Int32Min
    ensures 0 <= keepEndingAt < keepStartingFrom ==> r <= 0
  {
    Wrap32(keepEndingAt as int - keepStartingFrom as int + 1)
  }

  /** The counter insert appends one delta row. */
  function ApplyToCounters(c: CounterCommand, rows: seq<CounterRow>, dbNow: int): (r: seq<CounterRow>)
    ensures |r| == |rows| + 1 && r[..|rows|] == rows
  {
    rows + [CounterRow(c.key, c.delta, ExpiryInSeconds(dbNow, c.expireInSeconds))]
  }

  /** The row updates of `SET expireat = at`, one per row type. */
  function SetRowExpiry(at: Option<int>): SetRow -> SetRow {
    (row: SetRow) => row.(expireAt := at)
  }

  function HashRowExpiry(at: Option<int>): HashRow -> HashRow {
    (row: HashRow) => row.(expireAt := at)
  }

  /** The set statements; only a plain insert of a pair already present, and an expiry
      outside DateTime's range, raise. */
  function ApplyToSets(c: SetCommand, sets: map<(string, string), SetRow>, clientNow: int)
    : (r: Result<map<(string, string), SetRow>, CommitFault>)
    ensures r.Failure? && c.SetInsertRange? ==> r.error.UniqueViolation? && r.error.key == c.key
    ensures c.SetExpire? ==> (r.Failure? <==> ExpiryAt(clientNow, c.expireIn).Failure?)
    ensures r.Failure? ==> c.SetInsertRange? || (c.SetExpire? && r.error == ExpiryOutOfRange)
  {
    match c
    case SetUpsert(key, value, score) => Success(UpsertSetRow(sets, key, value, score))
    case SetInsertRange(key, items) =>
      var inserted := InsertSetRows(sets, key, items);
      if inserted.Failure? then Failure(UniqueViolation(key, inserted.error)) else Success(inserted.value)
    case SetRemove(key, value) => Success(DeletePair(sets, key, value))
    case SetRemoveKey(key) => Success(DeleteKey(sets, key))
    case SetExpire(key, expireIn) =>
      var at := ExpiryAt(clientNow, expireIn);
      if at.Failure? then Failure(at.error) else Success(UpdateKeyRows(sets, key, SetRowExpiry(at.value)))
  }

  /** The list statements; only a trim with a negative offset or limit raises, and only
      when the key has a row for the subquery to run on, and an expiry outside DateTime's
      range. Each keeps the ids in order. */
  function ApplyToLists(c: ListCommand, t: ListTable, clientNow: int): (r: Result<ListTable, CommitFault>)
    ensures r.Failure? && c.ListTrim? ==> r.error == NegativeOffsetOrLimit
    ensures c.ListExpire? ==> (r.Failure? <==> ExpiryAt(clientNow, c.expireIn).Failure?)
    ensures r.Failure? ==> c.ListTrim? || (c.ListExpire? && r.error == ExpiryOutOfRange)
    ensures ListValid(t) && r.Success? ==> ListValid(r.value)
  {
    match c
    case ListInsert(key, value) =>
      var row := ListRow(t.nextId, key, value, None);
      assert ListValid(t) ==> IdsAbove(t.rows + [row], -1, t.nextId + 1) by {
        if ListValid(t) { AppendKeepsIdsOrdered(t.rows, -1, t.nextId, row); }
      }
      Success(ListTable(t.rows + [row], t.nextId + 1))
    case ListRemove(key, value) =>
      assert ListValid(t) ==> IdsAbove(DeleteListValue(t.rows, key, value), -1, t.nextId) by {
        if ListValid(t) { DeleteKeepsIdsOrdered(t.rows, -1, t.nextId, key, value); }
      }
      Success(t.(rows := DeleteListValue(t.rows, key, value)))
    case ListTrim(key, from, to) =>
      var limit := TrimLimit(from, to);
      if KeyRows(t.rows, key) != [] && (from < 0 || limit < 0) then Failure(NegativeOffsetOrLimit)
      else
        var kept := TrimRows(t.rows, key, from as int, from as int + limit as int, 0);
        assert ListValid(t) ==> IdsAbove(kept, -1, t.nextId) by {
          if ListValid(t) { TrimKeepsIdsOrdered(t.rows, -1, t.nextId, key, from as int, from as int + limit as int, 0); }
        }
        Success(t.(rows := kept))
    case ListExpire(key, expireIn) =>
      var expiry := ExpiryAt(clientNow, expireIn);
      if expiry.Failure? then Failure(expiry.error)
      else
        var at := expiry.value;
        assert ListValid(t) ==> IdsAbove(ListExpiry(t.rows, key, at), -1, t.nextId) by {
          if ListValid(t) { ExpiryKeepsIdsOrdered(t.rows, -1, t.nextId, key, at); }
        }
        Success(t.(rows := ListExpiry(t.rows, key, at)))
  }

  lemma {:induction false} ExpiryKeepsIdsOrdered(rows: seq<ListRow>, floor: int, nextId: nat, key: string, at: Option<int>)
    requires IdsAbove(rows, floor, nextId)
    ensures IdsAbove(ListExpiry(rows, key, at), floor, nextId)
  {
    if rows != [] {
      ExpiryKeepsIdsOrdered(rows[1..], rows[0].id, nextId, key, at);
      assert ListExpiry(rows, key, at)[1..] == ListExpiry(rows[1..], key, at);
    }
  }

  /** The hash statements; only an expiry outside DateTime's range raises. */
  function ApplyToHashes(c: HashCommand, hashes: map<(string, string), HashRow>, clientNow: int)
    : (r: Result<map<(string, string), HashRow>, CommitFault>)
    ensures r.Failure? <==> c.HashExpire? && ExpiryAt(clientNow, c.expireIn).Failure?
    ensures r.Failure? ==> r.error == ExpiryOutOfRange
    ensures r.Success? ==> forall p :: p in r.value ==> p in hashes || (c.HashUpsert? && p == (c.key, c.field))
  {
    match c
    case HashUpsert(key, field, value) => Success(UpsertHashRow(hashes, key, field, value))
    case HashRemoveKey(key) => Success(DeleteKey(hashes, key))
    case HashExpire(key, expireIn) =>
      var at := ExpiryAt(clientNow, expireIn);
      if at.Failure? then Failure(at.error) else Success(UpdateKeyRows(hashes, key, HashRowExpiry(at.value)))
  }

  /** The job statements; they raise only when the job id does not parse. A new state
      takes the next state id. */
  function ApplyToJobs(c: JobCommand, t: JobTables, dbNow: int, clientNow: int): (r: Result<JobTables, CommitFault>)
    ensures r.Failure? <==> c.jobId.Some? && JobIds.ParseInt32(c.jobId.value).None?
    ensures r.Failure? ==> r.error == InvalidJobId(c.jobId.value)
    ensures JobsValid(t) && r.Success? ==> JobsValid(r.value)
    ensures r.Success? ==> r.value.jobs.Keys == t.jobs.Keys
  {
    var id := JobIds.ConvertToInt32(c.jobId);
    if id.None? then Failure(InvalidJobId(c.jobId.value))
    else
      match c
      case JobExpire(_, seconds) =>
        Success(t.(jobs := JobExpiry(t.jobs, id.value as int, ExpiryInSeconds(dbNow, seconds))))
      case JobAddState(_, state, setCurrent) =>
        var row := StateRow(t.nextStateId, id.value as int, state.name, state.reason, clientNow, state.data);
        var jobs := if setCurrent then SetCurrentState(t.jobs, id.value as int, t.nextStateId, state.name) else t.jobs;
        Success(JobTables(jobs, t.states + [row], t.nextStateId + 1))
  }

  /** `UPDATE job SET expireat = @at WHERE id = @id`. */
  function JobExpiry(jobs: map<int, JobRow>, id: int, at: Option<int>): (r: map<int, JobRow>)
    ensures r.Keys == jobs.Keys
    ensures id in jobs ==> r[id] == jobs[id].(expireAt := at)
    ensures forall j :: j in jobs && j != id ==> r[j] == jobs[j]
  {
    if id in jobs then jobs[id := jobs[id].(expireAt := at)] else jobs
  }

  /** `UPDATE job SET stateid = @stateId, statename = @name WHERE id = @id`. */
  function SetCurrentState(jobs: map<int, JobRow>, id: int, stateId: nat, name: string): (r: map<int, JobRow>)
    ensures r.Keys == jobs.Keys
    ensures id in jobs ==> r[id] == jobs[id].(stateId := Some(stateId), stateName := Some(name))
    ensures forall j :: j in jobs && j != id ==> r[j] == jobs[j]
  {
    if id in jobs then jobs[id := jobs[id].(stateId := Some(stateId), stateName := Some(name))] else jobs
  }

  /** Runs one command inside the commit's transaction: it changes its own table only and
      keeps the store's invariant. */
  function Execute(c: Command, s: Store, dbNow: int, clientNow: int): (r: Result<Store, CommitFault>)
    ensures r.Success? && !c.OnCounters? ==> r.value.counters == s.counters
    ensures r.Success? && !c.OnSets? ==> r.value.sets == s.sets
    ensures r.Success? && !c.OnLists? ==> r.value.lists == s.lists
    ensures r.Success? && !c.OnHashes? ==> r.value.hashes == s.hashes
    ensures r.Success? && !c.OnJobs? ==> r.value.jobs == s.jobs
    ensures r.Success? && !c.OnQueues? ==> r.value.queued == s.queued
    ensures r.Failure? ==> c.OnSets? || c.OnLists? || c.OnHashes? || c.OnJobs?
    ensures r.Failure? ==> !r.error.StatementFailed? && !r.error.CommitFailed?
    ensures Valid(s) && r.Success? ==> Valid(r.value)
  {
    match c
    case OnCounters(cc) => Success(s.(counters := ApplyToCounters(cc, s.counters, dbNow)))
    case OnSets(sc) =>
      var r := ApplyToSets(sc, s.sets, clientNow);
      if r.Failure? then Failure(r.error) else Success(s.(sets := r.value))
    case OnLists(lc) =>
      var r := ApplyToLists(lc, s.lists, clientNow);
      if r.Failure? then Failure(r.error) else Success(s.(lists := r.value))
    case OnHashes(hc) =>
      var r := ApplyToHashes(hc, s.hashes, clientNow);
      if r.Failure? then Failure(r.error) else Success(s.(hashes := r.value))
    case OnJobs(jc) =>
      var r := ApplyToJobs(jc, s.jobs, dbNow, clientNow);
      if r.Failure? then Failure(r.error) else Success(s.(jobs := r.value))
    case OnQueues(queue, jobId) => Success(s.(queued := s.queued + [QueuedJob(queue, jobId)]))
  }

  /** The command at position `index` of the queue: a statement the database rejects for a
      reason outside this model (connection loss, a constraint not modelled here, a
      serialization failure) is one whose index is in `faults`. */
  function ExecuteAt(c: Command, s: Store, clocks: Clocks, faults: set<nat>, index: nat): (r: Result<Store, CommitFault>)
    ensures r.Success? ==> index !in faults
    ensures r.Failure? ==> (r.error == StatementFailed(index) <==> index in faults)
    ensures r.Failure? && r.error.StatementFailed? ==> r.error.index == index
  {
    if index in faults then Failure(StatementFailed(index))
    else Execute(c, s, clocks.transactionStart, clocks.client(index))
  }

  /** The commands, from position `index` of the queue, in order, each once; the first
      failure ends the run. */
  function RunAll(cmds: seq<Command>, s: Store, clocks: Clocks, faults: set<nat>, index: nat)
    : (r: Result<Store, CommitFault>)
    ensures r.Success? ==> forall k :: index <= k < index + |cmds| ==> k !in faults
    ensures r.Failure? && r.error.StatementFailed? ==>
              index <= r.error.index < index + |cmds| && r.error.index in faults
    decreases |cmds|
  {
    if cmds == [] then Success(s)
    else
      match ExecuteAt(cmds[0], s, clocks, faults, index)
      case Failure(e) => Failure(e)
      case Success(next) => RunAll(cmds[1..], next, clocks, faults, index + 1)
  }

  /** Running two queues back to back is running their concatenation. */
  lemma {:induction false} RunAllAppend(a: seq<Command>, b: seq<Command>, s: Store, clocks: Clocks,
                                        faults: set<nat>, index: nat)
    ensures RunAll(a, s, clocks, faults, index).Failure? ==>
              RunAll(a + b, s, clocks, faults, index) == RunAll(a, s, clocks, faults, index)
    ensures RunAll(a, s, clocks, faults, index).Success? ==>
              RunAll(a + b, s, clocks, faults, index)
              == RunAll(b, RunAll(a, s, clocks, faults, index).value, clocks, faults, index + |a|)
    decreases |a|
  {
    if a == [] {
      assert a + b == b;
    } else {
      assert (a + b)[0] == a[0] && (a + b)[1..] == a[1..] + b;
      RunAllStep(a, s, clocks, faults, index);
      RunAllStep(a + b, s, clocks, faults, index);
      var step := ExecuteAt(a[0], s, clocks, faults, index);
      if step.Success? {
        RunAllAppend(a[1..], b, step.value, clocks, faults, index + 1);
      }
    }
  }

  /** The first command of a non-empty queue either fails the run or hands its store to
      the rest of the queue. */
  lemma RunAllStep(cmds: seq<Command>, s: Store, clocks: Clocks, faults: set<nat>, index: nat)
    requires cmds != []
    ensures var step := ExecuteAt(cmds[0], s, clocks, faults, index);
            RunAll(cmds, s, clocks, faults, index)
            == if step.Failure? then Failure(step.error)
               else RunAll(cmds[1..], step.value, clocks, faults, index + 1)
  {
  }

  /** A queue of one command runs that command. */
  lemma RunOne(c: Command, s: Store, clocks: Clocks, faults: set<nat>, index: nat)
    ensures RunAll([c], s, clocks, faults, index) == ExecuteAt(c, s, clocks, faults, index)
  {
    assert [c][1..] == [];
  }

  /** One failing statement anywhere in the queue makes the whole run fail. */
  lemma {:induction false} RunAllFailsOnFault(cmds: seq<Command>, s: Store, clocks: Clocks,
                                              faults: set<nat>, index: nat, bad: nat)
    requires index <= bad < index + |cmds| && bad in faults
    ensures RunAll(cmds, s, clocks, faults, index).Failure?
  {
    if bad != index {
      match ExecuteAt(cmds[0], s, clocks, faults, index)
      case Failure(e) =>
      case Success(next) => RunAllFailsOnFault(cmds[1..], next, clocks, faults, index + 1, bad);
    }
  }

  /** A run that goes through preserves the store's invariant. */
  lemma {:induction false} RunAllPreservesValid(cmds: seq<Command>, s: Store, clocks: Clocks,
                                                faults: set<nat>, index: nat)
    requires Valid(s)
    ensures RunAll(cmds, s, clocks, faults, index).Success? ==> Valid(RunAll(cmds, s, clocks, faults, index).value)
  {
    if cmds != [] {
      match ExecuteAt(cmds[0], s, clocks, faults, index)
      case Failure(e) =>
      case Success(next) => RunAllPreservesValid(cmds[1..], next, clocks, faults, index + 1);
    }
  }

  /** The commands `SetRangeInHash` queues: one upsert per pair, in enumeration order. */
  function HashCommands(key: string, pairs: seq<(string, string)>): (r: seq<Command>)
    ensures |r| == |pairs|
    ensures forall i :: 0 <= i < |pairs| ==> r[i] == OnHashes(HashUpsert(key, pairs[i].0, pairs[i].1))
  {
    seq(|pairs|, i requires 0 <= i < |pairs| => OnHashes(HashUpsert(key, pairs[i].0, pairs[i].1)))
  }
}
