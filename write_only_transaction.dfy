/** The write-only transaction: its mutation methods only append commands to a queue, and
    `Commit` runs the queue, in order, inside one database transaction that is committed
    only when every command went through. */
module WriteOnlyTransactions {
  import opened Base
  import opened Storage
  import opened Commands

  /** The database session: the store as other sessions see it. */
  class Database {
    var store: Store

    constructor (store: Store)
      ensures this.store == store
    {
      this.store := store;
    }
  }

  /** The exception a mutation method throws for a null argument. */
  datatype ArgumentError = ArgumentNull(paramName: string)

  class WriteOnlyTransaction {
    var commandQueue: seq<Command>
    const connection: Database

    constructor (connection: Database)
      ensures this.connection == connection && commandQueue == []
    {
      this.connection := connection;
      commandQueue := [];
    }

    /** Appends one command; nothing runs before `Commit`. */
    method QueueCommand(c: Command)
      modifies this`commandQueue
      ensures commandQueue == old(commandQueue) + [c]
    {
      commandQueue := commandQueue + [c];
    }

    /** Opens one database transaction on a private copy of the store, runs every queued
        command in order, and publishes the copy only if all of them ran and the commit
        itself went through (`commitFails` is the database refusing it). The queue is
        iterated, not drained. */
    method Commit(clocks: Clocks, faults: set<nat>, commitFails: bool) returns (r: Outcome<CommitFault>)
      modifies connection
      ensures var run := RunAll(commandQueue, old(connection.store), clocks, faults, 0);
              && (r == Pass <==> run.Success? && !commitFails)
              && (r == Pass ==> connection.store == run.value)
              && (r.Fail? ==> connection.store == old(connection.store))
              && (run.Failure? ==> r == Fail(run.error))
              && (run.Success? && commitFails ==> r == Fail(CommitFailed))
    {
      var transaction := connection.store;
      var i := 0;
      while i < |commandQueue|
        invariant 0 <= i <= |commandQueue|
        invariant connection.store == old(connection.store)
        invariant RunAll(commandQueue, old(connection.store), clocks, faults, 0)
                  == RunAll(commandQueue[i..], transaction, clocks, faults, i)
      {
        assert commandQueue[i..][1..] == commandQueue[i + 1..];
        var result := ExecuteAt(commandQueue[i], transaction, clocks, faults, i);
        if result.Failure? {
          // leaving the `using` block without a commit rolls the transaction back
          return Fail(result.error);
        }
        transaction := result.value;
        i := i + 1;
      }
      if commitFails {
        return Fail(CommitFailed);
      }
      connection.store := transaction;
      return Pass;
    }

    method IncrementCounter(key: string)
      modifies this`commandQueue
      ensures commandQueue == old(commandQueue) + [OnCounters(CounterInsert(key, 1, None))]
    {
      QueueCommand(OnCounters(CounterInsert(key, 1, None)));
    }

    /** The overload with an expiry: the whole seconds of `expireIn` (milliseconds) are
        fixed when the command is queued. */
    method IncrementCounterWithExpiry(key: string, expireIn: int)
      modifies this`commandQueue
      ensures commandQueue == old(commandQueue) + [OnCounters(CounterInsert(key, 1, Some(WholeSeconds(expireIn))))]
    {
      QueueCommand(OnCounters(CounterInsert(key, 1, Some(WholeSeconds(expireIn)))));
    }

    method DecrementCounter(key: string)
      modifies this`commandQueue
      ensures commandQueue == old(commandQueue) + [OnCounters(CounterInsert(key, -1, None))]
    {
      QueueCommand(OnCounters(CounterInsert(key, -1, None)));
    }

    method DecrementCounterWithExpiry(key: string, expireIn: int)
      modifies this`commandQueue
      ensures commandQueue == old(commandQueue) + [OnCounters(CounterInsert(key, -1, Some(WholeSeconds(expireIn))))]
    {
      QueueCommand(OnCounters(CounterInsert(key, -1, Some(WholeSeconds(expireIn)))));
    }

    /** The overload without a score upserts with score 0. */
    method AddToSet(key: string, value: string)
      modifies this`commandQueue
      ensures commandQueue == old(commandQueue) + [OnSets(SetUpsert(key, value, 0.0))]
    {
      AddToSetWithScore(key, value, 0.0);
    }

    method AddToSetWithScore(key: string, value: string, score: real)
      modifies this`commandQueue
      ensures commandQueue == old(commandQueue) + [OnSets(SetUpsert(key, value, score))]
    {
      QueueCommand(OnSets(SetUpsert(key, value, score)));
    }

    method RemoveFromSet(key: string, value: string)
      modifies this`commandQueue
      ensures commandQueue == old(commandQueue) + [OnSets(SetRemove(key, value))]
    {
      QueueCommand(OnSets(SetRemove(key, value)));
    }

    method InsertToList(key: string, value: string)
      modifies this`commandQueue
      ensures commandQueue == old(commandQueue) + [OnLists(ListInsert(key, value))]
    {
      QueueCommand(OnLists(ListInsert(key, value)));
    }

    method RemoveFromList(key: string, value: string)
      modifies this`commandQueue
      ensures commandQueue == old(commandQueue) + [OnLists(ListRemove(key, value))]
    {
      QueueCommand(OnLists(ListRemove(key, value)));
    }

    method TrimList(key: string, keepStartingFrom: int32, keepEndingAt: int32)
      modifies this`commandQueue
      ensures commandQueue == old(commandQueue) + [OnLists(ListTrim(key, keepStartingFrom, keepEndingAt))]
    {
      QueueCommand(OnLists(ListTrim(key, keepStartingFrom, keepEndingAt)));
    }

    /** Checks both arguments before queuing anything, then queues one upsert per pair, in
        enumeration order. */
    method SetRangeInHash(key: Option<string>, keyValuePairs: Option<seq<(string, string)>>)
      returns (r: Outcome<ArgumentError>)
      modifies this`commandQueue
      ensures key.None? ==> r == Fail(ArgumentNull("key"))
      ensures key.Some? && keyValuePairs.None? ==> r == Fail(ArgumentNull("keyValuePairs"))
      ensures r.Fail? ==> commandQueue == old(commandQueue)
      ensures key.Some? && keyValuePairs.Some? ==>
                r == Pass && commandQueue == old(commandQueue) + HashCommands(key.value, keyValuePairs.value)
    {
      if key.None? {
        return Fail(ArgumentNull("key"));
      }
      if keyValuePairs.None? {
        return Fail(ArgumentNull("keyValuePairs"));
      }
      var pairs := keyValuePairs.value;
      var i := 0;
      while i < |pairs|
        invariant 0 <= i <= |pairs|
        invariant commandQueue == old(commandQueue) + HashCommands(key.value, pairs[..i])
      {
        assert HashCommands(key.value, pairs[..i + 1])
            == HashCommands(key.value, pairs[..i]) + [OnHashes(HashUpsert(key.value, pairs[i].0, pairs[i].1))];
        QueueCommand(OnHashes(HashUpsert(key.value, pairs[i].0, pairs[i].1)));
        i := i + 1;
      }
      assert pairs[..i] == pairs;
      return Pass;
    }

    /** The methods below throw on a null key before queuing anything. */
    method QueueKeyed(key: Option<string>, make: string -> Command) returns (r: Outcome<ArgumentError>)
      modifies this`commandQueue
      ensures key.None? ==> r == Fail(ArgumentNull("key")) && commandQueue == old(commandQueue)
      ensures key.Some? ==> r == Pass && commandQueue == old(commandQueue) + [make(key.value)]
    {
      if key.None? {
        return Fail(ArgumentNull("key"));
      }
      QueueCommand(make(key.value));
      return Pass;
    }

    method RemoveHash(key: Option<string>) returns (r: Outcome<ArgumentError>)
      modifies this`commandQueue
      ensures key.None? ==> r == Fail(ArgumentNull("key")) && commandQueue == old(commandQueue)
      ensures key.Some? ==> r == Pass && commandQueue == old(commandQueue) + [OnHashes(HashRemoveKey(key.value))]
    {
      r := QueueKeyed(key, k => OnHashes(HashRemoveKey(k)));
    }

    /** The expiry is `DateTime.UtcNow + expireIn`, read when the command runs. */
    method ExpireSet(key: Option<string>, expireIn: int) returns (r: Outcome<ArgumentError>)
      modifies this`commandQueue
      ensures key.None? ==> r == Fail(ArgumentNull("key")) && commandQueue == old(commandQueue)
      ensures key.Some? ==> r == Pass && commandQueue == old(commandQueue) + [OnSets(SetExpire(key.value, Some(expireIn)))]
    {
      r := QueueKeyed(key, k => OnSets(SetExpire(k, Some(expireIn))));
    }

    method ExpireList(key: Option<string>, expireIn: int) returns (r: Outcome<ArgumentError>)
      modifies this`commandQueue
      ensures key.None? ==> r == Fail(ArgumentNull("key")) && commandQueue == old(commandQueue)
      ensures key.Some? ==> r == Pass && commandQueue == old(commandQueue) + [OnLists(ListExpire(key.value, Some(expireIn)))]
    {
      r := QueueKeyed(key, k => OnLists(ListExpire(k, Some(expireIn))));
    }

    method ExpireHash(key: Option<string>, expireIn: int) returns (r: Outcome<ArgumentError>)
      modifies this`commandQueue
      ensures key.None? ==> r == Fail(ArgumentNull("key")) && commandQueue == old(commandQueue)
      ensures key.Some? ==> r == Pass && commandQueue == old(commandQueue) + [OnHashes(HashExpire(key.value, Some(expireIn)))]
    {
      r := QueueKeyed(key, k => OnHashes(HashExpire(k, Some(expireIn))));
    }

    method PersistSet(key: Option<string>) returns (r: Outcome<ArgumentError>)
      modifies this`commandQueue
      ensures key.None? ==> r == Fail(ArgumentNull("key")) && commandQueue == old(commandQueue)
      ensures key.Some? ==> r == Pass && commandQueue == old(commandQueue) + [OnSets(SetExpire(key.value, None))]
    {
      r := QueueKeyed(key, k => OnSets(SetExpire(k, None)));
    }

    method PersistList(key: Option<string>) returns (r: Outcome<ArgumentError>)
      modifies this`commandQueue
      ensures key.None? ==> r == Fail(ArgumentNull("key")) && commandQueue == old(commandQueue)
      ensures key.Some? ==> r == Pass && commandQueue == old(commandQueue) + [OnLists(ListExpire(key.value, None))]
    {
      r := QueueKeyed(key, k => OnLists(ListExpire(k, None)));
    }

    method PersistHash(key: Option<string>) returns (r: Outcome<ArgumentError>)
      modifies this`commandQueue
      ensures key.None? ==> r == Fail(ArgumentNull("key")) && commandQueue == old(commandQueue)
      ensures key.Some? ==> r == Pass && commandQueue == old(commandQueue) + [OnHashes(HashExpire(key.value, None))]
    {
      r := QueueKeyed(key, k => OnHashes(HashExpire(k, None)));
    }

    method RemoveSet(key: Option<string>) returns (r: Outcome<ArgumentError>)
      modifies this`commandQueue
      ensures key.None? ==> r == Fail(ArgumentNull("key")) && commandQueue == old(commandQueue)
      ensures key.Some? ==> r == Pass && commandQueue == old(commandQueue) + [OnSets(SetRemoveKey(key.value))]
    {
      r := QueueKeyed(key, k => OnSets(SetRemoveKey(k)));
    }

    /** Checks the key, then the items, and queues one plain insert of every item. */
    method AddRangeToSet(key: Option<string>, items: Option<seq<string>>) returns (r: Outcome<ArgumentError>)
      modifies this`commandQueue
      ensures key.None? ==> r == Fail(ArgumentNull("key"))
      ensures key.Some? && items.None? ==> r == Fail(ArgumentNull("items"))
      ensures r.Fail? ==> commandQueue == old(commandQueue)
      ensures key.Some? && items.Some? ==>
                r == Pass && commandQueue == old(commandQueue) + [OnSets(SetInsertRange(key.value, items.value))]
    {
      if key.None? {
        return Fail(ArgumentNull("key"));
      }
      if items.None? {
        return Fail(ArgumentNull("items"));
      }
      QueueCommand(OnSets(SetInsertRange(key.value, items.value)));
      return Pass;
    }

    /** The job id is converted when the command runs, not when it is queued. */
    method ExpireJob(jobId: Option<string>, expireIn: int)
      modifies this`commandQueue
      ensures commandQueue == old(commandQueue) + [OnJobs(JobExpire(jobId, Some(WholeSeconds(expireIn))))]
    {
      QueueCommand(OnJobs(JobExpire(jobId, Some(WholeSeconds(expireIn)))));
    }

    method PersistJob(jobId: Option<string>)
      modifies this`commandQueue
      ensures commandQueue == old(commandQueue) + [OnJobs(JobExpire(jobId, None))]
    {
      QueueCommand(OnJobs(JobExpire(jobId, None)));
    }

    method SetJobState(jobId: Option<string>, state: StateRecord)
      modifies this`commandQueue
      ensures commandQueue == old(commandQueue) + [OnJobs(JobAddState(jobId, state, true))]
    {
      QueueCommand(OnJobs(JobAddState(jobId, state, true)));
    }

    method AddJobState(jobId: Option<string>, state: StateRecord)
      modifies this`commandQueue
      ensures commandQueue == old(commandQueue) + [OnJobs(JobAddState(jobId, state, false))]
    {
      QueueCommand(OnJobs(JobAddState(jobId, state, false)));
    }

    /** Hands the job to the queue's provider when the command runs. */
    method AddToQueue(queue: string, jobId: string)
      modifies this`commandQueue
      ensures commandQueue == old(commandQueue) + [OnQueues(queue, jobId)]
    {
      QueueCommand(OnQueues(queue, jobId));
    }
  }
}
