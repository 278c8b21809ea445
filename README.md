# Hangfire.PostgreSql: the row-based distributed lock and the write-only transaction

This project models the two mechanisms of Hangfire.PostgreSql that coordinate worker processes through a shared PostgreSQL database, and proves properties of the models in Dafny.

- **The distributed lock** (`PostgreSqlDistributedLock`) takes a lock by writing a row of the `lock` table. It has two acquisition policies, and the storage option `UseNativeDatabaseTransactions` picks one:
  - a conditional insert inside a repeatable-read transaction;
  - an insert of `(resource, 0)` followed by a claiming `UPDATE ... SET updatecount = 1`.

  Both policies retry, sleeping at most one second between attempts, until the timeout expires. Disposing the lock deletes the row, once only.
- **The write-only transaction** (`PostgreSqlWriteOnlyTransaction`) queues commands without running them: one command per mutation of counters, sets, lists, hashes, job expiry and state. Most commands are one SQL statement. The exceptions are:
  - `SetRangeInHash` queues one hash upsert per field-value pair;
  - `AddRangeToSet` queues one command, and Dapper runs its `INSERT` once per item of the list;
  - `AddToQueue` queues a call to the queue's provider.

  `Commit` runs the whole queue, in order, inside one repeatable-read transaction. Either every command takes effect or none does.

How the model is built:

- `Connection`, `DistributedLock`, `Database` and `WriteOnlyTransaction` are classes with mutable fields. The lock's two acquisition loops and the transaction's `Commit` and `SetRangeInHash` loops are methods with loop invariants.
- Every acquisition loop is proved equal to `Locking.Run`, a recursive function over one loop iteration (`Locking.StepOf`). The lemmas about the loop (capped pauses, the timeout, mutual exclusion) are proved about `Run`.
- Every SQL statement is a pure function from the table before it to the table after it. `Commit` is proved equal to `Commands.RunAll`, the in-order fold of those statements.
- Whatever the code observes but does not decide is a parameter:
  - for the lock, a `World` value: which statements raise, how long attempts and sleeps take, and what other processes do to the lock table while the loop sleeps;
  - for the transaction, a `Clocks` value (the database's `NOW()` and the client's `DateTime.UtcNow` for each command) and a set of command positions at which the database raises.
- C# integer behaviour is written out:
  - the `(int)` cast of the remaining time is `Base.DoubleToInt32`;
  - the unchecked `keepEndingAt - keepStartingFrom + 1` of `TrimList` is `Base.Wrap32`.

Two points where this model follows the code rather than the lock's intended exclusivity and `TrimList`'s inclusive range of ranks:

- The update-count policy's claiming `UPDATE` has no condition on the resource. A lock on a held resource is therefore granted whenever any other resource's row is unclaimed (see Findings). A lock is meant to be exclusive: a held resource's row must not be claimed by another caller. The model's classes keep the statement as written, and the corrected statement, with its exclusivity lemma, stands beside it.
- `TrimList` with an empty or very wide range fails the commit instead of keeping ranks `[s, e]` (see Findings). `Commands.ApplyToLists` keeps the statement as written, and `CommandLaws.TrimToRanks` is the intended one.

PostgreSQL checks a negative `OFFSET` or `LIMIT` only when the subquery runs. The subquery runs once for each row of the key, so a trim of a key without rows never raises.

## Model

| member | source | states |
|---|---|---|
| Base.Wrap32 | src/Hangfire.PostgreSql/PostgreSqlWriteOnlyTransaction.cs:265 | unchecked `int` arithmetic: a result in the 32-bit range is exact, any other result is the 32-bit value congruent to it modulo 2^32 |
| Base.DoubleToInt32 | src/Hangfire.PostgreSql/PostgreSqlDistributedLock.cs:94 | the `(int)` cast of the remaining time is exact in range and int.MinValue outside it |
| LockTable.InsertIfAbsent | src/Hangfire.PostgreSql/PostgreSqlDistributedLock.cs:68-79 | the conditional insert adds the resource's row only if it is missing, never changes an existing row, and reports one affected row exactly when it inserted |
| LockTable.DeleteResource | src/Hangfire.PostgreSql/PostgreSqlDistributedLock.cs:177-184 | the delete removes the resource's row and no other, and reports an affected row exactly when the row existed |
| LockTable.FlipAllUnclaimed | src/Hangfire.PostgreSql/PostgreSqlDistributedLock.cs:150 | the claiming update sets every row with count 0, of any resource, to 1, leaves other rows alone, and reports rows exactly when some row had count 0 |
| LockTable.FlipOwnRow | src/Hangfire.PostgreSql/PostgreSqlDistributedLock.cs:150 | the corrected claiming update touches only the resource's own row and reports a row exactly when that row had count 0 |
| LockTable.SleepDuration | src/Hangfire.PostgreSql/PostgreSqlDistributedLock.cs:94-103 | the pause is positive exactly when time is left and the remaining time fits the `(int)` cast; then it is the remaining time capped at 1000 ms |
| LockTable.TransactionalAttempt | src/Hangfire.PostgreSql/PostgreSqlDistributedLock.cs:63-87 | a transactional attempt never lets an exception out, acquires exactly when it does not raise and the row is missing, and otherwise leaves the table as it was |
| LockTable.UpdateCountAttempt | src/Hangfire.PostgreSql/PostgreSqlDistributedLock.cs:132-152 | an update-count attempt raises exactly when the claiming update raises; the insert's exception is swallowed |
| LockTable.UpdateCountAttemptEffect | src/Hangfire.PostgreSql/PostgreSqlDistributedLock.cs:132-152 | an update-count attempt adds the resource's row with count 0 unless the insert raised, then claims every unclaimed row, and succeeds exactly when it inserted or some row anywhere was unclaimed |
| LockTable.UpdateCountAttemptOwnRow | src/Hangfire.PostgreSql/PostgreSqlDistributedLock.cs:132-152 | the corrected attempt changes only the resource's row and acquires exactly when that row was unclaimed, or missing and inserted |
| LockTable.UpdateCountAttemptGrantsHeldResource | src/Hangfire.PostgreSql/PostgreSqlDistributedLock.cs:150-152 | as written, an attempt on a claimed resource succeeds when another resource's row is unclaimed, and claims that other row |
| LockTable.OwnRowAttemptRespectsHeldResource | src/Hangfire.PostgreSql/PostgreSqlDistributedLock.cs:150-152 | with the corrected update, an attempt on a claimed resource never acquires and changes nothing |
| Locking.AttemptOf | src/Hangfire.PostgreSql/PostgreSqlDistributedLock.cs:63-87 | one attempt of the configured policy: only the update-count policy's claiming update lets an exception out, and a transactional attempt on a held resource fails and changes nothing |
| Locking.StepOf | src/Hangfire.PostgreSql/PostgreSqlDistributedLock.cs:61-104 | one iteration continues only if the stopwatch has not passed the timeout, and the clock moves forward |
| Locking.Run | src/Hangfire.PostgreSql/PostgreSqlDistributedLock.cs:61-122 | the whole retry loop, the reference both acquisition loops are proved equal to: the clock never goes back, and only the update-count policy ends with an exception |
| Locking.StepFacts | src/Hangfire.PostgreSql/PostgreSqlDistributedLock.cs:88-104 | an iteration that continues sleeps a capped pause taken after its attempt; one that times out does so only past the deadline or with no positive pause |
| Locking.SleepsAreCapped | src/Hangfire.PostgreSql/PostgreSqlDistributedLock.cs:94-99 | every pause of a whole acquisition lasts between 1 and 1000 ms and equals the remaining time capped at 1000 ms |
| Locking.SleepsFitInTimeout | src/Hangfire.PostgreSql/PostgreSqlDistributedLock.cs:88-99 | the pauses of one acquisition add up to no more than the time left when it started, so the number of retries is bounded by the timeout in ms |
| Locking.TimeoutOnlyAtDeadline | src/Hangfire.PostgreSql/PostgreSqlDistributedLock.cs:88-103 | the loop gives up only after the deadline, or when the remaining time is too large for the `(int)` cast |
| Locking.TransactionalOutcomes | src/Hangfire.PostgreSql/PostgreSqlDistributedLock.cs:61-87 | the transactional policy never propagates an attempt's exception, and when it acquires, the resource's row holds the default count |
| Locking.TransactionalRespectsHeldLock | src/Hangfire.PostgreSql/PostgreSqlDistributedLock.cs:66-82 | mutual exclusion: while the resource's row exists and nobody deletes it, the transactional policy times out and the row stays |
| Locking.UpdateCountAcquiresHeldLock | src/Hangfire.PostgreSql/PostgreSqlDistributedLock.cs:124-152 | as written, the update-count policy acquires a claimed resource on its first attempt when another resource's row is unclaimed |
| Locking.TimeoutMessage | src/Hangfire.PostgreSql/PostgreSqlDistributedLock.cs:120-121 | the timeout message contains the resource name at the fixed offset after its prefix |
| Locking.ReleaseMessage | src/Hangfire.PostgreSql/PostgreSqlDistributedLock.cs:189-190 | the release message contains the resource name at the fixed offset after its prefix |
| Locking.Connection.InsertIfAbsent | src/Hangfire.PostgreSql/PostgreSqlDistributedLock.cs:68-79 | running the conditional insert updates the connection's table and returns the affected rows the statement reports |
| Locking.Connection.FlipAllUnclaimed | src/Hangfire.PostgreSql/PostgreSqlDistributedLock.cs:150 | running the claiming update updates the connection's table and returns the affected rows the statement reports |
| Locking.Connection.DeleteResource | src/Hangfire.PostgreSql/PostgreSqlDistributedLock.cs:177-184 | running the delete updates the connection's table and returns the affected rows the statement reports |
| Locking.Connection.Sleep | src/Hangfire.PostgreSql/PostgreSqlDistributedLock.cs:98 | a sleep advances the clock by at least the requested time, while other processes may change the table |
| Locking.DistributedLock.Open | src/Hangfire.PostgreSql/PostgreSqlDistributedLock.cs:37-52 | the constructor rejects an empty resource, then a missing connection, then missing options, without touching the table; otherwise it runs the loop of the configured policy and hands out a lock exactly when the loop acquired |
| Locking.DistributedLock.TryInsertInTransaction | src/Hangfire.PostgreSql/PostgreSqlDistributedLock.cs:63-87 | the transactional try block behaves as `TransactionalAttempt`, with rowsAffected > 0 exactly when it acquired |
| Locking.DistributedLock.TryInsertUnclaimed | src/Hangfire.PostgreSql/PostgreSqlDistributedLock.cs:132-148 | the swallowed insert of `(resource, 0)` changes the table only when it does not raise |
| Locking.DistributedLock.TryClaim | src/Hangfire.PostgreSql/PostgreSqlDistributedLock.cs:132-152 | one update-count attempt behaves as `UpdateCountAttempt`: an exception from the claiming update comes out, otherwise the attempt reports whether a row changed |
| Locking.DistributedLock.PauseOrGiveUp | src/Hangfire.PostgreSql/PostgreSqlDistributedLock.cs:88-104 | after a failed attempt the loop goes on exactly when the deadline has not passed and the pause is positive; only then does it sleep that pause |
| Locking.DistributedLock.InitTransaction | src/Hangfire.PostgreSql/PostgreSqlDistributedLock.cs:54-122 | the transactional loop ends with the table, clock and outcome of `Run`, and throws the timeout exception naming the resource when it gives up |
| Locking.DistributedLock.InitUpdateCount | src/Hangfire.PostgreSql/PostgreSqlDistributedLock.cs:124-169 | the update-count loop ends with the table, clock and outcome of `Run`: it returns on acquisition, propagates the claiming update's exception, and throws the timeout exception when it gives up |
| Locking.DistributedLock.Dispose | src/Hangfire.PostgreSql/PostgreSqlDistributedLock.cs:171-192 | only the first call deletes the resource's row; it fails with the release message when the row was missing, and with the database error, leaving the row in place, when the delete raises; the lock is marked completed before the delete, so later calls do nothing even after a failure |
| Storage.CounterValueAppend | src/Hangfire.PostgreSql/PostgreSqlWriteOnlyTransaction.cs:146-182 | a counter's value is the sum of its rows: appending a delta row moves its own counter by the delta and no other |
| Storage.UpsertSetRow | src/Hangfire.PostgreSql/PostgreSqlWriteOnlyTransaction.cs:189-215 | after the upsert exactly one (key, value) row exists and holds the new score; an existing row keeps its expiry, a new one has none, and every other row is unchanged |
| Storage.InsertSetRows | src/Hangfire.PostgreSql/PostgreSqlWriteOnlyTransaction.cs:385-396 | inserting a range of members succeeds exactly when no item is already in the set and no item repeats; then it adds one score-0 row per item and changes no existing row |
| Storage.DeletePair | src/Hangfire.PostgreSql/PostgreSqlWriteOnlyTransaction.cs:217-226 | removing a member deletes the rows matching both key and value, and only those |
| Storage.DeleteKey | src/Hangfire.PostgreSql/PostgreSqlWriteOnlyTransaction.cs:398-408 | removing a set or a hash deletes every row of the key and keeps every row of other keys unchanged |
| Storage.UpdateKeyRows | src/Hangfire.PostgreSql/PostgreSqlWriteOnlyTransaction.cs:313-323 | expiring or persisting a set or a hash rewrites `expireat` on every row of the key and leaves the rows of other keys unchanged |
| Storage.UpsertHashRow | src/Hangfire.PostgreSql/PostgreSqlWriteOnlyTransaction.cs:273-293 | after the hash upsert exactly one (key, field) row exists and holds the new value, and every other row is unchanged |
| Storage.DeleteListValue | src/Hangfire.PostgreSql/PostgreSqlWriteOnlyTransaction.cs:238-247 | removing a list value deletes exactly the rows matching both key and value |
| Storage.ListExpiry | src/Hangfire.PostgreSql/PostgreSqlWriteOnlyTransaction.cs:325-335 | expiring or persisting a list sets `expireat` on every row of the key and changes no other column or row |
| Storage.TrimRows | src/Hangfire.PostgreSql/PostgreSqlWriteOnlyTransaction.cs:251-260 | the trim only deletes rows |
| Storage.TrimKeepsWindow | src/Hangfire.PostgreSql/PostgreSqlWriteOnlyTransaction.cs:251-260 | the rows of the key that survive the trim are exactly the window of ranks `[OFFSET, OFFSET + LIMIT)`, in order |
| Storage.TrimKeepsOtherKeys | src/Hangfire.PostgreSql/PostgreSqlWriteOnlyTransaction.cs:252-257 | the trim leaves the rows of every other key as they were |
| Storage.AppendKeepsIdsOrdered | src/Hangfire.PostgreSql/PostgreSqlWriteOnlyTransaction.cs:228-236 | inserting a list row with the next serial id keeps the ids increasing along the table |
| Storage.DeleteKeepsIdsOrdered | src/Hangfire.PostgreSql/PostgreSqlWriteOnlyTransaction.cs:238-247 | deleting list values keeps the ids increasing |
| Storage.TrimKeepsIdsOrdered | src/Hangfire.PostgreSql/PostgreSqlWriteOnlyTransaction.cs:249-266 | trimming keeps the ids increasing |
| Storage.IdsAboveIncreasing | src/Hangfire.PostgreSql/PostgreSqlWriteOnlyTransaction.cs:258 | with increasing ids, every pair of rows is in id order |
| Storage.KeyRowsKeepIdsOrdered | src/Hangfire.PostgreSql/PostgreSqlWriteOnlyTransaction.cs:257-258 | the rows of one key, taken in table order, keep their ids increasing |
| Storage.KeyRowsInIdOrder | src/Hangfire.PostgreSql/PostgreSqlWriteOnlyTransaction.cs:257-258 | in a valid list table a key's rows in table order are in `ORDER BY id` order, so the ranks `TrimKeepsRanks` counts are the ranks the trim's subquery counts |
| JobIds.ParseInt32 | src/Hangfire.PostgreSql/PostgreSqlWriteOnlyTransaction.cs:78 | `int.Parse` succeeds only on text holding a digit; its partners are the round trip and the rejection lemmas below |
| JobIds.ParseFormatRoundTrip | src/Hangfire.PostgreSql/PostgreSqlWriteOnlyTransaction.cs:78 | decimal text reads back as the number it spells when the number fits in 32 bits, and is rejected as an overflow otherwise |
| JobIds.RejectsForeignCharacter | src/Hangfire.PostgreSql/PostgreSqlWriteOnlyTransaction.cs:78 | a job id containing a character that is not white space, a sign or a digit is rejected, unless it is a NUL of the trailing run |
| JobIds.AcceptsTrailingNuls | src/Hangfire.PostgreSql/PostgreSqlWriteOnlyTransaction.cs:78 | NUL characters at the end of a job id change nothing: `"7\0"` reads as 7, as `int.Parse` reads it |
| JobIds.ConvertToInt32 | src/Hangfire.PostgreSql/PostgreSqlWriteOnlyTransaction.cs:78 | the conversion turns a null job id into 0 and parses any other |
| Commands.ExpiryAt | src/Hangfire.PostgreSql/PostgreSqlWriteOnlyTransaction.cs:313-347 | `DateTime.UtcNow.Add(expireIn)` succeeds exactly when the sum lies between `DateTime.MinValue` and `DateTime.MaxValue`, and raises otherwise; a persist clears the expiry |
| Commands.TrimLimit | src/Hangfire.PostgreSql/PostgreSqlWriteOnlyTransaction.cs:265 | the `LIMIT` is `e - s + 1` for `0 < s <= e`, wraps to int.MinValue for `(0, int.MaxValue)`, and is not positive for `0 <= e < s` |
| Commands.WholeSeconds | src/Hangfire.PostgreSql/PostgreSqlWriteOnlyTransaction.cs:72 | `(long)TotalSeconds` is the whole number of seconds, truncated toward zero |
| Commands.ApplyToCounters | src/Hangfire.PostgreSql/PostgreSqlWriteOnlyTransaction.cs:146-182 | a counter command appends exactly one row and keeps every existing row |
| Commands.ApplyToSets | src/Hangfire.PostgreSql/PostgreSqlWriteOnlyTransaction.cs:184-226 | of the set commands, only two raise: the plain insert of a range, with a unique violation on its own key, and an expiry, exactly when `DateTime.UtcNow.Add(expireIn)` leaves DateTime's range |
| Commands.ApplyToLists | src/Hangfire.PostgreSql/PostgreSqlWriteOnlyTransaction.cs:228-266 | of the list commands, only two raise: the trim, for a negative `OFFSET` or `LIMIT`, and an expiry, exactly when the expiry time leaves DateTime's range; every list command keeps the ids ordered |
| Commands.ExpiryKeepsIdsOrdered | src/Hangfire.PostgreSql/PostgreSqlWriteOnlyTransaction.cs:325-335 | changing expiries keeps the list ids ordered |
| Commands.ApplyToHashes | src/Hangfire.PostgreSql/PostgreSqlWriteOnlyTransaction.cs:268-311 | a hash command raises exactly when it is an expiry whose time leaves DateTime's range, and the only row one can add is the upserted (key, field) |
| Commands.ApplyToJobs | src/Hangfire.PostgreSql/PostgreSqlWriteOnlyTransaction.cs:68-136 | a job command raises exactly when its job id does not parse; it never adds or removes a job, and a new state takes the next state id |
| Commands.JobExpiry | src/Hangfire.PostgreSql/PostgreSqlWriteOnlyTransaction.cs:70-73 | expiring a job changes `expireat` on that job's row, if it exists, and on no other row |
| Commands.SetCurrentState | src/Hangfire.PostgreSql/PostgreSqlWriteOnlyTransaction.cs:100-103 | setting the current state changes that job's state columns, if it exists, and no other row |
| Commands.Execute | src/Hangfire.PostgreSql/PostgreSqlWriteOnlyTransaction.cs:62 | a command changes only its own table, counter and queue commands never raise, and the store's id invariant is kept |
| Commands.ExecuteAt | src/Hangfire.PostgreSql/PostgreSqlWriteOnlyTransaction.cs:62 | the command at a position fails with a database error exactly when the database rejects that position, and never succeeds there |
| Commands.RunAll | src/Hangfire.PostgreSql/PostgreSqlWriteOnlyTransaction.cs:58-65 | the `foreach` over the queue: a successful run met no database fault at any of its positions, and a database fault that ends it lies at one of them |
| Commands.RunAllAppend | src/Hangfire.PostgreSql/PostgreSqlWriteOnlyTransaction.cs:60-63 | FIFO: running a queue then another is running their concatenation, and a failure stops the rest |
| Commands.RunOne | src/Hangfire.PostgreSql/PostgreSqlWriteOnlyTransaction.cs:62 | a one-command queue runs that command at its position |
| Commands.RunAllFailsOnFault | src/Hangfire.PostgreSql/PostgreSqlWriteOnlyTransaction.cs:58-65 | one command that raises anywhere in the queue fails the whole run |
| Commands.RunAllPreservesValid | src/Hangfire.PostgreSql/PostgreSqlWriteOnlyTransaction.cs:58-65 | a successful run keeps the store's invariant |
| Commands.HashCommands | src/Hangfire.PostgreSql/PostgreSqlWriteOnlyTransaction.cs:295-300 | `SetRangeInHash` queues one upsert per pair, in enumeration order |
| CommandLaws.CounterInsertAddsDelta | src/Hangfire.PostgreSql/PostgreSqlWriteOnlyTransaction.cs:146-182 | an increment or decrement moves its own counter by its delta and no other, with the expiry `NOW()` plus the whole seconds when one was given |
| CommandLaws.SetUpsertLastScoreWins | src/Hangfire.PostgreSql/PostgreSqlWriteOnlyTransaction.cs:189-215 | two upserts of one member leave the same store as the second alone |
| CommandLaws.TrimKeepsRanks | src/Hangfire.PostgreSql/PostgreSqlWriteOnlyTransaction.cs:249-266 | with a non-negative offset and limit, the trim keeps exactly the key's rows of ranks `[s, s + limit)` and every row of other keys; without wrap-around, limit is `e - s + 1` |
| CommandLaws.TrimApplies | src/Hangfire.PostgreSql/PostgreSqlWriteOnlyTransaction.cs:263-265 | with a non-negative offset and limit the trim does not raise |
| CommandLaws.TrimSixEntries | src/Hangfire.PostgreSql/PostgreSqlWriteOnlyTransaction.cs:249-266 | six entries trimmed with (2, 4) leave the third, fourth and fifth |
| CommandLaws.TrimRaisesOnEmptyOrWideRange | src/Hangfire.PostgreSql/PostgreSqlWriteOnlyTransaction.cs:259-265 | as written, `TrimList(k, 5, 2)` and `TrimList(k, 0, int.MaxValue)` raise on a key with rows |
| CommandLaws.TrimToRanksKeepsRanks | src/Hangfire.PostgreSql/PostgreSqlWriteOnlyTransaction.cs:249-266 | the intended trim keeps exactly the ranks `[s, e]`, none when `e < s`, and every other key |
| CommandLaws.UpsertPairsLastWins | src/Hangfire.PostgreSql/PostgreSqlWriteOnlyTransaction.cs:295-300 | after the hash upserts each named field holds the value of the last pair naming it, and every other row is as it was |
| CommandLaws.HashCommandsUpsertPairs | src/Hangfire.PostgreSql/PostgreSqlWriteOnlyTransaction.cs:268-301 | the commands `SetRangeInHash` queues, committed, perform every pair's upsert in order |
| CommandLaws.JobExpireSetsExpiry | src/Hangfire.PostgreSql/PostgreSqlWriteOnlyTransaction.cs:68-91 | expiring or persisting a job sets `expireat` on that job's row alone, measured from the database's `NOW()` |
| CommandLaws.JobAddStateRecordsState | src/Hangfire.PostgreSql/PostgreSqlWriteOnlyTransaction.cs:93-136 | setting a state appends it to the history and makes it the job's current state; adding a state only appends it |
| WriteOnlyTransactions.WriteOnlyTransaction.constructor | src/Hangfire.PostgreSql/PostgreSqlWriteOnlyTransaction.cs:44-52 | a new transaction has an empty queue |
| WriteOnlyTransactions.WriteOnlyTransaction.QueueCommand | src/Hangfire.PostgreSql/PostgreSqlWriteOnlyTransaction.cs:410-413 | queuing appends one command at the end and runs nothing |
| WriteOnlyTransactions.WriteOnlyTransaction.Commit | src/Hangfire.PostgreSql/PostgreSqlWriteOnlyTransaction.cs:56-66 | all or nothing: the store becomes the result of running the queue in order exactly when every command and the commit go through, and stays as it was otherwise; the queue is kept |
| WriteOnlyTransactions.WriteOnlyTransaction.IncrementCounter | src/Hangfire.PostgreSql/PostgreSqlWriteOnlyTransaction.cs:146-152 | queues a +1 counter row without expiry |
| WriteOnlyTransactions.WriteOnlyTransaction.IncrementCounterWithExpiry | src/Hangfire.PostgreSql/PostgreSqlWriteOnlyTransaction.cs:154-163 | queues a +1 counter row expiring after the whole seconds of the given time |
| WriteOnlyTransactions.WriteOnlyTransaction.DecrementCounter | src/Hangfire.PostgreSql/PostgreSqlWriteOnlyTransaction.cs:165-171 | queues a -1 counter row without expiry |
| WriteOnlyTransactions.WriteOnlyTransaction.DecrementCounterWithExpiry | src/Hangfire.PostgreSql/PostgreSqlWriteOnlyTransaction.cs:173-182 | queues a -1 counter row expiring after the whole seconds of the given time |
| WriteOnlyTransactions.WriteOnlyTransaction.AddToSet | src/Hangfire.PostgreSql/PostgreSqlWriteOnlyTransaction.cs:184-187 | queues an upsert with score 0 |
| WriteOnlyTransactions.WriteOnlyTransaction.AddToSetWithScore | src/Hangfire.PostgreSql/PostgreSqlWriteOnlyTransaction.cs:189-215 | queues an upsert with the given score |
| WriteOnlyTransactions.WriteOnlyTransaction.RemoveFromSet | src/Hangfire.PostgreSql/PostgreSqlWriteOnlyTransaction.cs:217-226 | queues the delete of one member |
| WriteOnlyTransactions.WriteOnlyTransaction.InsertToList | src/Hangfire.PostgreSql/PostgreSqlWriteOnlyTransaction.cs:228-236 | queues a list insert |
| WriteOnlyTransactions.WriteOnlyTransaction.RemoveFromList | src/Hangfire.PostgreSql/PostgreSqlWriteOnlyTransaction.cs:238-247 | queues the delete of a list value |
| WriteOnlyTransactions.WriteOnlyTransaction.TrimList | src/Hangfire.PostgreSql/PostgreSqlWriteOnlyTransaction.cs:249-266 | queues a trim with the given bounds |
| WriteOnlyTransactions.WriteOnlyTransaction.SetRangeInHash | src/Hangfire.PostgreSql/PostgreSqlWriteOnlyTransaction.cs:268-301 | a null key, then null pairs, throw with nothing queued; otherwise one upsert per pair is queued, in order |
| WriteOnlyTransactions.WriteOnlyTransaction.RemoveHash | src/Hangfire.PostgreSql/PostgreSqlWriteOnlyTransaction.cs:303-311 | a null key throws with nothing queued; otherwise the delete of the key's rows is queued |
| WriteOnlyTransactions.WriteOnlyTransaction.ExpireSet | src/Hangfire.PostgreSql/PostgreSqlWriteOnlyTransaction.cs:313-323 | a null key throws with nothing queued; otherwise the set expiry is queued |
| WriteOnlyTransactions.WriteOnlyTransaction.ExpireList | src/Hangfire.PostgreSql/PostgreSqlWriteOnlyTransaction.cs:325-335 | a null key throws with nothing queued; otherwise the list expiry is queued |
| WriteOnlyTransactions.WriteOnlyTransaction.ExpireHash | src/Hangfire.PostgreSql/PostgreSqlWriteOnlyTransaction.cs:337-347 | a null key throws with nothing queued; otherwise the hash expiry is queued |
| WriteOnlyTransactions.WriteOnlyTransaction.PersistSet | src/Hangfire.PostgreSql/PostgreSqlWriteOnlyTransaction.cs:349-359 | a null key throws with nothing queued; otherwise clearing the set's expiry is queued |
| WriteOnlyTransactions.WriteOnlyTransaction.PersistList | src/Hangfire.PostgreSql/PostgreSqlWriteOnlyTransaction.cs:361-371 | a null key throws with nothing queued; otherwise clearing the list's expiry is queued |
| WriteOnlyTransactions.WriteOnlyTransaction.PersistHash | src/Hangfire.PostgreSql/PostgreSqlWriteOnlyTransaction.cs:373-383 | a null key throws with nothing queued; otherwise clearing the hash's expiry is queued |
| WriteOnlyTransactions.WriteOnlyTransaction.AddRangeToSet | src/Hangfire.PostgreSql/PostgreSqlWriteOnlyTransaction.cs:385-396 | a null key, then null items, throw with nothing queued; otherwise one plain insert of all items is queued |
| WriteOnlyTransactions.WriteOnlyTransaction.RemoveSet | src/Hangfire.PostgreSql/PostgreSqlWriteOnlyTransaction.cs:398-408 | a null key throws with nothing queued; otherwise the delete of the key's rows is queued |
| WriteOnlyTransactions.WriteOnlyTransaction.ExpireJob | src/Hangfire.PostgreSql/PostgreSqlWriteOnlyTransaction.cs:68-79 | queues a job expiry in whole seconds; the job id is converted only when the command runs |
| WriteOnlyTransactions.WriteOnlyTransaction.PersistJob | src/Hangfire.PostgreSql/PostgreSqlWriteOnlyTransaction.cs:81-91 | queues clearing the job's expiry |
| WriteOnlyTransactions.WriteOnlyTransaction.SetJobState | src/Hangfire.PostgreSql/PostgreSqlWriteOnlyTransaction.cs:93-117 | queues recording a state that becomes the job's current one |
| WriteOnlyTransactions.WriteOnlyTransaction.AddJobState | src/Hangfire.PostgreSql/PostgreSqlWriteOnlyTransaction.cs:119-136 | queues recording a state in the history only |
| WriteOnlyTransactions.WriteOnlyTransaction.AddToQueue | src/Hangfire.PostgreSql/PostgreSqlWriteOnlyTransaction.cs:138-144 | queues handing the job to the queue's provider |

## Left out

- Time: `Stopwatch`, `Thread.Sleep`, `DateTime.UtcNow` and `TimeSpan` become integer milliseconds. Each lock iteration reads `ElapsedMilliseconds` twice, for the timeout test and for the pause; the model merges the two readings into one. A sleep's overshoot, the time an attempt takes and each command's client clock are parameters. Client times are whole milliseconds since `DateTime.MinValue`, so `DateTime.Add` raising outside DateTime's range is modelled at millisecond precision (`Commands.ExpiryAt`). The rounding of `double` millisecond values is not modelled.
- Base.DoubleToInt32: C# leaves an out-of-range `(int)` cast unspecified. The model takes int.MinValue, the value of the x64 runtime up to .NET 8 (.NET 9 saturates to int.MaxValue instead, and the loop then keeps polling), so a remaining time above 2^31 - 1 ms makes the loop give up at once.
- The `SELECT` issued after each transactional attempt, and any exception from it, are not modelled: its result is never used.
- Concurrency: other processes act on the lock table only while the loop sleeps (`World.others`), and attempts are atomic steps. PostgreSQL's isolation, serialization failures and races between processes inside an attempt are not modelled. A failure of the update-count policy's claiming update is one opaque `DatabaseError`.
- A null or empty resource and a null connection or options are arguments of `Locking.DistributedLock.Open`. Other null strings are not modelled.
- Policy B's as-written flip is what the lock class runs. The corrected flip is proved beside it, not substituted (see Findings).
- The transaction's constructor null checks (PostgreSqlWriteOnlyTransaction.cs:49-51) and its empty `Dispose` are not modelled: the connection is a non-null `Database`, and the options and queue providers carry no logic here.
- Keys of the mutation methods without a null check are non-null strings. SQL `NULL` comparison and NOT NULL constraints are not modelled.
- `AddRangeToSet` reads its items list when the command runs. The model snapshots the items when the command is queued, so a list changed between the call and `Commit` is not modelled.
- `AddToQueue` looks up the queue provider when the call is made, and that lookup can throw; this is not modelled. The provider's enqueue is modelled as an append to `queued` inside the transaction, rolled back with it.
- Counter and job expiries are computed by PostgreSQL (`NOW() + INTERVAL`); a result outside PostgreSQL's timestamp range, which would raise, is not modelled.
- Set scores are real numbers. NaN and the other `double` special values are not modelled. Counter sums are unbounded integers.
- State data serialization (`JobHelper.ToJson`) is opaque text.
- Schema: the unique (key, value) pair of `set` and the unique (key, field) pair of `hash` are assumed. The schema file is not part of this model. Foreign keys such as `state.jobid` are not modelled.
- Database errors outside the model (connection loss, constraints not modelled, serialization failures) are a set of command positions at which a command raises, plus a flag for the final commit failing.
- SQL text, schema names, Dapper and Npgsql calls are not modelled. `PostgreSqlStorage.cs` and `PostgreSqlJobQueueMonitoringApi.cs` are not part of this model. `PostgreSqlDistributedLockException` is the `LockException(message)` error.

## Findings

| source | as written | input that shows it | evidently intended | confidence | as-written member | corrected member |
|---|---|---|---|---|---|---|
| src/Hangfire.PostgreSql/PostgreSqlDistributedLock.cs:150 | the claiming `UPDATE lock SET updatecount = 1 WHERE updatecount = 0` has no condition on the resource, and success is "any row changed" | lock table `{"queue:default": 1, "recurring-jobs:lock": 0}`; acquiring `"queue:default"` with the update-count policy succeeds at once and claims the other resource's row | claim only the resource's own row (`AND resource = @resource`), so a held lock is never granted twice | high; not executed | LockTable.UpdateCountAttemptGrantsHeldResource | LockTable.OwnRowAttemptRespectsHeldResource |
| src/Hangfire.PostgreSql/PostgreSqlWriteOnlyTransaction.cs:259-265 | `LIMIT` is `keepEndingAt - keepStartingFrom + 1` in 32-bit arithmetic; PostgreSQL rejects a negative `LIMIT`, so the command raises and the whole commit rolls back | `TrimList(k, 5, 2)`, or `TrimList(k, 0, int.MaxValue)` (the subtraction wraps to int.MinValue), on a key with rows | keep the ranks `[keepStartingFrom, keepEndingAt]`: none for an empty range, every rank from the start for `int.MaxValue` | medium; not executed | CommandLaws.TrimRaisesOnEmptyOrWideRange | CommandLaws.TrimToRanksKeepsRanks |
