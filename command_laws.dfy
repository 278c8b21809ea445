/** What the queued commands promise once committed: counters add up, upserts leave one row
    holding the last value written, trimming keeps a window of ranks, and job commands need
    a job id that parses. */
module CommandLaws {
  import opened Base
  import opened Storage
  import opened Commands
  import JobIds

  // ---- counters ----

  /** An increment or decrement appends one row, leaves the existing rows as they were, and
      moves its own counter, and no other, by its delta. */
  lemma CounterInsertAddsDelta(rows: seq<CounterRow>, key: string, delta: int, seconds: Option<int>,
                               dbNow: int, other: string)
    ensures var r := ApplyToCounters(CounterInsert(key, delta, seconds), rows, dbNow);
            && CounterValue(r, other) == CounterValue(rows, other) + (if other == key then delta else 0)
            && r[|rows|].expireAt == (if seconds.Some? then Some(dbNow + seconds.value * 1000) else None)
  {
    var r := ApplyToCounters(CounterInsert(key, delta, seconds), rows, dbNow);
    CounterValueAppend(rows, r[|rows|], other);
  }

  // ---- sets ----

  /** Two upserts of the same member leave what the second alone leaves: one row, holding
      the second score. */
  lemma SetUpsertLastScoreWins(key: string, value: string, first: real, second: real, s: Store,
                               clocks: Clocks, faults: set<nat>, index: nat)
    requires index !in faults && index + 1 !in faults
    ensures RunAll([OnSets(SetUpsert(key, value, first)), OnSets(SetUpsert(key, value, second))], s, clocks, faults, index)
            == RunAll([OnSets(SetUpsert(key, value, second))], s, clocks, faults, index)
  {
    var cmds := [OnSets(SetUpsert(key, value, first)), OnSets(SetUpsert(key, value, second))];
    var last := [OnSets(SetUpsert(key, value, second))];
    var s1 := s.(sets := UpsertSetRow(s.sets, key, value, first));
    var s2 := s1.(sets := UpsertSetRow(s1.sets, key, value, second));
    var once := s.(sets := UpsertSetRow(s.sets, key, value, second));
    assert s2 == once;
    assert cmds[1..] == last && last[1..] == [];
    assert ExecuteAt(cmds[0], s, clocks, faults, index) == Success(s1);
    assert ExecuteAt(last[0], s1, clocks, faults, index + 1) == Success(s2);
    assert ExecuteAt(last[0], s, clocks, faults, index) == Success(once);
    assert RunAll(last, s1, clocks, faults, index + 1) == Success(s2);
    assert RunAll(last, s, clocks, faults, index) == Success(once);
  }

  // ---- lists ----

  /** With a non-negative offset and limit, trimming keeps the window of ranks
      [keepStartingFrom, keepStartingFrom + limit) of the key's rows, in id order, and the
      rows of every other key; when `keepEndingAt - keepStartingFrom + 1` does not wrap the
      window is the ranks [keepStartingFrom, keepEndingAt]. */
  lemma TrimKeepsRanks(t: ListTable, key: string, from: int32, to: int32, clientNow: int)
    requires 0 <= from && 0 <= TrimLimit(from, to)
    ensures var r := ApplyToLists(ListTrim(key, from, to), t, clientNow);
            && r.Success?
            && KeyRows(r.value.rows, key)
               == Window(KeyRows(t.rows, key), from as int, from as int + TrimLimit(from, to) as int)
            && (forall other :: other != key ==> KeyRows(r.value.rows, other) == KeyRows(t.rows, other))
            && r.value.nextId == t.nextId
    ensures InInt32Range(to as int - from as int + 1) ==> TrimLimit(from, to) as int == to as int - from as int + 1
  {
    var lo, hi := from as int, from as int + TrimLimit(from, to) as int;
    var kept := TrimRows(t.rows, key, lo, hi, 0);
    TrimApplies(t, key, from, to, clientNow);
    TrimKeepsWindow(t.rows, key, lo, hi, 0);
    forall other | other != key
      ensures KeyRows(kept, other) == KeyRows(t.rows, other)
    {
      TrimKeepsOtherKeys(t.rows, key, other, lo, hi, 0);
    }
  }

  /** With a non-negative offset and limit the trim statement runs. */
  lemma TrimApplies(t: ListTable, key: string, from: int32, to: int32, clientNow: int)
    requires 0 <= from && 0 <= TrimLimit(from, to)
    ensures ApplyToLists(ListTrim(key, from, to), t, clientNow)
            == Success(t.(rows := TrimRows(t.rows, key, from as int, from as int + TrimLimit(from, to) as int, 0)))
  {
  }

  /** A list of six entries trimmed with (2, 4) keeps its third, fourth and fifth entries. */
  lemma TrimSixEntries(t: ListTable, key: string, clientNow: int)
    requires |KeyRows(t.rows, key)| == 6
    ensures var r := ApplyToLists(ListTrim(key, 2, 4), t, clientNow);
            r.Success? && KeyRows(r.value.rows, key) == KeyRows(t.rows, key)[2..5]
  {
    TrimKeepsRanks(t, key, 2, 4, clientNow);
  }

  /** As written, a trim whose `keepEndingAt - keepStartingFrom + 1` is negative, whether
      because the range is empty or because the subtraction wraps, raises and so fails the
      whole commit, as soon as the key has a row. */
  lemma TrimRaisesOnEmptyOrWideRange(t: ListTable, key: string, clientNow: int)
    requires KeyRows(t.rows, key) != []
    ensures ApplyToLists(ListTrim(key, 5, 2), t, clientNow) == Failure(NegativeOffsetOrLimit)
    ensures ApplyToLists(ListTrim(key, 0, Int32Max as int32), t, clientNow) == Failure(NegativeOffsetOrLimit)
  {
    assert TrimLimit(5, 2) == -2;
    assert TrimLimit(0, Int32Max as int32) == Int32Min as int32;
  }

  /** The trim as intended: keep the ranks [keepStartingFrom, keepEndingAt] of the key,
      computed without 32-bit wrap-around, none when the range is empty. */
  function TrimToRanks(rows: seq<ListRow>, key: string, from: int, to: int): seq<ListRow> {
    TrimRows(rows, key, from, Max(from, to + 1), 0)
  }

  lemma TrimToRanksKeepsRanks(rows: seq<ListRow>, key: string, from: int, to: int)
    ensures to < from ==> KeyRows(TrimToRanks(rows, key, from, to), key) == []
    ensures from <= to ==> KeyRows(TrimToRanks(rows, key, from, to), key) == Window(KeyRows(rows, key), from, to + 1)
    ensures forall other :: other != key ==> KeyRows(TrimToRanks(rows, key, from, to), other) == KeyRows(rows, other)
  {
    TrimKeepsWindow(rows, key, from, Max(from, to + 1), 0);
    forall other | other != key
      ensures KeyRows(TrimToRanks(rows, key, from, to), other) == KeyRows(rows, other)
    {
      TrimKeepsOtherKeys(rows, key, other, from, Max(from, to + 1), 0);
    }
  }

  // ---- hashes ----

  /** The value of the last pair naming `field`, if any. */
  function LastValueFor(pairs: seq<(string, string)>, field: string): Option<string> {
    if pairs == [] then None
    else if pairs[|pairs| - 1].0 == field then Some(pairs[|pairs| - 1].1)
    else LastValueFor(pairs[..|pairs| - 1], field)
  }

  /** The hash table after upserting every pair in order. */
  function UpsertPairs(hashes: map<(string, string), HashRow>, key: string, pairs: seq<(string, string)>)
    : map<(string, string), HashRow>
  {
    if pairs == [] then hashes
    else
      var last := pairs[|pairs| - 1];
      UpsertHashRow(UpsertPairs(hashes, key, pairs[..|pairs| - 1]), key, last.0, last.1)
  }

  /** After the upserts each named field holds the value of the last pair naming it, and
      every other row is as it was: no row is lost and none appears but the named fields. */
  lemma {:induction false} UpsertPairsLastWins(hashes: map<(string, string), HashRow>, key: string,
                                               pairs: seq<(string, string)>)
    ensures var r := UpsertPairs(hashes, key, pairs);
            && (forall f :: LastValueFor(pairs, f).Some? ==>
                  (key, f) in r && r[(key, f)].value == LastValueFor(pairs, f).value)
            && (forall p :: p in hashes && (p.0 != key || LastValueFor(pairs, p.1).None?) ==>
                  p in r && r[p] == hashes[p])
            && (forall p :: p in r ==> p in hashes || (p.0 == key && LastValueFor(pairs, p.1).Some?))
  {
    if pairs != [] {
      UpsertPairsLastWins(hashes, key, pairs[..|pairs| - 1]);
    }
  }

  /** The commands `SetRangeInHash` queues, run in order, upsert every pair. */
  lemma {:induction false} HashCommandsUpsertPairs(key: string, pairs: seq<(string, string)>, s: Store,
                                                   clocks: Clocks, faults: set<nat>, index: nat)
    requires forall j :: index <= j < index + |pairs| ==> j !in faults
    ensures RunAll(HashCommands(key, pairs), s, clocks, faults, index)
            == Success(s.(hashes := UpsertPairs(s.hashes, key, pairs)))
  {
    if pairs == [] {
      assert HashCommands(key, pairs) == [];
    } else {
      var n := |pairs| - 1;
      var front := pairs[..n];
      var lastCommand := OnHashes(HashUpsert(key, pairs[n].0, pairs[n].1));
      assert HashCommands(key, pairs) == HashCommands(key, front) + [lastCommand];
      RunAllAppend(HashCommands(key, front), [lastCommand], s, clocks, faults, index);
      HashCommandsUpsertPairs(key, front, s, clocks, faults, index);
      var mid := s.(hashes := UpsertPairs(s.hashes, key, front));
      RunOne(lastCommand, mid, clocks, faults, index + n);
    }
  }

  // ---- jobs ----

  /** Expiring or persisting a job sets `expireat` on that job's row, if it exists, and on
      no other. */
  lemma JobExpireSetsExpiry(jobId: Option<string>, seconds: Option<int>, t: JobTables, dbNow: int, clientNow: int)
    requires JobIds.ConvertToInt32(jobId).Some?
    ensures var r := ApplyToJobs(JobExpire(jobId, seconds), t, dbNow, clientNow);
            var id := JobIds.ConvertToInt32(jobId).value as int;
            && r.Success?
            && r.value.states == t.states
            && (id in t.jobs ==> r.value.jobs[id] == t.jobs[id].(expireAt := ExpiryInSeconds(dbNow, seconds)))
            && (forall j :: j in t.jobs && j != id ==> r.value.jobs[j] == t.jobs[j])
  {
  }

  /** Setting a state records it in the history under the next state id and makes it the
      job's current state when the job exists; adding a state only records it. */
  lemma JobAddStateRecordsState(jobId: Option<string>, state: StateRecord, setCurrent: bool,
                                t: JobTables, dbNow: int, clientNow: int)
    requires JobIds.ConvertToInt32(jobId).Some?
    ensures var r := ApplyToJobs(JobAddState(jobId, state, setCurrent), t, dbNow, clientNow);
            var id := JobIds.ConvertToInt32(jobId).value as int;
            && r.Success?
            && r.value.states == t.states + [StateRow(t.nextStateId, id, state.name, state.reason, clientNow, state.data)]
            && (setCurrent && id in t.jobs ==>
                  r.value.jobs[id] == t.jobs[id].(stateId := Some(t.nextStateId), stateName := Some(state.name)))
            && (!setCurrent ==> r.value.jobs == t.jobs)
  {
  }
}
