/** The tables a write-only transaction changes, and each SQL statement it queues as a
    function from the table before the statement to the table after it. Timestamps and
    durations are in milliseconds. */
module Storage {
  import opened Base

  /** `counter`: append-only rows of signed deltas. */
  datatype CounterRow = CounterRow(key: string, value: int, expireAt: Option<int>)

  /** `set`: one row per (key, value), the table's unique pair. */
  datatype SetRow = SetRow(score: real, expireAt: Option<int>)

  /** `list`: rows with a serial id, ordered by it. */
  datatype ListRow = ListRow(id: nat, key: string, value: string, expireAt: Option<int>)

  /** `hash`: one row per (key, field), the table's unique pair. */
  datatype HashRow = HashRow(value: string, expireAt: Option<int>)

  /** `job`: the columns the transaction changes. */
  datatype JobRow = JobRow(stateId: Option<nat>, stateName: Option<string>, expireAt: Option<int>)

  /** `state`: a job's state history, with a serial id. */
  datatype StateRow = StateRow(id: nat, jobId: int, name: string, reason: string, createdAt: int, data: string)

  /** A job handed to a queue provider. */
  datatype QueuedJob = QueuedJob(queue: string, jobId: string)

  /** `list` rows in table order, with the next serial id to hand out. */
  datatype ListTable = ListTable(rows: seq<ListRow>, nextId: nat)

  /** `job` rows by id, and the `state` history with the next serial id to hand out. */
  datatype JobTables = JobTables(jobs: map<int, JobRow>, states: seq<StateRow>, nextStateId: nat)

  datatype Store = Store(
    counters: seq<CounterRow>,
    sets: map<(string, string), SetRow>,
    lists: ListTable,
    hashes: map<(string, string), HashRow>,
    jobs: JobTables,
    queued: seq<QueuedJob>)

  /** The serial columns: list ids increase along the table and stay below the next id to
      hand out, so the table's order is the order of its ids. */
  predicate IdsAbove(rows: seq<ListRow>, floor: int, nextId: nat) {
    rows == [] || (floor < rows[0].id < nextId && IdsAbove(rows[1..], rows[0].id, nextId))
  }

  predicate ListValid(t: ListTable) {
    IdsAbove(t.rows, -1, t.nextId)
  }

  predicate JobsValid(t: JobTables) {
    forall a :: 0 <= a < |t.states| ==> t.states[a].id < t.nextStateId
  }

  predicate Valid(s: Store) {
    ListValid(s.lists) && JobsValid(s.jobs)
  }

  // ---- counter ----

  /** The value of a counter: the sum of the deltas of its rows. */
  function CounterValue(rows: seq<CounterRow>, key: string): int {
    if rows == [] then 0
    else (if rows[0].key == key then rows[0].value else 0) + CounterValue(rows[1..], key)
  }

  /** Appending a delta row adds its delta to its own counter and to no other. */
  lemma {:induction false} CounterValueAppend(rows: seq<CounterRow>, row: CounterRow, key: string)
    ensures CounterValue(rows + [row], key)
            == CounterValue(rows, key) + (if row.key == key then row.value else 0)
  {
    if rows != [] {
      assert (rows + [row])[1..] == rows[1..] + [row];
      CounterValueAppend(rows[1..], row, key);
    }
  }

  // ---- set and hash: tables keyed by a unique pair ----

  /** The two-statement upsert: update the score of the (key, value) row; insert the row
      (with no expiry) only if the update touched none. */
  function UpsertSetRow(sets: map<(string, string), SetRow>, key: string, value: string, score: real)
    : (r: map<(string, string), SetRow>)
    ensures r.Keys == sets.Keys + {(key, value)}
    ensures r[(key, value)].score == score
    ensures r[(key, value)].expireAt == if (key, value) in sets then sets[(key, value)].expireAt else None
    ensures forall p :: p in sets && p != (key, value) ==> r[p] == sets[p]
  {
    if (key, value) in sets then sets[(key, value) := sets[(key, value)].(score := score)]
    else sets[(key, value) := SetRow(score, None)]
  }

  /** Plain inserts of `(key, v, 0.0)` for each item in turn; the unique pair rejects an
      item already present, reported as the first such item. */
  function InsertSetRows(sets: map<(string, string), SetRow>, key: string, items: seq<string>)
    : (r: Result<map<(string, string), SetRow>, string>)
    ensures r.Success? <==> (forall v :: v in items ==> (key, v) !in sets) && Distinct(items)
    ensures r.Success? ==> r.value.Keys == sets.Keys + (set v | v in items :: (key, v))
    ensures r.Success? ==> forall p :: p in sets ==> r.value[p] == sets[p]
    ensures r.Success? ==> forall v :: v in items ==> r.value[(key, v)] == SetRow(0.0, None)
    decreases |items|
  {
    if items == [] then Success(sets)
    else if (key, items[0]) in sets then Failure(items[0])
    else
      var rest := InsertSetRows(sets[(key, items[0]) := SetRow(0.0, None)], key, items[1..]);
      assert forall v :: v in items <==> v == items[0] || v in items[1..];
      assert rest.Success? ==> (forall v :: v in items[1..] ==> v != items[0]);
      rest
  }

  predicate Distinct(items: seq<string>) {
    forall a, b :: 0 <= a < b < |items| ==> items[a] != items[b]
  }

  /** `DELETE ... WHERE key = @key AND value = @value` on a table keyed by a pair. */
  function DeletePair<R>(m: map<(string, string), R>, key: string, second: string)
    : (r: map<(string, string), R>)
    ensures r.Keys == m.Keys - {(key, second)}
    ensures forall p :: p in r ==> r[p] == m[p]
  {
    m - {(key, second)}
  }

  /** `DELETE ... WHERE key = @key` on a table keyed by a pair. */
  function DeleteKey<R>(m: map<(string, string), R>, key: string): (r: map<(string, string), R>)
    ensures forall p :: p in r <==> p in m && p.0 != key
    ensures forall p :: p in r ==> r[p] == m[p]
  {
    map p | p in m && p.0 != key :: m[p]
  }

  /** `UPDATE ... SET <column> = ... WHERE key = @key` on a table keyed by a pair: `update`
      rewrites every row of the key. The expiry commands of sets and hashes use it to set
      `expireat`, or to clear it when persisting. */
  function UpdateKeyRows<R>(m: map<(string, string), R>, key: string, update: R -> R)
    : (r: map<(string, string), R>)
    ensures r.Keys == m.Keys
    ensures forall p :: p in m && p.0 == key ==> r[p] == update(m[p])
    ensures forall p :: p in m && p.0 != key ==> r[p] == m[p]
  {
    map p | p in m :: if p.0 == key then update(m[p]) else m[p]
  }

  /** The hash upsert: update the value of the (key, field) row; insert it only if the
      update touched none. */
  function UpsertHashRow(hashes: map<(string, string), HashRow>, key: string, field: string, value: string)
    : (r: map<(string, string), HashRow>)
    ensures r.Keys == hashes.Keys + {(key, field)}
    ensures r[(key, field)].value == value
    ensures r[(key, field)].expireAt == if (key, field) in hashes then hashes[(key, field)].expireAt else None
    ensures forall p :: p in hashes && p != (key, field) ==> r[p] == hashes[p]
  {
    if (key, field) in hashes then hashes[(key, field) := hashes[(key, field)].(value := value)]
    else hashes[(key, field) := HashRow(value, None)]
  }

  // ---- list ----

  /** The rows of one key, in table order. */
  function KeyRows(rows: seq<ListRow>, key: string): seq<ListRow> {
    if rows == [] then []
    else (if rows[0].key == key then [rows[0]] else []) + KeyRows(rows[1..], key)
  }

  /** `DELETE FROM list WHERE key = @key AND value = @value`. */
  function DeleteListValue(rows: seq<ListRow>, key: string, value: string): (r: seq<ListRow>)
    ensures forall x :: x in r <==> x in rows && !(x.key == key && x.value == value)
    ensures |r| <= |rows|
  {
    if rows == [] then []
    else
      (if rows[0].key == key && rows[0].value == value then [] else [rows[0]])
      + DeleteListValue(rows[1..], key, value)
  }

  /** `UPDATE list SET expireat = @at WHERE key = @key`. */
  function ListExpiry(rows: seq<ListRow>, key: string, at: Option<int>): (r: seq<ListRow>)
    ensures |r| == |rows|
    ensures forall a :: 0 <= a < |rows| ==>
              r[a] == if rows[a].key == key then rows[a].(expireAt := at) else rows[a]
  {
    seq(|rows|, a requires 0 <= a < |rows| => if rows[a].key == key then rows[a].(expireAt := at) else rows[a])
  }

  /** The rows that survive `DELETE FROM list WHERE key = @key AND id NOT IN (SELECT id ...
      WHERE key = @key ORDER BY id OFFSET lo LIMIT hi - lo)`: the rows of `key` whose rank,
      counted from `rank` for the first row of `rows`, lies in [lo, hi), and every row of
      another key. */
  function TrimRows(rows: seq<ListRow>, key: string, lo: int, hi: int, rank: int): (r: seq<ListRow>)
    ensures forall x :: x in r ==> x in rows
    ensures |r| <= |rows|
  {
    if rows == [] then []
    else if rows[0].key != key then [rows[0]] + TrimRows(rows[1..], key, lo, hi, rank)
    else (if lo <= rank < hi then [rows[0]] else []) + TrimRows(rows[1..], key, lo, hi, rank + 1)
  }

  function Clamp(x: int, n: nat): (r: nat)
    ensures r <= n
  {
    if x < 0 then 0 else if x > n then n else x
  }

  /** The ranks [lo, hi) of `xs`, clipped to its length. */
  function Window(xs: seq<ListRow>, lo: int, hi: int): seq<ListRow>
    requires lo <= hi
  {
    xs[Clamp(lo, |xs|)..Clamp(hi, |xs|)]
  }

  /** Trimming keeps exactly the window of the key's rows, in order. */
  lemma {:induction false} TrimKeepsWindow(rows: seq<ListRow>, key: string, lo: int, hi: int, rank: int)
    requires lo <= hi
    ensures KeyRows(TrimRows(rows, key, lo, hi, rank), key) == Window(KeyRows(rows, key), lo - rank, hi - rank)
  {
    if rows == [] {
      assert KeyRows(rows, key) == [];
    } else {
      var x := rows[0];
      var next := if x.key == key then rank + 1 else rank;
      var t := TrimRows(rows[1..], key, lo, hi, next);
      var ys := KeyRows(rows[1..], key);
      TrimKeepsWindow(rows[1..], key, lo, hi, next);
      if x.key != key {
        assert TrimRows(rows, key, lo, hi, rank) == [x] + t;
        KeyRowsCons(x, t, key);
        assert KeyRows(rows, key) == ys;
      } else {
        var xs := [x] + ys;
        assert KeyRows(rows, key) == xs;
        WindowCons(x, ys, lo - rank, hi - rank);
        if lo <= rank < hi {
          assert TrimRows(rows, key, lo, hi, rank) == [x] + t;
          KeyRowsCons(x, t, key);
          assert KeyRows([x] + t, key) == [x] + Window(ys, lo - next, hi - next);
        } else {
          assert TrimRows(rows, key, lo, hi, rank) == t;
          assert Window(xs, lo - rank, hi - rank) == [] + Window(ys, lo - next, hi - next);
        }
      }
    }
  }

  lemma KeyRowsCons(x: ListRow, t: seq<ListRow>, key: string)
    ensures KeyRows([x] + t, key) == (if x.key == key then [x] else []) + KeyRows(t, key)
  {
    assert ([x] + t)[1..] == t;
  }

  lemma WindowCons(x: ListRow, ys: seq<ListRow>, lo: int, hi: int)
    requires lo <= hi
    ensures Window([x] + ys, lo, hi) == (if lo <= 0 < hi then [x] else []) + Window(ys, lo - 1, hi - 1)
  {
    var xs := [x] + ys;
    if hi <= 0 {
    } else if lo <= 0 {
      assert xs[0..Clamp(hi, |xs|)] == [x] + ys[0..Clamp(hi - 1, |ys|)];
    } else {
      assert xs[Clamp(lo, |xs|)..Clamp(hi, |xs|)] == ys[Clamp(lo - 1, |ys|)..Clamp(hi - 1, |ys|)];
    }
  }

  /** Trimming one key leaves the rows of every other key as they were. */
  lemma {:induction false} TrimKeepsOtherKeys(rows: seq<ListRow>, key: string, other: string,
                                              lo: int, hi: int, rank: int)
    requires other != key
    ensures KeyRows(TrimRows(rows, key, lo, hi, rank), other) == KeyRows(rows, other)
  {
    if rows != [] {
      var next := if rows[0].key == key then rank + 1 else rank;
      TrimKeepsOtherKeys(rows[1..], key, other, lo, hi, next);
      var t := TrimRows(rows[1..], key, lo, hi, next);
      var head := if rows[0].key != key || lo <= rank < hi then [rows[0]] else [];
      assert TrimRows(rows, key, lo, hi, rank) == head + t;
      if head == [] {
        assert head + t == t;
      } else {
        assert (head + t)[0] == rows[0] && (head + t)[1..] == t;
      }
    }
  }

  /** Trimming deletes rows only, so the ids stay in increasing order. */
  lemma {:induction false} TrimKeepsIdsOrdered(rows: seq<ListRow>, floor: int, nextId: nat,
                                               key: string, lo: int, hi: int, rank: int)
    requires IdsAbove(rows, floor, nextId)
    ensures IdsAbove(TrimRows(rows, key, lo, hi, rank), floor, nextId)
  {
    if rows != [] {
      var next := if rows[0].key == key then rank + 1 else rank;
      TrimKeepsIdsOrdered(rows[1..], rows[0].id, nextId, key, lo, hi, next);
      var t := TrimRows(rows[1..], key, lo, hi, next);
      if rows[0].key != key || lo <= rank < hi {
        assert ([rows[0]] + t)[1..] == t;
      } else {
        assert [] + t == t;
        IdsAboveLower(t, rows[0].id, floor, nextId);
      }
    }
  }

  /** Deleting the rows of one value keeps the ids in increasing order. */
  lemma {:induction false} DeleteKeepsIdsOrdered(rows: seq<ListRow>, floor: int, nextId: nat,
                                                 key: string, value: string)
    requires IdsAbove(rows, floor, nextId)
    ensures IdsAbove(DeleteListValue(rows, key, value), floor, nextId)
  {
    if rows != [] {
      DeleteKeepsIdsOrdered(rows[1..], rows[0].id, nextId, key, value);
      var t := DeleteListValue(rows[1..], key, value);
      if rows[0].key == key && rows[0].value == value {
        assert [] + t == t;
        IdsAboveLower(t, rows[0].id, floor, nextId);
      } else {
        assert ([rows[0]] + t)[1..] == t;
      }
    }
  }

  lemma {:induction false} IdsAboveLower(rows: seq<ListRow>, floor: int, lower: int, nextId: nat)
    requires IdsAbove(rows, floor, nextId) && lower <= floor
    ensures IdsAbove(rows, lower, nextId)
  {
  }

  /** Appending a row with the next id keeps the ids in increasing order. */
  lemma {:induction false} AppendKeepsIdsOrdered(rows: seq<ListRow>, floor: int, nextId: nat, row: ListRow)
    requires IdsAbove(rows, floor, nextId) && row.id == nextId && floor < nextId
    ensures IdsAbove(rows + [row], floor, nextId + 1)
  {
    if rows == [] {
      assert ([] + [row])[1..] == [];
    } else {
      AppendKeepsIdsOrdered(rows[1..], rows[0].id, nextId, row);
      assert (rows + [row])[1..] == rows[1..] + [row];
    }
  }

  /** Keeping the rows of one key keeps the ids increasing. */
  lemma {:induction false} KeyRowsKeepIdsOrdered(rows: seq<ListRow>, floor: int, nextId: nat, key: string)
    requires IdsAbove(rows, floor, nextId)
    ensures IdsAbove(KeyRows(rows, key), floor, nextId)
  {
    if rows != [] {
      KeyRowsKeepIdsOrdered(rows[1..], rows[0].id, nextId, key);
      var t := KeyRows(rows[1..], key);
      if rows[0].key == key {
        assert ([rows[0]] + t)[1..] == t;
      } else {
        assert [] + t == t;
        IdsAboveLower(t, rows[0].id, floor, nextId);
      }
    }
  }

  /** In a valid list table the rows of one key, in table order, are in `ORDER BY id`
      order, so the rank a trim counts along the table is the rank by id. */
  lemma KeyRowsInIdOrder(t: ListTable, key: string)
    requires ListValid(t)
    ensures var ks := KeyRows(t.rows, key);
            forall a, b :: 0 <= a < b < |ks| ==> ks[a].id < ks[b].id
  {
    KeyRowsKeepIdsOrdered(t.rows, -1, t.nextId, key);
    IdsAboveIncreasing(KeyRows(t.rows, key), -1, t.nextId);
  }

  /** Increasing ids in the recursive sense are increasing in the pairwise sense: the
      table's order is the order of its ids. */
  lemma {:induction false} IdsAboveIncreasing(rows: seq<ListRow>, floor: int, nextId: nat)
    requires IdsAbove(rows, floor, nextId)
    ensures forall a :: 0 <= a < |rows| ==> floor < rows[a].id < nextId
    ensures forall a, b :: 0 <= a < b < |rows| ==> rows[a].id < rows[b].id
  {
    if rows != [] {
      IdsAboveIncreasing(rows[1..], rows[0].id, nextId);
      assert forall a :: 0 < a < |rows| ==> rows[a] == rows[1..][a - 1];
    }
  }
}
