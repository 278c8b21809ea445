/** The lock table and the statements the distributed lock runs against it, each as a
    function from the table before the statement to the table after it and the number
    of rows the statement affected. */
module LockTable {
  import opened Base

  /** One row per resource (the table's unique key), holding its `updatecount` column. */
  type Table = map<string, int>

  /** The `updatecount` of a row inserted without that column (the transactional policy
      inserts only `resource`). */
  const DefaultUpdateCount: int := 0

  /** Upper bound, in milliseconds, of one pause between two attempts. */
  const MaxSleep: int := 1000

  /** `INSERT INTO lock(resource, updatecount) SELECT @resource, count
      WHERE NOT EXISTS (SELECT 1 FROM lock WHERE resource = @resource)`. */
  function InsertIfAbsent(t: Table, resource: string, count: int): (r: (Table, nat))
    ensures r.0.Keys == t.Keys + {resource}
    ensures forall x :: x in t ==> r.0[x] == t[x]
    ensures resource !in t ==> r.0[resource] == count
    ensures r.1 <= 1
    ensures r.1 > 0 <==> resource !in t
  {
    if resource in t then (t, 0) else (t[resource := count], 1)
  }

  /** `DELETE FROM lock WHERE resource = @resource`. */
  function DeleteResource(t: Table, resource: string): (r: (Table, nat))
    ensures r.0.Keys == t.Keys - {resource}
    ensures forall x :: x in r.0 ==> r.0[x] == t[x]
    ensures r.1 <= 1
    ensures r.1 > 0 <==> resource in t
  {
    (t - {resource}, if resource in t then 1 else 0)
  }

  /** The resources whose row has `updatecount = 0`. */
  function Unclaimed(t: Table): set<string> {
    set x | x in t && t[x] == 0
  }

  /** `UPDATE lock SET updatecount = 1 WHERE updatecount = 0`, exactly as the update-count
      policy issues it: the statement has no condition on the resource. */
  function FlipAllUnclaimed(t: Table): (r: (Table, nat))
    ensures r.0.Keys == t.Keys
    ensures forall x :: x in t ==> r.0[x] == (if t[x] == 0 then 1 else t[x])
    ensures r.1 > 0 <==> exists x :: x in t && t[x] == 0
  {
    var flipped := Unclaimed(t);
    assert (exists x :: x in t && t[x] == 0) ==> |flipped| > 0 by {
      if exists x :: x in t && t[x] == 0 {
        var x :| x in t && t[x] == 0;
        assert x in flipped;
      }
    }
    (map x | x in t :: if t[x] == 0 then 1 else t[x], |flipped|)
  }

  /** The flip restricted to the resource being locked:
      `UPDATE lock SET updatecount = 1 WHERE resource = @resource AND updatecount = 0`. */
  function FlipOwnRow(t: Table, resource: string): (r: (Table, nat))
    ensures r.0.Keys == t.Keys
    ensures forall x :: x in t && x != resource ==> r.0[x] == t[x]
    ensures resource in t ==> r.0[resource] == (if t[resource] == 0 then 1 else t[resource])
    ensures r.1 > 0 <==> resource in t && t[resource] == 0
  {
    if resource in t && t[resource] == 0 then (t[resource := 1], 1) else (t, 0)
  }

  /** The pause before the next attempt: the remaining time `timeout - elapsed`, converted
      with `(int)` and capped at one second. The caller sleeps only when it is positive. */
  function SleepDuration(timeout: int, elapsed: int): (d: int)
    ensures d > 0 <==> elapsed < timeout && timeout - elapsed <= Int32Max
    ensures d > 0 ==> 1 <= d <= MaxSleep && d == Min(MaxSleep, timeout - elapsed)
  {
    var d := DoubleToInt32(timeout - elapsed) as int;
    if d > MaxSleep then MaxSleep else d
  }

  /** The two acquisition policies; the storage option `UseNativeDatabaseTransactions`
      selects the first. */
  datatype Policy = Transactional | UpdateCount

  /** The end of one attempt: it ran to its success test, or a statement raised an
      exception that the attempt does not catch. */
  datatype Attempt = Attempted(table: Table, acquired: bool) | Raised(table: Table)

  /** One attempt of the transactional policy: the conditional insert inside a
      repeatable-read transaction. An exception (`raises`) rolls the transaction back and
      is swallowed, so it is a failed attempt. */
  function TransactionalAttempt(t: Table, resource: string, raises: bool): (a: Attempt)
    ensures a.Attempted?
    ensures a.acquired <==> !raises && resource !in t
    ensures a.table == (if a.acquired then t[resource := DefaultUpdateCount] else t)
  {
    if raises then Attempted(t, false)
    else
      var (t', rowsAffected) := InsertIfAbsent(t, resource, DefaultUpdateCount);
      Attempted(t', rowsAffected > 0)
  }

  /** One attempt of the update-count policy, as written: insert `(resource, 0)` if absent,
      swallowing an exception from it, then flip every unclaimed row. An exception from the
      flip is not caught. */
  function UpdateCountAttempt(t: Table, resource: string, insertRaises: bool, flipRaises: bool): (a: Attempt)
    ensures a.Raised? <==> flipRaises
  {
    var t1 := if insertRaises then t else InsertIfAbsent(t, resource, 0).0;
    if flipRaises then Raised(t1)
    else
      var (t2, rowsAffected) := FlipAllUnclaimed(t1);
      Attempted(t2, rowsAffected > 0)
  }

  /** What one update-count attempt does: the insert adds the resource's row with 0 unless
      it raised or the row existed; the flip (unless it raised) claims every unclaimed row of
      every resource; the attempt succeeds iff some row was unclaimed after the insert. */
  lemma UpdateCountAttemptEffect(t: Table, resource: string, insertRaises: bool, flipRaises: bool)
    ensures var a := UpdateCountAttempt(t, resource, insertRaises, flipRaises);
            && a.table.Keys == (if insertRaises then t.Keys else t.Keys + {resource})
            && (a.Raised? ==> forall x :: x in t ==> a.table[x] == t[x])
            && (a.Attempted? ==> forall x :: x in t ==> a.table[x] == (if t[x] == 0 then 1 else t[x]))
            && (a.Attempted? && !insertRaises && resource !in t ==> a.table[resource] == 1)
            && (a.Attempted? ==>
                  (a.acquired <==> (!insertRaises && resource !in t) || exists x :: x in t && t[x] == 0))
  {
    var t1 := if insertRaises then t else InsertIfAbsent(t, resource, 0).0;
    assert !insertRaises && resource !in t ==> resource in t1 && t1[resource] == 0;
  }

  /** The update-count attempt with the flip restricted to the resource's own row. */
  function UpdateCountAttemptOwnRow(t: Table, resource: string, insertRaises: bool, flipRaises: bool): (a: Attempt)
    ensures a.Raised? <==> flipRaises
    ensures a.table.Keys == if insertRaises then t.Keys else t.Keys + {resource}
    ensures forall x :: x in t && x != resource ==> a.table[x] == t[x]
    ensures a.Attempted? ==>
              (a.acquired <==> if resource in t then t[resource] == 0 else !insertRaises)
    ensures a.Attempted? && a.acquired ==> a.table[resource] == 1
  {
    var t1 := if insertRaises then t else InsertIfAbsent(t, resource, 0).0;
    if flipRaises then Raised(t1)
    else
      var (t2, rowsAffected) := FlipOwnRow(t1, resource);
      Attempted(t2, rowsAffected > 0)
  }

  /** As written, an update-count attempt for a resource whose row is already claimed
      succeeds as soon as some other resource has an unclaimed row. */
  lemma UpdateCountAttemptGrantsHeldResource()
    ensures var t := map["queue:default" := 1, "recurring-jobs:lock" := 0];
            UpdateCountAttempt(t, "queue:default", false, false)
              == Attempted(map["queue:default" := 1, "recurring-jobs:lock" := 1], true)
  {
    var t := map["queue:default" := 1, "recurring-jobs:lock" := 0];
    var a := UpdateCountAttempt(t, "queue:default", false, false);
    UpdateCountAttemptEffect(t, "queue:default", false, false);
    assert "recurring-jobs:lock" in t && t["recurring-jobs:lock"] == 0;
    assert a.table.Keys == t.Keys;
    assert a.table == map["queue:default" := 1, "recurring-jobs:lock" := 1];
  }

  /** With the flip restricted to the resource's row, an attempt on a resource whose row is
      claimed fails and changes nothing, whatever the other rows hold. */
  lemma OwnRowAttemptRespectsHeldResource(t: Table, resource: string, insertRaises: bool, flipRaises: bool)
    requires resource in t && t[resource] != 0
    ensures var a := UpdateCountAttemptOwnRow(t, resource, insertRaises, flipRaises);
            a.table == t && (a.Attempted? ==> !a.acquired)
  {
    var a := UpdateCountAttemptOwnRow(t, resource, insertRaises, flipRaises);
    assert a.table.Keys == t.Keys;
    assert a.table[resource] == t[resource] by {
      var t1 := if insertRaises then t else InsertIfAbsent(t, resource, 0).0;
      assert t1 == t;
    }
  }
}
