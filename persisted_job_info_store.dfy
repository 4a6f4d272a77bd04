/**
 * PersistedJobInfoStore: the durable table of replication jobs, keyed by an
 * auto-increment id. A row is inserted by create, overwritten column by
 * column by persist (an upsert), and bulk-marked ABORTED by the recovery
 * sweep. The runnable jobs are the rows whose status is not one of the three
 * completed statuses, read back in ascending id order. ABORTED is not among
 * the completed statuses, so aborted rows stay runnable.
 *
 * The database table is the map rows from id to the row's columns; the
 * columns are kept as the strings and nullable values the table holds.
 */
module JobStore {
  import opened Wrappers
  import opened HiveObjects
  import opened Sets

  datatype ReplicationOperation =
    | CopyUnpartitionedTable
    | CopyPartitionedTable
    | CopyPartition
    | CopyPartitions
    | DropTable
    | DropPartition
    | RenameTable
    | RenamePartition

  function OperationName(op: ReplicationOperation): string {
    match op
    case CopyUnpartitionedTable => "COPY_UNPARTITIONED_TABLE"
    case CopyPartitionedTable => "COPY_PARTITIONED_TABLE"
    case CopyPartition => "COPY_PARTITION"
    case CopyPartitions => "COPY_PARTITIONS"
    case DropTable => "DROP_TABLE"
    case DropPartition => "DROP_PARTITION"
    case RenameTable => "RENAME_TABLE"
    case RenamePartition => "RENAME_PARTITION"
  }

  /** ReplicationOperation.valueOf; None where Java throws IllegalArgumentException. */
  function ParseOperation(s: string): (r: Option<ReplicationOperation>)
    ensures r.Some? ==> OperationName(r.value) == s
  {
    if s == "COPY_UNPARTITIONED_TABLE" then Some(CopyUnpartitionedTable)
    else if s == "COPY_PARTITIONED_TABLE" then Some(CopyPartitionedTable)
    else if s == "COPY_PARTITION" then Some(CopyPartition)
    else if s == "COPY_PARTITIONS" then Some(CopyPartitions)
    else if s == "DROP_TABLE" then Some(DropTable)
    else if s == "DROP_PARTITION" then Some(DropPartition)
    else if s == "RENAME_TABLE" then Some(RenameTable)
    else if s == "RENAME_PARTITION" then Some(RenamePartition)
    else None
  }

  lemma OperationNameRoundTrip(op: ReplicationOperation)
    ensures ParseOperation(OperationName(op)) == Some(op)
  {
  }

  datatype ReplicationStatus = Pending | Running | Successful | Failed | NotCompletable | Aborted

  function StatusName(s: ReplicationStatus): string {
    match s
    case Pending => "PENDING"
    case Running => "RUNNING"
    case Successful => "SUCCESSFUL"
    case Failed => "FAILED"
    case NotCompletable => "NOT_COMPLETABLE"
    case Aborted => "ABORTED"
  }

  /** ReplicationStatus.valueOf; None where Java throws IllegalArgumentException. */
  function ParseStatus(s: string): (r: Option<ReplicationStatus>)
    ensures r.Some? ==> StatusName(r.value) == s
  {
    if s == "PENDING" then Some(Pending)
    else if s == "RUNNING" then Some(Running)
    else if s == "SUCCESSFUL" then Some(Successful)
    else if s == "FAILED" then Some(Failed)
    else if s == "NOT_COMPLETABLE" then Some(NotCompletable)
    else if s == "ABORTED" then Some(Aborted)
    else None
  }

  lemma StatusNameRoundTrip(s: ReplicationStatus)
    ensures ParseStatus(StatusName(s)) == Some(s)
  {
  }

  /** completedStateStrings: the statuses the store never runs again. */
  const COMPLETED_STATE_STRINGS: seq<string> := [StatusName(Successful), StatusName(Failed), StatusName(NotCompletable)]

  /** The SQL test "status NOT IN (completedStateStrings)". */
  predicate IsRunnableStatus(status: string) {
    status !in COMPLETED_STATE_STRINGS
  }

  /** Exactly SUCCESSFUL, FAILED and NOT_COMPLETABLE are completed; ABORTED is not. */
  lemma CompletedStatuses(s: ReplicationStatus)
    ensures !IsRunnableStatus(StatusName(s)) <==> s == Successful || s == Failed || s == NotCompletable
  {
  }

  /** A job as the program holds it (PersistedJobInfo). */
  datatype PersistedJobInfo = PersistedJobInfo(
    id: int,
    createTime: int,
    operation: ReplicationOperation,
    status: ReplicationStatus,
    srcPath: Option<string>,
    srcClusterName: Option<string>,
    srcDbName: Option<string>,
    srcTableName: Option<string>,
    srcPartitionNames: seq<string>,
    srcObjectTldt: Option<string>,
    renameToDb: Option<string>,
    renameToTable: Option<string>,
    renameToPartition: Option<string>,
    renameToPath: Option<string>,
    extras: map<string, string>)

  /**
   * A row of the table, without its id. Every column but operation and
   * status may be NULL; the JSON columns are held already decoded.
   */
  datatype Row = Row(
    createTime: Option<int>,
    operation: string,
    status: string,
    srcPath: Option<string>,
    srcCluster: Option<string>,
    srcDb: Option<string>,
    srcTable: Option<string>,
    srcPartitions: Option<seq<string>>,
    srcTldt: Option<string>,
    renameToDb: Option<string>,
    renameToTable: Option<string>,
    renameToPartition: Option<string>,
    renameToPath: Option<string>,
    extras: Option<map<string, string>>)

  /** The columns persistHelper writes for a job. */
  function Encode(job: PersistedJobInfo): (r: Row)
    ensures r.createTime == Some(job.createTime) && r.srcPartitions == Some(job.srcPartitionNames)
    ensures r.extras == Some(job.extras)
    ensures ParseOperation(r.operation) == Some(job.operation) && ParseStatus(r.status) == Some(job.status)
  {
    OperationNameRoundTrip(job.operation);
    StatusNameRoundTrip(job.status);
    Row(Some(job.createTime), OperationName(job.operation), StatusName(job.status), job.srcPath,
        job.srcClusterName, job.srcDbName, job.srcTableName, Some(job.srcPartitionNames), job.srcObjectTldt,
        job.renameToDb, job.renameToTable, job.renameToPartition, job.renameToPath, Some(job.extras))
  }

  /**
   * Reading a row back (the loop body of getRunnableFromDb): a NULL
   * create_time reads as 0, NULL partitions as an empty list, NULL extras as
   * an empty map; an unknown operation or status name throws.
   */
  function Decode(id: int, row: Row): (r: Result<PersistedJobInfo, Exception>)
    ensures r.Failure? <==> ParseOperation(row.operation).None? || ParseStatus(row.status).None?
    ensures r.Failure? ==> r.error == IllegalArgumentException
    ensures r.Success? ==>
      && r.value.id == id
      && r.value.createTime == (if row.createTime.None? then 0 else row.createTime.value)
      && r.value.srcPartitionNames == (if row.srcPartitions.None? then [] else row.srcPartitions.value)
      && r.value.extras == (if row.extras.None? then map[] else row.extras.value)
      && OperationName(r.value.operation) == row.operation && StatusName(r.value.status) == row.status
  {
    match (ParseOperation(row.operation), ParseStatus(row.status))
    case (Some(op), Some(st)) =>
      Success(PersistedJobInfo(
        id,
        row.createTime.GetOr(0),
        op,
        st,
        row.srcPath,
        row.srcCluster,
        row.srcDb,
        row.srcTable,
        row.srcPartitions.GetOr([]),
        row.srcTldt,
        row.renameToDb,
        row.renameToTable,
        row.renameToPartition,
        row.renameToPath,
        row.extras.GetOr(map[])))
    case _ => Failure(IllegalArgumentException)
  }

  /** A persisted job reads back as itself. */
  lemma DecodeEncode(job: PersistedJobInfo)
    ensures Decode(job.id, Encode(job)) == Success(job)
  {
  }

  /** Java's long division truncates toward zero; Dafny's is Euclidean. */
  function JavaDiv(a: int, b: int): (q: int)
    requires b > 0
    ensures a >= 0 ==> q == a / b
    ensures a < 0 ==> q == -((-a) / b)
  {
    if a >= 0 then a / b else -((-a) / b)
  }

  /** currentTimeMillis / 1000 * 1000: the time rounded toward zero to a whole second. */
  function TruncateToSecond(t: int): (r: int)
    ensures r % 1000 == 0
    ensures t >= 0 ==> r <= t < r + 1000
    ensures t < 0 ==> r - 1000 < t <= r
  {
    JavaDiv(t, 1000) * 1000
  }

  /** Truncating a time that is already a whole second changes nothing. */
  lemma TruncateToSecondIdempotent(t: int)
    ensures TruncateToSecond(TruncateToSecond(t)) == TruncateToSecond(t)
  {
  }

  /** The row create inserts: the rename columns are all NULL when there is no rename target. */
  function CreatedRow(job: PersistedJobInfo, renameToObject: Option<ObjectSpec>): (r: Row)
    ensures renameToObject.None? ==>
      r.renameToDb.None? && r.renameToTable.None? && r.renameToPartition.None? && r.renameToPath.None?
    ensures renameToObject.Some? ==> r == Encode(job)
  {
    if renameToObject.None? then Encode(job).(renameToDb := None, renameToTable := None, renameToPartition := None, renameToPath := None)
    else Encode(job)
  }

  /** The table with job's row inserted or overwritten (INSERT ... ON DUPLICATE KEY UPDATE). */
  function Upsert(rows: map<int, Row>, job: PersistedJobInfo): (r: map<int, Row>)
    ensures r.Keys == rows.Keys + {job.id}
    ensures r[job.id] == Encode(job)
    ensures forall id :: id in rows && id != job.id ==> r[id] == rows[id]
  {
    rows[job.id := Encode(job)]
  }

  /** Persisting the same job twice is the same as persisting it once. */
  lemma UpsertIdempotent(rows: map<int, Row>, job: PersistedJobInfo)
    ensures Upsert(Upsert(rows, job), job) == Upsert(rows, job)
  {
  }

  /** After an upsert the job reads back unchanged. */
  lemma UpsertThenDecode(rows: map<int, Row>, job: PersistedJobInfo)
    ensures Decode(job.id, Upsert(rows, job)[job.id]) == Success(job)
  {
    DecodeEncode(job);
  }

  /** The table after "UPDATE ... SET status = 'ABORTED' WHERE status NOT IN (completed)". */
  function AbortRunnable(rows: map<int, Row>): (r: map<int, Row>)
    ensures r.Keys == rows.Keys
    ensures forall id :: id in rows && !IsRunnableStatus(rows[id].status) ==> r[id] == rows[id]
    ensures forall id :: id in rows && IsRunnableStatus(rows[id].status) ==>
      r[id] == rows[id].(status := StatusName(Aborted))
  {
    map id | id in rows :: if IsRunnableStatus(rows[id].status) then rows[id].(status := StatusName(Aborted)) else rows[id]
  }

  /** The sweep is idempotent. */
  lemma AbortRunnableIdempotent(rows: map<int, Row>)
    ensures AbortRunnable(AbortRunnable(rows)) == AbortRunnable(rows)
  {
    var once := AbortRunnable(rows);
    var twice := AbortRunnable(once);
    forall id | id in once
      ensures twice[id] == once[id]
    {
      assert IsRunnableStatus(once[id].status) ==> once[id].status == StatusName(Aborted);
    }
  }

  /** The ids getRunnableFromDb selects. */
  function RunnableIds(rows: map<int, Row>): (r: set<int>)
    ensures forall id :: id in r <==> id in rows && IsRunnableStatus(rows[id].status)
  {
    set id | id in rows && IsRunnableStatus(rows[id].status)
  }

  /**
   * Because ABORTED is not a completed status, the sweep leaves the runnable
   * set as it was: every row that was runnable is still returned, now as
   * ABORTED.
   */
  lemma AbortedRowsStayRunnable(rows: map<int, Row>)
    ensures RunnableIds(AbortRunnable(rows)) == RunnableIds(rows)
    ensures forall id :: id in RunnableIds(rows) ==> AbortRunnable(rows)[id].status == "ABORTED"
  {
    var after := AbortRunnable(rows);
    assert IsRunnableStatus("ABORTED");
    forall id | id in rows
      ensures id in RunnableIds(after) <==> id in RunnableIds(rows)
    {
    }
  }

  /** The ids of a list of jobs. */
  function JobIds(jobs: seq<PersistedJobInfo>): (r: set<int>)
    ensures forall i :: 0 <= i < |jobs| ==> jobs[i].id in r
  {
    if |jobs| == 0 then {} else JobIds(jobs[..|jobs| - 1]) + {jobs[|jobs| - 1].id}
  }

  /** Every id of the list belongs to one of its jobs. */
  lemma {:induction false} JobIdsMember(jobs: seq<PersistedJobInfo>, id: int)
    requires id in JobIds(jobs)
    ensures exists i :: 0 <= i < |jobs| && jobs[i].id == id
  {
    if jobs[|jobs| - 1].id != id {
      JobIdsMember(jobs[..|jobs| - 1], id);
      var i :| 0 <= i < |jobs| - 1 && jobs[..|jobs| - 1][i].id == id;
      assert jobs[i].id == id;
    }
  }

  lemma JobIdsAppend(jobs: seq<PersistedJobInfo>, job: PersistedJobInfo)
    ensures JobIds(jobs + [job]) == JobIds(jobs) + {job.id}
  {
    assert (jobs + [job])[..|jobs|] == jobs;
  }

  class PersistedJobInfoStore {
    /** The table: id to row. */
    var rows: map<int, Row>
    /** The AUTO_INCREMENT counter: every id in use is below it. */
    var nextId: int

    ghost predicate Valid()
      reads this
    {
      forall id :: id in rows ==> id < nextId
    }

    constructor ()
      ensures Valid() && rows == map[] && nextId == 1
    {
      rows := map[];
      nextId := 1;
    }

    /**
     * create: insert a row under a fresh id and return the job. The create
     * time is the clock (a parameter here) truncated to the second. With a
     * rename target but no rename path, Java dereferences null before the
     * insert is executed, so nothing is stored.
     */
    method Create(operation: ReplicationOperation, status: ReplicationStatus, srcPath: Option<string>,
                  srcClusterName: string, srcTableSpec: ObjectSpec, srcPartitionNames: seq<string>,
                  srcTldt: Option<string>, renameToObject: Option<ObjectSpec>, renameToPath: Option<string>,
                  extras: map<string, string>, currentTimeMillis: int)
      returns (r: Result<PersistedJobInfo, Exception>)
      requires Valid()
      modifies this
      ensures Valid()
      ensures renameToObject.Some? && renameToPath.None? <==> r.Failure?
      ensures r.Failure? ==> r.error == NullPointerException && rows == old(rows) && nextId == old(nextId)
      ensures r.Success? ==>
        var job := r.value;
        && job.id == old(nextId) && job.id !in old(rows)
        && nextId == old(nextId) + 1
        && rows == old(rows)[job.id := CreatedRow(job, renameToObject)]
        && job.createTime == TruncateToSecond(currentTimeMillis)
        && job.operation == operation && job.status == status && job.srcPath == srcPath
        && job.srcClusterName == Some(srcClusterName)
        && job.srcDbName == Some(srcTableSpec.db) && job.srcTableName == Some(srcTableSpec.table)
        && job.srcPartitionNames == srcPartitionNames && job.srcObjectTldt == srcTldt
        && job.renameToDb == (if renameToObject.None? then None else Some(renameToObject.value.db))
        && job.renameToTable == (if renameToObject.None? then None else Some(renameToObject.value.table))
        && job.renameToPartition == (if renameToObject.None? then None else renameToObject.value.partition)
        && job.renameToPath == renameToPath
        && job.extras == extras
    {
      var currentTime := TruncateToSecond(currentTimeMillis);
      if renameToObject.Some? && renameToPath.None? {
        return Failure(NullPointerException);
      }
      var id := nextId;
      var job := PersistedJobInfo(
        id, currentTime, operation, status, srcPath, Some(srcClusterName),
        Some(srcTableSpec.db), Some(srcTableSpec.table), srcPartitionNames, srcTldt,
        if renameToObject.None? then None else Some(renameToObject.value.db),
        if renameToObject.None? then None else Some(renameToObject.value.table),
        if renameToObject.None? then None else renameToObject.value.partition,
        renameToPath, extras);
      rows := rows[id := CreatedRow(job, renameToObject)];
      nextId := nextId + 1;
      return Success(job);
    }

    /** persistHelper (and persist, which retries it): upsert the job's row by id. */
    method PersistHelper(job: PersistedJobInfo)
      requires Valid()
      modifies this
      ensures Valid()
      ensures rows == Upsert(old(rows), job)
      ensures nextId == if job.id < old(nextId) then old(nextId) else job.id + 1
    {
      rows := rows[job.id := Encode(job)];
      if job.id >= nextId {
        nextId := job.id + 1;
      }
    }

    /** changeStautsAndPersist: set the job's status, then upsert it. */
    method ChangeStatusAndPersist(status: ReplicationStatus, job: PersistedJobInfo) returns (updated: PersistedJobInfo)
      requires Valid()
      modifies this
      ensures Valid()
      ensures updated == job.(status := status)
      ensures rows == Upsert(old(rows), updated)
      ensures Decode(job.id, rows[job.id]) == Success(updated)
    {
      updated := job.(status := status);
      PersistHelper(updated);
      UpsertThenDecode(old(rows), updated);
    }

    /** abortRunnableFromDb: the bulk status sweep. */
    method AbortRunnableFromDb()
      requires Valid()
      modifies this
      ensures Valid()
      ensures rows == AbortRunnable(old(rows)) && nextId == old(nextId)
    {
      rows := AbortRunnable(rows);
    }

    /**
     * getRunnableFromDb: the runnable rows in ascending id order, each read
     * back with Decode. The ORDER BY is realised by taking the least
     * remaining id on each step; a row that does not decode ends the read
     * with the exception.
     */
    method GetRunnableFromDb() returns (r: Result<seq<PersistedJobInfo>, Exception>)
      ensures r.Success? <==> AllRunnableDecode(rows)
      ensures r.Success? ==>
        && IdsAscending(r.value)
        && JobIds(r.value) == RunnableIds(rows)
        && ReadFrom(r.value, rows)
    {
      r := ReadInIdOrder(rows, RunnableIds(rows));
    }
  }

  /**
   * The read loop of getRunnableFromDb over the selected ids, least id
   * first; the first row that does not decode ends the read.
   */
  method ReadInIdOrder(rows: map<int, Row>, ids: set<int>) returns (r: Result<seq<PersistedJobInfo>, Exception>)
    requires ids <= rows.Keys
    ensures r.Success? <==> forall id :: id in ids ==> Decode(id, rows[id]).Success?
    ensures r.Success? ==> IdsAscending(r.value) && JobIds(r.value) == ids && ReadFrom(r.value, rows)
  {
    var remaining := ids;
    var result: seq<PersistedJobInfo> := [];
    ghost var done: set<int> := {};
    while remaining != {}
      invariant ReadState(rows, ids, remaining, done, result)
      decreases |remaining|
    {
      ghost var least := Minimum(remaining);
      var m :| m in remaining && forall x :: x in remaining ==> m <= x;
      var job := Decode(m, rows[m]);
      if job.Failure? {
        assert m in ids && Decode(m, rows[m]).Failure?;
        return Failure(job.error);
      }
      ReadStep(rows, ids, remaining, done, result, m, job.value);
      result := result + [job.value];
      remaining := remaining - {m};
      done := done + {m};
    }
    ReadAllDecodes(result, rows, ids);
    return Success(result);
  }

  /** What the read loop keeps: the jobs read so far are the rows of the ids done, ascending and below those remaining. */
  ghost predicate ReadState(rows: map<int, Row>, ids: set<int>, remaining: set<int>, done: set<int>,
                            result: seq<PersistedJobInfo>) {
    && ids <= rows.Keys
    && remaining <= ids
    && done == JobIds(result)
    && IdsAscending(result)
    && AllBelow(result, remaining)
    && ids == remaining + done
    && ReadFrom(result, rows)
  }

  /** Reading the least remaining id keeps the read loop's state. */
  lemma ReadStep(rows: map<int, Row>, ids: set<int>, remaining: set<int>, done: set<int>, result: seq<PersistedJobInfo>,
                 m: int, job: PersistedJobInfo)
    requires ReadState(rows, ids, remaining, done, result)
    requires m in remaining && forall x :: x in remaining ==> m <= x
    requires m in rows && Decode(m, rows[m]) == Success(job)
    ensures ReadState(rows, ids, remaining - {m}, done + {m}, result + [job])
  {
    JobIdsAppend(result, job);
    AppendLeast(result, job, remaining);
    ReadFromAppend(result, job, rows);
    assert (remaining - {m}) + (done + {m}) == remaining + done;
  }

  /** Appending the least remaining id keeps the list ascending and below what remains. */
  lemma AppendLeast(jobs: seq<PersistedJobInfo>, job: PersistedJobInfo, remaining: set<int>)
    requires IdsAscending(jobs)
    requires job.id in remaining && forall x :: x in remaining ==> job.id <= x
    requires AllBelow(jobs, remaining)
    ensures IdsAscending(jobs + [job])
    ensures AllBelow(jobs + [job], remaining - {job.id})
  {
    var all := jobs + [job];
    forall i, j | 0 <= i < j < |all|
      ensures all[i].id < all[j].id
    {
      assert all[i] == jobs[i];
      if j < |jobs| {
        assert all[j] == jobs[j];
      }
    }
  }

  /** Every id in the list is below every id still to be read. */
  predicate AllBelow(jobs: seq<PersistedJobInfo>, remaining: set<int>) {
    forall i, x :: 0 <= i < |jobs| && x in remaining ==> jobs[i].id < x
  }

  /** Every runnable row decodes. */
  predicate AllRunnableDecode(rows: map<int, Row>) {
    forall id :: id in RunnableIds(rows) ==> Decode(id, rows[id]).Success?
  }

  /** Strictly ascending ids. */
  predicate IdsAscending(jobs: seq<PersistedJobInfo>) {
    forall i, j :: 0 <= i < j < |jobs| ==> jobs[i].id < jobs[j].id
  }

  /** Each job is its row read back. */
  predicate ReadFrom(jobs: seq<PersistedJobInfo>, rows: map<int, Row>) {
    forall i :: 0 <= i < |jobs| ==> jobs[i].id in rows && Decode(jobs[i].id, rows[jobs[i].id]) == Success(jobs[i])
  }

  /** A job read back from its row may be appended to jobs read back from theirs. */
  lemma ReadFromAppend(jobs: seq<PersistedJobInfo>, job: PersistedJobInfo, rows: map<int, Row>)
    requires ReadFrom(jobs, rows)
    requires job.id in rows && Decode(job.id, rows[job.id]) == Success(job)
    ensures ReadFrom(jobs + [job], rows)
  {
    assert forall i :: 0 <= i < |jobs| ==> (jobs + [job])[i] == jobs[i];
  }

  lemma ReadAllDecodes(jobs: seq<PersistedJobInfo>, rows: map<int, Row>, ids: set<int>)
    requires ids <= rows.Keys && ReadFrom(jobs, rows) && JobIds(jobs) == ids
    ensures forall id :: id in ids ==> Decode(id, rows[id]).Success?
  {
    forall id | id in ids
      ensures Decode(id, rows[id]).Success?
    {
      JobIdsMember(jobs, id);
      var i :| 0 <= i < |jobs| && jobs[i].id == id;
    }
  }

  /** Rows written by this store always decode, so reading the runnable jobs cannot fail. */
  lemma EncodedRowsDecode(rows: map<int, Row>)
    requires forall id :: id in rows ==> ParseOperation(rows[id].operation).Some? && ParseStatus(rows[id].status).Some?
    ensures forall id :: id in RunnableIds(rows) ==> Decode(id, rows[id]).Success?
  {
  }

  /**
   * The job create returns and the row it stores agree exactly when there is
   * a rename target or no rename path: without a target the row's
   * rename_to_path is NULL while the returned job keeps the path passed in.
   */
  lemma CreatedRowReadsBack(job: PersistedJobInfo, renameToObject: Option<ObjectSpec>)
    requires renameToObject.None? ==> job.renameToDb.None? && job.renameToTable.None? && job.renameToPartition.None?
    ensures Decode(job.id, CreatedRow(job, renameToObject)) == Success(job) <==>
      renameToObject.Some? || job.renameToPath.None?
  {
    DecodeEncode(job);
    if renameToObject.None? && job.renameToPath.Some? {
      assert Decode(job.id, CreatedRow(job, renameToObject)).value.renameToPath.None?;
    }
  }
}
