/**
 * ReplicationJobFactory: turns one audit log entry into the job records it
 * creates. The entry's command type is classified into the COPY, DROP or
 * RENAME family; the output tables and partitions are pruned by the
 * replication filter; and one record is created per job, each PENDING and
 * tagged with the entry's id and create time. The job store and the task
 * objects are not modelled: a job is the record handed to the store's
 * create call.
 */
module JobFactory {
  import opened Wrappers
  import opened JavaStrings
  import opened HiveObjects
  import opened AuditLog
  import opened ReplicationFilters
  import JobStore

  /** The extras keys PersistedJobInfo defines. */
  const AUDIT_LOG_ID_EXTRAS_KEY: string := "audit_log_id"
  const AUDIT_LOG_ENTRY_CREATE_TIME_KEY: string := "audit_log_entry_create_time"

  /** The arguments of one resilientCreate call: the persisted part of a replication job. */
  datatype JobRecord = JobRecord(
    operation: JobStore.ReplicationOperation,
    status: JobStore.ReplicationStatus,
    srcPath: Option<string>,
    srcClusterName: string,
    spec: ObjectSpec,
    partitionNames: Option<seq<string>>,
    srcTldt: Option<string>,
    renameToSpec: Option<ObjectSpec>,
    renameToPath: Option<string>,
    extras: map<string, string>)

  /** What the exchange-partition parser reads from a command; its body is not part of this model. */
  datatype ExchangeParse = ExchangeParse(exchangeToDb: string, exchangeToTable: string, partitionName: string,
                                         partitionValues: seq<string>)

  /** Collaborators whose bodies are not part of this model. */
  datatype Helpers = Helpers(
    parseExchange: string -> Option<ExchangeParse>,
    commonDirectoryOf: seq<Partition> -> Option<string>)

  datatype OperationType = Copy | Drop | Rename

  /** The switch on the command type; switching on a null command type throws. */
  function Classify(commandType: Option<HiveOperation>): (r: Result<OperationType, Exception>)
    ensures commandType.None? <==> r == Failure(NullPointerException)
  {
    match commandType
    case None => Failure(NullPointerException)
    case Some(DropTable) => Success(Drop)
    case Some(DropView) => Success(Drop)
    case Some(AlterTableDropParts) => Success(Drop)
    case Some(TruncateTable) => Success(Drop)
    case Some(AlterTableRename) => Success(Rename)
    case Some(AlterViewRename) => Success(Rename)
    case Some(AlterTableRenamePart) => Success(Rename)
    case Some(_) => Success(Copy)
  }

  /**
   * The four drop commands are DROP, the three rename commands are RENAME,
   * and every other command type is COPY.
   */
  lemma ClassifyFamilies(c: HiveOperation)
    ensures Classify(Some(c)) == Success(Drop) <==> c in {DropTable, DropView, AlterTableDropParts, TruncateTable}
    ensures Classify(Some(c)) == Success(Rename) <==> c in {AlterTableRename, AlterViewRename, AlterTableRenamePart}
    ensures Classify(Some(c)) == Success(Copy) <==>
      c !in {DropTable, DropView, AlterTableDropParts, TruncateTable, AlterTableRename, AlterViewRename, AlterTableRenamePart}
  {
  }

  /** The tags every job of the entry carries. */
  function Extras(entry: AuditLogEntry): (r: map<string, string>)
    ensures r.Keys == {AUDIT_LOG_ID_EXTRAS_KEY, AUDIT_LOG_ENTRY_CREATE_TIME_KEY}
    ensures ParseInt(r[AUDIT_LOG_ID_EXTRAS_KEY]) == Some(entry.id)
    ensures ParseInt(r[AUDIT_LOG_ENTRY_CREATE_TIME_KEY]) == Some(entry.createTime)
  {
    IntToStringRoundTrip(entry.id);
    IntToStringRoundTrip(entry.createTime);
    map[AUDIT_LOG_ID_EXTRAS_KEY := IntToString(entry.id),
        AUDIT_LOG_ENTRY_CREATE_TIME_KEY := IntToString(entry.createTime)]
  }

  /** createJobForCopyTable */
  function CopyTableRecord(entry: AuditLogEntry, srcCluster: Cluster, t: Table): (r: JobRecord)
    ensures r.operation == (if IsPartitioned(t) then JobStore.CopyPartitionedTable else JobStore.CopyUnpartitionedTable)
  {
    JobRecord(if IsPartitioned(t) then JobStore.CopyPartitionedTable else JobStore.CopyUnpartitionedTable,
      JobStore.Pending, t.location, srcCluster.name, SpecOfTable(t), None, GetTldt(t.parameters), None, None, Extras(entry))
  }

  /** createJobForCopyPartition(spec): the exchange-partition job, with no location or marker. */
  function CopyPartitionSpecRecord(entry: AuditLogEntry, srcCluster: Cluster, spec: ObjectSpec): JobRecord
    requires spec.IsPartition()
  {
    JobRecord(JobStore.CopyPartition, JobStore.Pending, None, srcCluster.name, spec, Some([spec.partition.value]),
      None, None, None, Extras(entry))
  }

  /** createJobForCopyPartition(namedPartition) */
  function CopyPartitionRecord(entry: AuditLogEntry, srcCluster: Cluster, np: NamedPartition): JobRecord {
    JobRecord(JobStore.CopyPartition, JobStore.Pending, np.partition.location, srcCluster.name, SpecOfNamedPartition(np),
      Some([np.name]), GetTldt(np.partition.parameters), None, None, Extras(entry))
  }

  /** createJobForCopyDynamicPartitions: one job for the table of the first partition, naming every partition. */
  function CopyPartitionsRecord(entry: AuditLogEntry, srcCluster: Cluster, helpers: Helpers, nps: seq<NamedPartition>): JobRecord
    requires |nps| > 0
  {
    var partitions := seq(|nps|, i requires 0 <= i < |nps| => nps[i].partition);
    JobRecord(JobStore.CopyPartitions, JobStore.Pending, helpers.commonDirectoryOf(partitions), srcCluster.name,
      TableSpecOf(nps[0].partition.db, nps[0].partition.table), Some(PartitionNames(nps)),
      None, None, None, Extras(entry))
  }

  /** The names of the named partitions, in order. */
  function PartitionNames(nps: seq<NamedPartition>): (r: seq<string>)
    ensures |r| == |nps| && forall i :: 0 <= i < |nps| ==> r[i] == nps[i].name
  {
    seq(|nps|, i requires 0 <= i < |nps| => nps[i].name)
  }

  /** createJobForDropTable */
  function DropTableRecord(entry: AuditLogEntry, srcCluster: Cluster, t: Table): JobRecord {
    JobRecord(JobStore.DropTable, JobStore.Pending, t.location, srcCluster.name, SpecOfTable(t), Some([]),
      GetTldt(t.parameters), None, None, Extras(entry))
  }

  /** createJobForDropPartition: the record holds the table's spec and the partition's name. */
  function DropPartitionRecord(entry: AuditLogEntry, srcCluster: Cluster, np: NamedPartition): JobRecord {
    JobRecord(JobStore.DropPartition, JobStore.Pending, np.partition.location, srcCluster.name,
      SpecOfNamedPartition(np).TableSpec(), Some([np.name]), GetTldt(np.partition.parameters), None, None, Extras(entry))
  }

  /** createJobForRenameTable */
  function RenameTableRecord(entry: AuditLogEntry, srcCluster: Cluster, from: Table, to: Table): JobRecord {
    JobRecord(JobStore.RenameTable, JobStore.Pending, from.location, srcCluster.name, SpecOfTable(from), Some([]),
      GetTldt(from.parameters), Some(SpecOfTable(to)), to.location, Extras(entry))
  }

  /** createJobForRenamePartition */
  function RenamePartitionRecord(entry: AuditLogEntry, srcCluster: Cluster, from: NamedPartition, to: NamedPartition): JobRecord {
    JobRecord(JobStore.RenamePartition, JobStore.Pending, from.partition.location, srcCluster.name,
      SpecOfNamedPartition(from), Some([]), GetTldt(from.partition.parameters), Some(SpecOfNamedPartition(to)),
      to.partition.location, Extras(entry))
  }

  /** The map createTableLookupMap builds: each table under its spec, a later table replacing an earlier one. */
  function TableLookup(tables: seq<Table>): (r: map<ObjectSpec, Table>)
    ensures forall i :: 0 <= i < |tables| ==> SpecOfTable(tables[i]) in r
    ensures forall k :: k in r ==> SpecOfTable(r[k]) == k && r[k] in tables
  {
    if |tables| == 0 then map[]
    else
      var t := tables[|tables| - 1];
      TableLookup(tables[..|tables| - 1])[SpecOfTable(t) := t]
  }

  /** The last table of a spec is the one the lookup map holds. */
  lemma {:induction false} TableLookupLastWins(tables: seq<Table>, i: nat)
    requires i < |tables|
    requires forall j :: i < j < |tables| ==> SpecOfTable(tables[j]) != SpecOfTable(tables[i])
    ensures TableLookup(tables)[SpecOfTable(tables[i])] == tables[i]
  {
    if i < |tables| - 1 {
      TableLookupLastWins(tables[..|tables| - 1], i);
    }
  }

  /** createTableLookupMap: the loop putting each table under its spec. */
  method CreateTableLookupMap(tables: seq<Table>) returns (specToTable: map<ObjectSpec, Table>)
    ensures specToTable == TableLookup(tables)
  {
    specToTable := map[];
    var i := 0;
    while i < |tables|
      invariant 0 <= i <= |tables|
      invariant specToTable == TableLookup(tables[..i])
    {
      assert tables[..i + 1][..i] == tables[..i];
      specToTable := specToTable[SpecOfTable(tables[i]) := tables[i]];
      i := i + 1;
    }
    assert tables[..i] == tables;
  }

  /** The table a partition belongs to, as the lookup map answers it (null when absent). */
  function TableOf(lookup: map<ObjectSpec, Table>, p: Partition): Option<Table> {
    var spec := TableSpecOf(p.db, p.table);
    if spec in lookup then Some(lookup[spec]) else None
  }

  /** The tables accepted by the filter, in their order. */
  function AcceptedTables(f: ReplicationFilter, tables: seq<Table>): (r: seq<Table>)
    ensures |r| <= |tables|
    ensures forall t :: t in r <==> t in tables && AcceptTable(f, t)
  {
    if |tables| == 0 then []
    else
      var rest := AcceptedTables(f, tables[..|tables| - 1]);
      var t := tables[|tables| - 1];
      assert tables == tables[..|tables| - 1] + [t];
      if AcceptTable(f, t) then rest + [t] else rest
  }

  /** The partitions accepted by the filter, judged with their table; the first failing judgement is thrown. */
  function AcceptedPartitions(f: ReplicationFilter, partitions: seq<NamedPartition>, lookup: map<ObjectSpec, Table>)
    : (r: Result<seq<NamedPartition>, Exception>)
    ensures r.Success? ==> |r.value| <= |partitions|
    ensures r.Success? ==> forall np :: np in r.value <==>
      np in partitions && AcceptPartition(f, TableOf(lookup, np.partition), np.partition) == Success(true)
  {
    if |partitions| == 0 then Success([])
    else
      var rest :- AcceptedPartitions(f, partitions[..|partitions| - 1], lookup);
      var np := partitions[|partitions| - 1];
      assert partitions == partitions[..|partitions| - 1] + [np];
      var accept :- AcceptPartition(f, TableOf(lookup, np.partition), np.partition);
      if accept then Success(rest + [np]) else Success(rest)
  }

  /** A judgement that fails anywhere fails the whole pruning. */
  lemma {:induction false} AcceptedPartitionsFailure(f: ReplicationFilter, partitions: seq<NamedPartition>,
                                                     lookup: map<ObjectSpec, Table>, i: nat)
    requires i < |partitions|
    requires AcceptPartition(f, TableOf(lookup, partitions[i].partition), partitions[i].partition).Failure?
    ensures AcceptedPartitions(f, partitions, lookup).Failure?
  {
    if i < |partitions| - 1 {
      AcceptedPartitionsFailure(f, partitions[..|partitions| - 1], lookup, i);
    }
  }

  /**
   * filterObjects: removes, in place and in order, the partitions the filter
   * rejects (each judged together with its table from the lookup map) and
   * then the tables it rejects.
   */
  method FilterObjects(f: ReplicationFilter, tables: seq<Table>, partitions: seq<NamedPartition>,
                       tableLookupMap: map<ObjectSpec, Table>)
    returns (r: Result<(seq<Table>, seq<NamedPartition>), Exception>)
    ensures AcceptedPartitions(f, partitions, tableLookupMap).Failure? ==>
      r == Failure(AcceptedPartitions(f, partitions, tableLookupMap).error)
    ensures AcceptedPartitions(f, partitions, tableLookupMap).Success? ==>
      r == Success((AcceptedTables(f, tables), AcceptedPartitions(f, partitions, tableLookupMap).value))
  {
    var kept :- FilterPartitions(f, partitions, tableLookupMap);
    var keptTables := FilterTables(f, tables);
    return Success((keptTables, kept));
  }

  /** The partition pass of filterObjects: drop each partition the filter rejects, stopping at the first failure. */
  method FilterPartitions(f: ReplicationFilter, partitions: seq<NamedPartition>, tableLookupMap: map<ObjectSpec, Table>)
    returns (r: Result<seq<NamedPartition>, Exception>)
    ensures r == AcceptedPartitions(f, partitions, tableLookupMap)
  {
    var kept: seq<NamedPartition> := [];
    var i := 0;
    while i < |partitions|
      invariant 0 <= i <= |partitions|
      invariant AcceptedPartitions(f, partitions[..i], tableLookupMap) == Success(kept)
    {
      var np := partitions[i];
      var accept := AcceptPartition(f, TableOf(tableLookupMap, np.partition), np.partition);
      if accept.Failure? {
        // The first failing judgement is the one the whole pruning reports.
        AcceptedPartitionsFirstFailure(f, partitions, tableLookupMap, i, kept);
        return Failure(accept.error);
      }
      assert partitions[..i + 1][..i] == partitions[..i];
      assert partitions[..i + 1][i] == np;
      if accept.value {
        kept := kept + [np];
      }
      i := i + 1;
    }
    assert partitions[..i] == partitions;
    return Success(kept);
  }

  /** The table pass of filterObjects: drop each table the filter rejects. */
  method FilterTables(f: ReplicationFilter, tables: seq<Table>) returns (keptTables: seq<Table>)
    ensures keptTables == AcceptedTables(f, tables)
  {
    keptTables := [];
    var j := 0;
    while j < |tables|
      invariant 0 <= j <= |tables|
      invariant keptTables == AcceptedTables(f, tables[..j])
    {
      assert tables[..j + 1][..j] == tables[..j];
      if AcceptTable(f, tables[j]) {
        keptTables := keptTables + [tables[j]];
      }
      j := j + 1;
    }
    assert tables[..j] == tables;
  }

  /** After an accepted prefix, the first failing judgement is the pruning's error. */
  lemma {:induction false} AcceptedPartitionsFirstFailure(f: ReplicationFilter, partitions: seq<NamedPartition>,
                                                          lookup: map<ObjectSpec, Table>, i: nat, kept: seq<NamedPartition>)
    requires i < |partitions|
    requires AcceptedPartitions(f, partitions[..i], lookup) == Success(kept)
    requires AcceptPartition(f, TableOf(lookup, partitions[i].partition), partitions[i].partition).Failure?
    ensures AcceptedPartitions(f, partitions, lookup) ==
      Failure(AcceptPartition(f, TableOf(lookup, partitions[i].partition), partitions[i].partition).error)
    decreases |partitions|
  {
    if i == |partitions| - 1 {
      assert partitions[..|partitions| - 1] == partitions[..i];
    } else {
      assert partitions[..|partitions| - 1][..i] == partitions[..i];
      AcceptedPartitionsFirstFailure(f, partitions[..|partitions| - 1], lookup, i, kept);
    }
  }

  /** ReplicationUtils.fromSameTable: a non-empty list of partitions of one (db, table). */
  predicate FromSameTable(partitions: seq<NamedPartition>) {
    && |partitions| > 0
    && forall i :: 0 <= i < |partitions| ==>
         partitions[i].partition.db == partitions[0].partition.db && partitions[i].partition.table == partitions[0].partition.table
  }

  function CopyTableRecords(entry: AuditLogEntry, srcCluster: Cluster, tables: seq<Table>): (r: seq<JobRecord>)
    ensures |r| == |tables| && forall i :: 0 <= i < |tables| ==> r[i] == CopyTableRecord(entry, srcCluster, tables[i])
  {
    seq(|tables|, i requires 0 <= i < |tables| => CopyTableRecord(entry, srcCluster, tables[i]))
  }

  function CopyPartitionRecords(entry: AuditLogEntry, srcCluster: Cluster, nps: seq<NamedPartition>): (r: seq<JobRecord>)
    ensures |r| == |nps| && forall i :: 0 <= i < |nps| ==> r[i] == CopyPartitionRecord(entry, srcCluster, nps[i])
  {
    seq(|nps|, i requires 0 <= i < |nps| => CopyPartitionRecord(entry, srcCluster, nps[i]))
  }

  function DropTableRecords(entry: AuditLogEntry, srcCluster: Cluster, tables: seq<Table>): (r: seq<JobRecord>)
    ensures |r| == |tables| && forall i :: 0 <= i < |tables| ==> r[i] == DropTableRecord(entry, srcCluster, tables[i])
  {
    seq(|tables|, i requires 0 <= i < |tables| => DropTableRecord(entry, srcCluster, tables[i]))
  }

  function DropPartitionRecords(entry: AuditLogEntry, srcCluster: Cluster, nps: seq<NamedPartition>): (r: seq<JobRecord>)
    ensures |r| == |nps| && forall i :: 0 <= i < |nps| ==> r[i] == DropPartitionRecord(entry, srcCluster, nps[i])
  {
    seq(|nps|, i requires 0 <= i < |nps| => DropPartitionRecord(entry, srcCluster, nps[i]))
  }

  /** The COPY family: table jobs (unless adding partitions), then one batch job or one job per partition. */
  function CopyJobs(entry: AuditLogEntry, srcCluster: Cluster, helpers: Helpers, tables: seq<Table>,
                    partitions: seq<NamedPartition>): seq<JobRecord>
  {
    CopyTableJobs(entry, srcCluster, tables) + CopyPartitionJobs(entry, srcCluster, helpers, partitions)
  }

  /** The table jobs of the COPY family: none when the command only adds partitions. */
  function CopyTableJobs(entry: AuditLogEntry, srcCluster: Cluster, tables: seq<Table>): seq<JobRecord> {
    if entry.commandType != Some(AlterTableAddParts) then CopyTableRecords(entry, srcCluster, tables) else []
  }

  /** Whether the COPY family copies the partitions with one batch job. */
  predicate CopiesAsBatch(entry: AuditLogEntry, partitions: seq<NamedPartition>) {
    |entry.outputPartitions| > 1 && FromSameTable(partitions)
  }

  /** The partition jobs of the COPY family. */
  function CopyPartitionJobs(entry: AuditLogEntry, srcCluster: Cluster, helpers: Helpers,
                             partitions: seq<NamedPartition>): seq<JobRecord>
  {
    if CopiesAsBatch(entry, partitions)
    then [CopyPartitionsRecord(entry, srcCluster, helpers, entry.outputPartitions)]
    else CopyPartitionRecords(entry, srcCluster, partitions)
  }

  /** The RENAME family: nothing if everything was filtered out, else a table or partition rename. */
  function RenameJobs(entry: AuditLogEntry, srcCluster: Cluster, tables: seq<Table>, partitions: seq<NamedPartition>)
    : Result<seq<JobRecord>, Exception>
  {
    if |tables| == 0 && |partitions| == 0 then Success([])
    else if entry.renameFromTable.Some? then
      if |entry.outputTables| == 0 then Failure(IndexOutOfBoundsException)
      else Success([RenameTableRecord(entry, srcCluster, entry.renameFromTable.value, entry.outputTables[0])])
    else if entry.renameFromPartition.Some? then
      if |entry.outputPartitions| == 0 then Failure(IndexOutOfBoundsException)
      else Success([RenamePartitionRecord(entry, srcCluster, entry.renameFromPartition.value, entry.outputPartitions[0])])
    else Failure(RuntimeException("Shouldn't happen!"))
  }

  /** The exchange-partition workaround applies: no output tables and no command type. */
  predicate MaybeExchange(entry: AuditLogEntry) {
    |entry.outputTables| == 0 && entry.commandType.None?
  }

  /** The exchanged-to partition's spec, table and partition as the factory builds them. */
  function ExchangeToSpec(x: ExchangeParse): ObjectSpec {
    PartitionSpecOf(x.exchangeToDb, x.exchangeToTable, x.partitionName)
  }

  function ExchangeToTable(x: ExchangeParse): Table {
    Table(x.exchangeToDb, x.exchangeToTable, [], None, map[])
  }

  function ExchangeToPartition(x: ExchangeParse): Partition {
    Partition(x.exchangeToDb, x.exchangeToTable, x.partitionValues, None, map[])
  }

  /** The jobs of an entry past the entry filter and the exchange workaround. */
  function ClassifiedJobs(entry: AuditLogEntry, f: ReplicationFilter, srcCluster: Cluster, helpers: Helpers)
    : Result<seq<JobRecord>, Exception>
  {
    if |entry.outputTables| == 0 && |entry.outputPartitions| == 0 then Success([])
    else
      var operationType :- Classify(entry.commandType);
      var partitions :- AcceptedPartitions(f, entry.outputPartitions, TableLookup(entry.referenceTables));
      FamilyJobs(entry, srcCluster, helpers, operationType, AcceptedTables(f, entry.outputTables), partitions)
  }

  /** The jobs of one family, given the output objects the filter kept. */
  function FamilyJobs(entry: AuditLogEntry, srcCluster: Cluster, helpers: Helpers, operationType: OperationType,
                      tables: seq<Table>, partitions: seq<NamedPartition>): Result<seq<JobRecord>, Exception>
  {
    match operationType
    case Copy => Success(CopyJobs(entry, srcCluster, helpers, tables, partitions))
    case Drop => Success(DropTableRecords(entry, srcCluster, tables) + DropPartitionRecords(entry, srcCluster, partitions))
    case Rename => RenameJobs(entry, srcCluster, tables, partitions)
  }

  /** The jobs createReplicationJobs creates for an entry, in order, or the exception it throws. */
  function ReplicationJobs(entry: AuditLogEntry, f: ReplicationFilter, srcCluster: Cluster, helpers: Helpers)
    : Result<seq<JobRecord>, Exception>
  {
    if !AcceptEntry(f, entry) then Success([])
    else if MaybeExchange(entry) && helpers.parseExchange(entry.command).Some? then
      var x := helpers.parseExchange(entry.command).value;
      var accept := AcceptPartition(f, Some(ExchangeToTable(x)), ExchangeToPartition(x)).value;
      if !accept then Success([]) else Success([CopyPartitionSpecRecord(entry, srcCluster, ExchangeToSpec(x))])
    else ClassifiedJobs(entry, f, srcCluster, helpers)
  }

  /** Appends one record per table, as the factory's table loops do. */
  method AddTableJobs(jobs: seq<JobRecord>, entry: AuditLogEntry, srcCluster: Cluster, tables: seq<Table>, drop: bool)
    returns (r: seq<JobRecord>)
    ensures !drop ==> r == jobs + CopyTableRecords(entry, srcCluster, tables)
    ensures drop ==> r == jobs + DropTableRecords(entry, srcCluster, tables)
  {
    r := jobs;
    var i := 0;
    while i < |tables|
      invariant 0 <= i <= |tables|
      invariant |r| == |jobs| + i && r[..|jobs|] == jobs
      invariant forall j :: 0 <= j < i ==>
        r[|jobs| + j] == (if drop then DropTableRecord(entry, srcCluster, tables[j]) else CopyTableRecord(entry, srcCluster, tables[j]))
    {
      var job := if drop then DropTableRecord(entry, srcCluster, tables[i]) else CopyTableRecord(entry, srcCluster, tables[i]);
      ghost var prev := r;
      r := r + [job];
      assert forall j :: 0 <= j < |prev| ==> r[j] == prev[j];
      assert r[|jobs| + i] == job;
      i := i + 1;
    }
  }

  /** Appends one record per partition, as the factory's partition loops do. */
  method AddPartitionJobs(jobs: seq<JobRecord>, entry: AuditLogEntry, srcCluster: Cluster, nps: seq<NamedPartition>, drop: bool)
    returns (r: seq<JobRecord>)
    ensures !drop ==> r == jobs + CopyPartitionRecords(entry, srcCluster, nps)
    ensures drop ==> r == jobs + DropPartitionRecords(entry, srcCluster, nps)
  {
    r := jobs;
    var i := 0;
    while i < |nps|
      invariant 0 <= i <= |nps|
      invariant |r| == |jobs| + i && r[..|jobs|] == jobs
      invariant forall j :: 0 <= j < i ==>
        r[|jobs| + j] == (if drop then DropPartitionRecord(entry, srcCluster, nps[j]) else CopyPartitionRecord(entry, srcCluster, nps[j]))
    {
      var job := if drop then DropPartitionRecord(entry, srcCluster, nps[i]) else CopyPartitionRecord(entry, srcCluster, nps[i]);
      ghost var prev := r;
      r := r + [job];
      assert forall j :: 0 <= j < |prev| ==> r[j] == prev[j];
      assert r[|jobs| + i] == job;
      i := i + 1;
    }
  }

  /** The COPY family's part of createReplicationJobs, appended to jobs. */
  method AddCopyJobs(jobs: seq<JobRecord>, entry: AuditLogEntry, srcCluster: Cluster, helpers: Helpers,
                     outputTables: seq<Table>, outputPartitions: seq<NamedPartition>)
    returns (r: seq<JobRecord>)
    ensures r == jobs + CopyJobs(entry, srcCluster, helpers, outputTables, outputPartitions)
  {
    r := AddCopyTableJobs(jobs, entry, srcCluster, outputTables);
    r := AddCopyPartitionJobs(r, entry, srcCluster, helpers, outputPartitions);
  }

  /** The table loop of the COPY family, skipped when the command only adds partitions. */
  method AddCopyTableJobs(jobs: seq<JobRecord>, entry: AuditLogEntry, srcCluster: Cluster, outputTables: seq<Table>)
    returns (r: seq<JobRecord>)
    ensures r == jobs + CopyTableJobs(entry, srcCluster, outputTables)
  {
    r := jobs;
    if entry.commandType != Some(AlterTableAddParts) {
      r := AddTableJobs(r, entry, srcCluster, outputTables, false);
    }
  }

  /** The partition part of the COPY family: one batch job, or one job per partition. */
  method AddCopyPartitionJobs(jobs: seq<JobRecord>, entry: AuditLogEntry, srcCluster: Cluster, helpers: Helpers,
                              outputPartitions: seq<NamedPartition>)
    returns (r: seq<JobRecord>)
    ensures r == jobs + CopyPartitionJobs(entry, srcCluster, helpers, outputPartitions)
  {
    if CopiesAsBatch(entry, outputPartitions) {
      r := jobs + [CopyPartitionsRecord(entry, srcCluster, helpers, entry.outputPartitions)];
    } else {
      r := AddPartitionJobs(jobs, entry, srcCluster, outputPartitions, false);
    }
  }

  /** createReplicationJobs past the entry filter and the exchange workaround. */
  method CreateClassifiedJobs(entry: AuditLogEntry, f: ReplicationFilter, srcCluster: Cluster, helpers: Helpers)
    returns (r: Result<seq<JobRecord>, Exception>)
    ensures r == ClassifiedJobs(entry, f, srcCluster, helpers)
  {
    var replicationJobs: seq<JobRecord> := [];
    if |entry.outputTables| == 0 && |entry.outputPartitions| == 0 {
      return Success(replicationJobs);
    }
    var operationType :- Classify(entry.commandType);
    var tableLookupMap := CreateTableLookupMap(entry.referenceTables);
    var filtered :- FilterObjects(f, entry.outputTables, entry.outputPartitions, tableLookupMap);
    var outputTables := filtered.0;
    var outputPartitions := filtered.1;
    assert outputTables == AcceptedTables(f, entry.outputTables);
    r := AddFamilyJobs(entry, srcCluster, helpers, operationType, outputTables, outputPartitions);
  }

  /** The switch on the operation type, appending the family's jobs. */
  method AddFamilyJobs(entry: AuditLogEntry, srcCluster: Cluster, helpers: Helpers,
                       operationType: OperationType, outputTables: seq<Table>, outputPartitions: seq<NamedPartition>)
    returns (r: Result<seq<JobRecord>, Exception>)
    ensures r == FamilyJobs(entry, srcCluster, helpers, operationType, outputTables, outputPartitions)
  {
    var replicationJobs: seq<JobRecord> := [];
    match operationType {
      case Copy =>
        replicationJobs := AddCopyJobs(replicationJobs, entry, srcCluster, helpers, outputTables, outputPartitions);
        assert replicationJobs == CopyJobs(entry, srcCluster, helpers, outputTables, outputPartitions);
      case Drop =>
        replicationJobs := AddTableJobs(replicationJobs, entry, srcCluster, outputTables, true);
        assert replicationJobs == DropTableRecords(entry, srcCluster, outputTables);
        replicationJobs := AddPartitionJobs(replicationJobs, entry, srcCluster, outputPartitions, true);
      case Rename =>
        if |outputTables| == 0 && |outputPartitions| == 0 {
        } else if entry.renameFromTable.Some? {
          if |entry.outputTables| == 0 {
            return Failure(IndexOutOfBoundsException);
          }
          replicationJobs := replicationJobs +
            [RenameTableRecord(entry, srcCluster, entry.renameFromTable.value, entry.outputTables[0])];
          assert replicationJobs == [RenameTableRecord(entry, srcCluster, entry.renameFromTable.value, entry.outputTables[0])];
        } else if entry.renameFromPartition.Some? {
          if |entry.outputPartitions| == 0 {
            return Failure(IndexOutOfBoundsException);
          }
          replicationJobs := replicationJobs +
            [RenamePartitionRecord(entry, srcCluster, entry.renameFromPartition.value, entry.outputPartitions[0])];
          assert replicationJobs ==
            [RenamePartitionRecord(entry, srcCluster, entry.renameFromPartition.value, entry.outputPartitions[0])];
        } else {
          return Failure(RuntimeException("Shouldn't happen!"));
        }
    }
    return Success(replicationJobs);
  }

  /** createReplicationJobs: the jobs of one audit log entry, created in order. */
  method CreateReplicationJobs(entry: AuditLogEntry, f: ReplicationFilter, srcCluster: Cluster, helpers: Helpers)
    returns (r: Result<seq<JobRecord>, Exception>)
    ensures r == ReplicationJobs(entry, f, srcCluster, helpers)
  {
    var replicationJobs: seq<JobRecord> := [];
    if !AcceptEntry(f, entry) {
      return Success(replicationJobs);
    }
    if |entry.outputTables| == 0 && entry.commandType.None? {
      var parsed := helpers.parseExchange(entry.command);
      if parsed.Some? {
        var x := parsed.value;
        var exchangeToSpec := ExchangeToSpec(x);
        var accept := AcceptPartition(f, Some(ExchangeToTable(x)), ExchangeToPartition(x)).value;
        if !accept {
          return Success(replicationJobs);
        } else {
          replicationJobs := replicationJobs + [CopyPartitionSpecRecord(entry, srcCluster, exchangeToSpec)];
          assert replicationJobs == [CopyPartitionSpecRecord(entry, srcCluster, exchangeToSpec)];
          return Success(replicationJobs);
        }
      }
    }
    r := CreateClassifiedJobs(entry, f, srcCluster, helpers);
  }

  // Properties of the jobs an entry yields.

  /** An entry the filter rejects, or one with no output objects and no exchange parse, yields no jobs. */
  lemma NoOutputsNoJobs(entry: AuditLogEntry, f: ReplicationFilter, srcCluster: Cluster, helpers: Helpers)
    ensures !AcceptEntry(f, entry) ==> ReplicationJobs(entry, f, srcCluster, helpers) == Success([])
    ensures |entry.outputTables| == 0 && |entry.outputPartitions| == 0 &&
            !(entry.commandType.None? && helpers.parseExchange(entry.command).Some?) ==>
      ReplicationJobs(entry, f, srcCluster, helpers) == Success([])
  {
  }

  /**
   * An exchange-partition entry yields exactly one COPY_PARTITION job for
   * the exchanged-to partition when the filter accepts it, and none when it
   * does not.
   */
  lemma ExchangePartitionJob(entry: AuditLogEntry, f: ReplicationFilter, srcCluster: Cluster, helpers: Helpers)
    requires MaybeExchange(entry) && helpers.parseExchange(entry.command).Some?
    ensures var x := helpers.parseExchange(entry.command).value;
      && (AcceptTable(f, ExchangeToTable(x)) ==>
            ReplicationJobs(entry, f, srcCluster, helpers) ==
              Success([CopyPartitionSpecRecord(entry, srcCluster, ExchangeToSpec(x))]))
      && (!AcceptTable(f, ExchangeToTable(x)) ==> ReplicationJobs(entry, f, srcCluster, helpers) == Success([]))
    ensures ReplicationJobs(entry, f, srcCluster, helpers).Success? &&
            |ReplicationJobs(entry, f, srcCluster, helpers).value| == 1 ==>
      var job := ReplicationJobs(entry, f, srcCluster, helpers).value[0];
      job.operation == JobStore.CopyPartition && job.spec == ExchangeToSpec(helpers.parseExchange(entry.command).value)
  {
  }

  /**
   * Every job the factory creates is PENDING, comes from the source
   * cluster, and carries the entry's id and create time in its extras.
   */
  lemma AllJobsPendingAndTagged(entry: AuditLogEntry, f: ReplicationFilter, srcCluster: Cluster, helpers: Helpers)
    ensures ReplicationJobs(entry, f, srcCluster, helpers).Success? ==>
      Tagged(ReplicationJobs(entry, f, srcCluster, helpers).value, entry, srcCluster)
  {
    if AcceptEntry(f, entry) && !(MaybeExchange(entry) && helpers.parseExchange(entry.command).Some?) {
      ClassifiedJobsTagged(entry, f, srcCluster, helpers);
    }
  }

  /** Every job is PENDING, from the source cluster, and tagged with the entry's extras. */
  predicate Tagged(jobs: seq<JobRecord>, entry: AuditLogEntry, srcCluster: Cluster) {
    forall job :: job in jobs ==>
      job.status == JobStore.Pending && job.srcClusterName == srcCluster.name && job.extras == Extras(entry)
  }

  lemma ClassifiedJobsTagged(entry: AuditLogEntry, f: ReplicationFilter, srcCluster: Cluster, helpers: Helpers)
    ensures ClassifiedJobs(entry, f, srcCluster, helpers).Success? ==>
      Tagged(ClassifiedJobs(entry, f, srcCluster, helpers).value, entry, srcCluster)
  {
    if |entry.outputTables| > 0 || |entry.outputPartitions| > 0 {
      var op := Classify(entry.commandType);
      var ps := AcceptedPartitions(f, entry.outputPartitions, TableLookup(entry.referenceTables));
      if op.Success? && ps.Success? {
        FamilyJobsTagged(entry, srcCluster, helpers, op.value, AcceptedTables(f, entry.outputTables), ps.value);
      }
    }
  }

  lemma FamilyJobsTagged(entry: AuditLogEntry, srcCluster: Cluster, helpers: Helpers, operationType: OperationType,
                         tables: seq<Table>, partitions: seq<NamedPartition>)
    ensures var r := FamilyJobs(entry, srcCluster, helpers, operationType, tables, partitions);
      r.Success? ==> Tagged(r.value, entry, srcCluster)
  {
    match operationType
    case Copy =>
      assert Tagged(CopyTableJobs(entry, srcCluster, tables), entry, srcCluster);
      assert Tagged(CopyPartitionJobs(entry, srcCluster, helpers, partitions), entry, srcCluster);
    case Drop =>
      assert Tagged(DropTableRecords(entry, srcCluster, tables), entry, srcCluster);
      assert Tagged(DropPartitionRecords(entry, srcCluster, partitions), entry, srcCluster);
    case Rename =>
  }

  /**
   * COPY, table jobs: none for ALTERTABLE_ADDPARTS; otherwise one per
   * accepted output table in order, COPY_PARTITIONED_TABLE exactly for the
   * partitioned ones.
   */
  lemma CopyTableJobsShape(entry: AuditLogEntry, srcCluster: Cluster, tables: seq<Table>)
    ensures entry.commandType == Some(AlterTableAddParts) ==> CopyTableJobs(entry, srcCluster, tables) == []
    ensures entry.commandType != Some(AlterTableAddParts) ==>
      var jobs := CopyTableJobs(entry, srcCluster, tables);
      |jobs| == |tables| &&
      forall i :: 0 <= i < |tables| ==>
        jobs[i].spec == SpecOfTable(tables[i]) &&
        (jobs[i].operation == JobStore.CopyPartitionedTable <==> IsPartitioned(tables[i])) &&
        (jobs[i].operation == JobStore.CopyUnpartitionedTable <==> !IsPartitioned(tables[i]))
  {
  }

  /**
   * COPY, batch: with more than one output partition and the accepted ones
   * all of one table, a single COPY_PARTITIONS job for the table of the
   * entry's first partition names every output partition of the entry,
   * filtered out or not.
   */
  lemma CopyBatchJobShape(entry: AuditLogEntry, srcCluster: Cluster, helpers: Helpers, partitions: seq<NamedPartition>)
    requires CopiesAsBatch(entry, partitions)
    ensures var jobs := CopyPartitionJobs(entry, srcCluster, helpers, partitions);
      |jobs| == 1 && jobs[0].operation == JobStore.CopyPartitions &&
      jobs[0].spec == TableSpecOf(entry.outputPartitions[0].partition.db, entry.outputPartitions[0].partition.table) &&
      jobs[0].partitionNames.Some? &&
      forall np :: np in entry.outputPartitions ==> np.name in jobs[0].partitionNames.value
  {
    var jobs := CopyPartitionJobs(entry, srcCluster, helpers, partitions);
    forall np | np in entry.outputPartitions
      ensures np.name in jobs[0].partitionNames.value
    {
      var i :| 0 <= i < |entry.outputPartitions| && entry.outputPartitions[i] == np;
      assert jobs[0].partitionNames.value[i] == np.name;
    }
  }

  /** COPY, otherwise: one COPY_PARTITION job per accepted partition, in order. */
  lemma CopyPartitionJobsShape(entry: AuditLogEntry, srcCluster: Cluster, helpers: Helpers, partitions: seq<NamedPartition>)
    requires !CopiesAsBatch(entry, partitions)
    ensures var jobs := CopyPartitionJobs(entry, srcCluster, helpers, partitions);
      |jobs| == |partitions| &&
      forall i :: 0 <= i < |partitions| ==>
        jobs[i].operation == JobStore.CopyPartition && jobs[i].spec == SpecOfNamedPartition(partitions[i]) &&
        jobs[i].partitionNames == Some([partitions[i].name])
  {
  }

  /**
   * DROP: every DROP_TABLE job comes before every DROP_PARTITION job; a
   * DROP_PARTITION job names the partition's table and holds the partition
   * name as its one-element list.
   */
  lemma DropTablesBeforePartitions(entry: AuditLogEntry, srcCluster: Cluster, tables: seq<Table>, partitions: seq<NamedPartition>)
    ensures var jobs := DropTableRecords(entry, srcCluster, tables) + DropPartitionRecords(entry, srcCluster, partitions);
      && |jobs| == |tables| + |partitions|
      && (forall i, j ::
            (0 <= i < |jobs| && 0 <= j < |jobs| &&
             jobs[i].operation == JobStore.DropPartition && jobs[j].operation == JobStore.DropTable) ==> j < i)
      && (forall i :: |tables| <= i < |jobs| ==>
            jobs[i].spec == TableSpecOf(partitions[i - |tables|].partition.db, partitions[i - |tables|].partition.table) &&
            jobs[i].partitionNames == Some([partitions[i - |tables|].name]))
  {
    var jobs := DropTableRecords(entry, srcCluster, tables) + DropPartitionRecords(entry, srcCluster, partitions);
    forall i | 0 <= i < |jobs|
      ensures (jobs[i].operation == JobStore.DropTable <==> i < |tables|)
      ensures (jobs[i].operation == JobStore.DropPartition <==> i >= |tables|)
    {
      if i < |tables| {
        assert jobs[i] == DropTableRecord(entry, srcCluster, tables[i]);
      } else {
        assert jobs[i] == DropPartitionRecord(entry, srcCluster, partitions[i - |tables|]);
      }
    }
  }

  /**
   * RENAME: no job when the filter removed every output object; otherwise a
   * table rename when the entry records the renamed-from table, else a
   * partition rename when it records the renamed-from partition, else an
   * error.
   */
  lemma RenameJobsCases(entry: AuditLogEntry, srcCluster: Cluster, tables: seq<Table>, partitions: seq<NamedPartition>)
    ensures |tables| == 0 && |partitions| == 0 ==> RenameJobs(entry, srcCluster, tables, partitions) == Success([])
    ensures (|tables| > 0 || |partitions| > 0) && entry.renameFromTable.Some? && |entry.outputTables| > 0 ==>
      RenameJobs(entry, srcCluster, tables, partitions) ==
        Success([RenameTableRecord(entry, srcCluster, entry.renameFromTable.value, entry.outputTables[0])])
    ensures (|tables| > 0 || |partitions| > 0) && entry.renameFromTable.None? && entry.renameFromPartition.Some? &&
            |entry.outputPartitions| > 0 ==>
      RenameJobs(entry, srcCluster, tables, partitions) ==
        Success([RenamePartitionRecord(entry, srcCluster, entry.renameFromPartition.value, entry.outputPartitions[0])])
    ensures (|tables| > 0 || |partitions| > 0) && entry.renameFromTable.None? && entry.renameFromPartition.None? ==>
      RenameJobs(entry, srcCluster, tables, partitions).Failure?
  {
  }
}
