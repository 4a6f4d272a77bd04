/**
 * AuditLogEntry: one recorded catalog mutation. The entry is immutable: the
 * datatype's constructor takes its arguments in the Java constructor's order
 * (id, createTime, commandType, command, ...) and its destructors are the
 * getters.
 */
module AuditLog {
  import opened Wrappers
  import opened HiveObjects

  /** The HiveOperation command types the job factory distinguishes; every other one is OtherCommand. */
  datatype HiveOperation =
    | DropTable
    | DropView
    | AlterTableDropParts
    | TruncateTable
    | AlterTableRename
    | AlterViewRename
    | AlterTableRenamePart
    | AlterTableAddParts
    | CreateTable
    | Query
    | OtherCommand(name: string)

  /**
   * The audit log entry. commandType is None when the hook recorded no type
   * (the exchange-partition case); createTime is the timestamp in milliseconds.
   */
  datatype AuditLogEntry = AuditLogEntry(
    id: int,
    createTime: int,
    commandType: Option<HiveOperation>,
    command: string,
    outputDirectories: seq<string>,
    referenceTables: seq<Table>,
    outputTables: seq<Table>,
    outputPartitions: seq<NamedPartition>,
    renameFromTable: Option<Table>,
    renameFromPartition: Option<NamedPartition>)

  /** The spec strings toString prints for a list of tables, in list order. */
  function TableSpecStrings(tables: seq<Table>): (r: seq<string>)
    ensures |r| == |tables|
    ensures forall i :: 0 <= i < |tables| ==> r[i] == SpecToString(SpecOfTable(tables[i]))
  {
    if |tables| == 0 then []
    else [SpecToString(SpecOfTable(tables[0]))] + TableSpecStrings(tables[1..])
  }

  /** The spec strings toString prints for a list of named partitions, in list order. */
  function PartitionSpecStrings(partitions: seq<NamedPartition>): (r: seq<string>)
    ensures |r| == |partitions|
    ensures forall i :: 0 <= i < |partitions| ==> r[i] == SpecToString(SpecOfNamedPartition(partitions[i]))
  {
    if |partitions| == 0 then []
    else [SpecToString(SpecOfNamedPartition(partitions[0]))] + PartitionSpecStrings(partitions[1..])
  }

  /** The three object lists of toString: reference tables, output tables, output partitions. */
  datatype RenderedObjects = RenderedObjects(
    referenceTables: seq<string>,
    outputTables: seq<string>,
    outputPartitions: seq<string>)

  function RenderObjects(e: AuditLogEntry): (r: RenderedObjects)
    ensures |r.referenceTables| == |e.referenceTables|
    ensures |r.outputTables| == |e.outputTables|
    ensures |r.outputPartitions| == |e.outputPartitions|
    ensures forall i :: 0 <= i < |e.outputTables| ==>
      r.outputTables[i] == e.outputTables[i].db + "." + e.outputTables[i].name
    ensures forall i :: 0 <= i < |e.outputPartitions| ==>
      r.outputPartitions[i] == e.outputPartitions[i].partition.db + "." +
        e.outputPartitions[i].partition.table + "/" + e.outputPartitions[i].name
    ensures forall i :: 0 <= i < |e.referenceTables| ==>
      r.referenceTables[i] == e.referenceTables[i].db + "." + e.referenceTables[i].name
  {
    RenderedObjects(
      TableSpecStrings(e.referenceTables),
      TableSpecStrings(e.outputTables),
      PartitionSpecStrings(e.outputPartitions))
  }
}
