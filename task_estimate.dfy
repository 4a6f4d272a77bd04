/**
 * TaskEstimate: the immutable result of comparing source and destination
 * state: which kind of task is needed, whether metadata and data must be
 * updated, and the source and destination paths.
 */
module TaskEstimates {
  import opened Wrappers
  import opened JavaStrings

  datatype TaskType =
    | CopyUnpartitionedTable
    | CopyPartitionedTable
    | CopyPartition
    | DropTable
    | DropPartition
    | CheckPartition
    | NoOp

  /** The enum constants in declaration order (TaskType.values()). */
  function AllTaskTypes(): (r: seq<TaskType>)
    ensures |r| == 7
    ensures forall i, j :: 0 <= i < j < |r| ==> r[i] != r[j]
    ensures r[5] == CheckPartition && r[6] == NoOp
  {
    [CopyUnpartitionedTable, CopyPartitionedTable, CopyPartition, DropTable, DropPartition, CheckPartition, NoOp]
  }

  /** values() lists every constant: there are exactly seven task types. */
  lemma AllTaskTypesComplete(t: TaskType)
    ensures t in AllTaskTypes()
  {
    var all := AllTaskTypes();
    match t
    case CopyUnpartitionedTable => assert all[0] == t;
    case CopyPartitionedTable => assert all[1] == t;
    case CopyPartition => assert all[2] == t;
    case DropTable => assert all[3] == t;
    case DropPartition => assert all[4] == t;
    case CheckPartition => assert all[5] == t;
    case NoOp => assert all[6] == t;
  }

  /** name(): the Java constant's name. */
  function TaskTypeName(t: TaskType): string {
    match t
    case CopyUnpartitionedTable => "COPY_UNPARTITIONED_TABLE"
    case CopyPartitionedTable => "COPY_PARTITIONED_TABLE"
    case CopyPartition => "COPY_PARTITION"
    case DropTable => "DROP_TABLE"
    case DropPartition => "DROP_PARTITION"
    case CheckPartition => "CHECK_PARTITION"
    case NoOp => "NO_OP"
  }

  /** TaskType.valueOf(name), None where Java throws IllegalArgumentException. */
  function ParseTaskType(name: string): Option<TaskType> {
    if name == "COPY_UNPARTITIONED_TABLE" then Some(CopyUnpartitionedTable)
    else if name == "COPY_PARTITIONED_TABLE" then Some(CopyPartitionedTable)
    else if name == "COPY_PARTITION" then Some(CopyPartition)
    else if name == "DROP_TABLE" then Some(DropTable)
    else if name == "DROP_PARTITION" then Some(DropPartition)
    else if name == "CHECK_PARTITION" then Some(CheckPartition)
    else if name == "NO_OP" then Some(NoOp)
    else None
  }

  /** valueOf(name()) is the identity, so names are distinct. */
  lemma TaskTypeNameRoundTrip(t: TaskType)
    ensures ParseTaskType(TaskTypeName(t)) == Some(t)
  {
  }

  /** The estimate; its fields are set by the constructor and never change. */
  datatype TaskEstimate = TaskEstimate(
    taskType: TaskType,
    updateMetadata: bool,
    updateData: bool,
    srcPath: Option<string>,
    destPath: Option<string>)

  /** String.valueOf(boolean) */
  function BoolToString(b: bool): string {
    if b then "true" else "false"
  }

  /** Optional.toString() */
  function OptionalToString(o: Option<string>): string {
    match o
    case None => "Optional.empty"
    case Some(v) => "Optional[" + v + "]"
  }

  function ParseBool(s: string): Option<bool> {
    if s == "true" then Some(true) else if s == "false" then Some(false) else None
  }

  function ParseOptional(s: string): Option<Option<string>> {
    if s == "Optional.empty" then Some(None)
    else if |s| >= 10 && StartsWith(s, "Optional[") && s[|s| - 1] == ']' then Some(Some(s[9..|s| - 1]))
    else None
  }

  /** The name=value pairs toString prints, in order. */
  function ToStringFields(e: TaskEstimate): (r: seq<(string, string)>)
    ensures |r| == 5
    ensures r[0].0 == "taskType" && r[1].0 == "updateMetadata" && r[2].0 == "updateData"
    ensures r[3].0 == "srcPath" && r[4].0 == "destPath"
  {
    [("taskType", TaskTypeName(e.taskType)),
     ("updateMetadata", BoolToString(e.updateMetadata)),
     ("updateData", BoolToString(e.updateData)),
     ("srcPath", OptionalToString(e.srcPath)),
     ("destPath", OptionalToString(e.destPath))]
  }

  /** Reads an estimate back from the printed name=value pairs. */
  function ParseFields(fields: seq<(string, string)>): Option<TaskEstimate> {
    if |fields| != 5 then None
    else if fields[0].0 != "taskType" || fields[1].0 != "updateMetadata" || fields[2].0 != "updateData"
         || fields[3].0 != "srcPath" || fields[4].0 != "destPath" then None
    else
      match (ParseTaskType(fields[0].1), ParseBool(fields[1].1), ParseBool(fields[2].1),
             ParseOptional(fields[3].1), ParseOptional(fields[4].1))
      case (Some(t), Some(m), Some(d), Some(s), Some(p)) => Some(TaskEstimate(t, m, d, s, p))
      case _ => None
  }

  /** Every field of the estimate can be read back from what toString prints for it. */
  lemma ToStringFieldsRoundTrip(e: TaskEstimate)
    ensures ParseFields(ToStringFields(e)) == Some(e)
  {
    TaskTypeNameRoundTrip(e.taskType);
    OptionalRoundTrip(e.srcPath);
    OptionalRoundTrip(e.destPath);
  }

  lemma OptionalRoundTrip(o: Option<string>)
    ensures ParseOptional(OptionalToString(o)) == Some(o)
  {
    if o.Some? {
      var s := OptionalToString(o);
      assert s == "Optional[" + o.value + "]";
      assert s[..9] == "Optional[";
      assert s[9..|s| - 1] == o.value;
      assert s != "Optional.empty" by {
        assert s[8] == '[';
      }
    }
  }

  /** Objects.toStringHelper(this) output: "TaskEstimate{taskType=..., ..., destPath=...}". */
  function ToString(e: TaskEstimate): string {
    var f := ToStringFields(e);
    "TaskEstimate{" + Join(", ", [f[0].0 + "=" + f[0].1, f[1].0 + "=" + f[1].1,
      f[2].0 + "=" + f[2].1, f[3].0 + "=" + f[3].1, f[4].0 + "=" + f[4].1]) + "}"
  }
}
