# reair replication core, modelled in Dafny

This project models the part of reair, Airbnb's Hive replication tool, that decides **what replication work to do**. Catalog and filesystem answers are taken as inputs. There is one Dafny module per source class, plus a few shared helper modules.

- `AuditLog` (audit_log.dfy): the immutable audit-log entry written by the Hive hook, and the object-spec strings its `toString` shows.
- `TaskEstimates` (task_estimate.dfy): the seven task types and the immutable task estimate, with its `toString` field order.
- `ReplicationFilters` (replication_filters.dfy): the pass-through filter and the two deployment filters (gold-to-silver and its test variant). They are prefix and substring tests on database and table names.
- `DestinationObjects` (destination_object_factory.dfy):
  - `modifyLocation` re-roots a location from the source cluster's file-system root to the destination's, and leaves s3n/s3a locations alone. Locations are parsed into scheme, authority and path as Hadoop's `Path` does, with a proved round trip.
  - The destination table or partition is built with the source-cluster tag and merged parameters.
  - `shouldCopyData`.
- `CopyPartitions` (copy_partitions_task.dfy): planning of a batch partition copy.
  - The sanity checks of `findCommonDirectory`.
  - The optimistic-copy heuristic: copy the common directory when it is at most twice the summed partition size.
  - The staging directory and the structure-preserving destination path.
  - One sub-job per partition present on the source.
  - The lock set.
- `JobStore` (persisted_job_info_store.dfy): the job table as a class holding a map from id to row.
  - `create` allocates a fresh id and truncates the create time to a whole second.
  - `persistHelper` is an upsert.
  - `abortRunnableFromDb` is a bulk status sweep.
  - `getRunnableFromDb` reads the rows that are not completed, in ascending id order.
  - Rows decode with the code's null defaults.
- `MockMetastore` (mock_metastore_client.dfy): the in-memory catalog used by the tests. It is a class with three maps (databases, tables, partitions) and the exact error conditions of each operation, plus the partition-name codec `k1=v1/k2=v2`.
- `JobFactory` (replication_job_factory.dfy): conversion of an audit-log entry into job records.
  - The entry filter and the exchange-partition workaround.
  - The empty-output check and the command-type classification into COPY, DROP or RENAME.
  - In-place filtering of output tables and partitions, with the table looked up among the reference tables.
  - The record each `createJobFor*` stores: operation, spec, partition names, PENDING status and audit-log extras.
  - The batch versus per-partition copy decision.
  - Drop jobs ordered with tables first.
  - The rename case analysis.
- `FolderCompare` (hdfs_replication_job.dfy): the file-level diff of the batch HDFS copy.
  - Hidden-file filtering and host/path splitting.
  - The tab-separated record value.
  - The choice of the newest source status.
  - The reducer's add/delete/update decision per relative path, gated by the a/d/u options.
- `DirectoryCopy` (stage2_directory_copy_mapper.dfy): the stage-2 mapper.
  - The dispatch on the task estimate.
  - Cleaning and recreating the destination directory on a small file-system class.
  - One copy record per visible entry directly under the source, with a vanished source tolerated.

Shared modules:

- `Wrappers`: Option and Result.
- `Sets`: picking the least element of a set.
- `JavaStrings`: Java `split` (trailing empty strings dropped), join, `startsWith`, `indexOf`, `Long.toString`/`parseLong`.
- `HiveObjects`: object specs, tables, partitions, clusters and the exception kinds raised.

Operations that update state in the source are methods. The job store, the mock catalog and the stage-2 file system are classes whose fields the methods change. The loops of `filterObjects`, `createReplicationJobs`, `runTask`, `getRequiredLocks`, `reduce`, `partitionNameToMap` and `updateDirectory` are `while` loops with invariants. Each is proved against a specification function whose properties are stated as lemmas.

## Model

| member | source | states |
|---|---|---|
| AuditLog.TableSpecStrings | main/src/main/java/com/airbnb/di/hive/replication/auditlog/AuditLogEntry.java:85-88 | one "db.table" spec string per table, in list order |
| AuditLog.PartitionSpecStrings | main/src/main/java/com/airbnb/di/hive/replication/auditlog/AuditLogEntry.java:89-92 | one "db.table/name" spec string per named partition, in list order |
| AuditLog.RenderObjects | main/src/main/java/com/airbnb/di/hive/replication/auditlog/AuditLogEntry.java:83-103 | the rendering of an entry lists exactly its reference tables, output tables and output partitions as object-spec strings, position by position |
| TaskEstimates.AllTaskTypes | main/src/main/java/com/airbnb/di/hive/replication/primitives/TaskEstimate.java:13-21 | the task-type enum has exactly seven distinct constants, CHECK_PARTITION and NO_OP among them |
| TaskEstimates.AllTaskTypesComplete | main/src/main/java/com/airbnb/di/hive/replication/primitives/TaskEstimate.java:13-21 | every task type is one of the seven listed constants |
| TaskEstimates.TaskTypeNameRoundTrip | main/src/main/java/com/airbnb/di/hive/replication/primitives/TaskEstimate.java:13-21 | each task type's constant name reads back as that same type |
| TaskEstimates.ToStringFields | main/src/main/java/com/airbnb/di/hive/replication/primitives/TaskEstimate.java:61-69 | toString lists taskType, updateMetadata, updateData, srcPath, destPath in that order |
| TaskEstimates.ToStringFieldsRoundTrip | main/src/main/java/com/airbnb/di/hive/replication/primitives/TaskEstimate.java:61-69 | the rendered fields determine the estimate: parsing them gives back every constructor argument unchanged |
| TaskEstimates.OptionalRoundTrip | main/src/main/java/com/airbnb/di/hive/replication/primitives/TaskEstimate.java:66-67 | an optional path renders so that present and absent values read back unchanged |
| ReplicationFilters.AcceptTable | main/src/main/java/com/airbnb/di/hive/replication/deploy/GoldToSilverReplicationFilter.java:24-39 | pass-through accepts every table; gold-to-silver rejects exactly db "tmp*", name "staging*" or "tmp*"; the test filter rejects exactly name "staging*", db "tmp*" or names containing "_schema_upgrade" |
| ReplicationFilters.AcceptPartition | main/src/main/java/com/airbnb/di/hive/replication/deploy/GoldToSilverReplicationFilter.java:41-44 | a partition is judged by its table; a deployment filter given no table fails with a null dereference; pass-through accepts regardless |
| ReplicationFilters.PassThroughIsWeakest | main/src/main/java/com/airbnb/di/hive/replication/configuration/PassThoughReplicationFilter.java:19-32 | anything any filter accepts, the pass-through filter accepts too |
| ReplicationFilters.DeploymentFiltersDiffer | main/src/main/java/com/airbnb/di/hive/replication/deploy/GoldToSilverTestReplicationFilter.java:17-44 | the two deployment filters agree except on "tmp*" table names and "_schema_upgrade" names, and each accepts what the other does outside its own extra rule |
| DestinationObjects.ParseUri | main/src/main/java/com/airbnb/di/hive/replication/configuration/DestinationObjectFactory.java:32-34 | a location splits into an optional scheme, an optional authority and a path that is a suffix of the location |
| DestinationObjects.ParseUriRoundTrip | main/src/main/java/com/airbnb/di/hive/replication/configuration/DestinationObjectFactory.java:32-34 | reassembling scheme, authority and path gives back the original location |
| DestinationObjects.ChildPath | main/src/main/java/com/airbnb/di/hive/replication/configuration/DestinationObjectFactory.java:52-55 | joining fails exactly for an empty child; otherwise the child ends the joined path |
| DestinationObjects.ModifyLocation | main/src/main/java/com/airbnb/di/hive/replication/configuration/DestinationObjectFactory.java:29-59 | s3n/s3a locations are returned unchanged; a location under srcRoot + "/" is re-rooted under destRoot with the same relative suffix; any other location has its URI path appended to destRoot |
| DestinationObjects.ModifyLocationKeepsRelativePath | main/src/main/java/com/airbnb/di/hive/replication/configuration/DestinationObjectFactory.java:48-52 | srcRoot/rel maps to exactly destRoot/rel |
| DestinationObjects.ModifyLocationRoundTrip | main/src/main/java/com/airbnb/di/hive/replication/configuration/DestinationObjectFactory.java:48-52 | re-rooting source to destination and back gives the original location |
| DestinationObjects.ModifyLocationOutsideRoot | main/src/main/java/com/airbnb/di/hive/replication/configuration/DestinationObjectFactory.java:53-56 | a location outside the source root keeps its absolute path under the destination root's scheme and authority |
| DestinationObjects.SourceRootIsOutsideItself | main/src/main/java/com/airbnb/di/hive/replication/configuration/DestinationObjectFactory.java:48-49 | the source root itself is not "under" the source root, so it takes the outside-root branch |
| DestinationObjects.DestLocation | main/src/main/java/com/airbnb/di/hive/replication/configuration/DestinationObjectFactory.java:77-84 | a missing location stays missing, one starting with "s3" is kept, any other is rewritten by modifyLocation and its failure propagates |
| DestinationObjects.TaggedParameters | main/src/main/java/com/airbnb/di/hive/replication/configuration/DestinationObjectFactory.java:85-86 | the parameters gain SRC_CLUSTER = source cluster name and keep every other entry |
| DestinationObjects.MergeParameters | main/src/main/java/com/airbnb/di/hive/replication/configuration/DestinationObjectFactory.java:90-96 | the merged map has the keys of both maps, and the newer value wins on conflicts |
| DestinationObjects.CreateDestTable | main/src/main/java/com/airbnb/di/hive/replication/configuration/DestinationObjectFactory.java:70-99 | the destination table keeps name, db and partition keys, takes the rewritten location, is tagged with the source cluster, and with an existing destination table holds the existing parameters overridden by the source's |
| DestinationObjects.CreateDestPartitionAsWritten | main/src/main/java/com/airbnb/di/hive/replication/configuration/DestinationObjectFactory.java:110-137 | as written, the destination partition's parameters are the tagged source parameters only: the merge with the existing partition is discarded |
| DestinationObjects.CreateDestPartition | main/src/main/java/com/airbnb/di/hive/replication/configuration/DestinationObjectFactory.java:110-137 | the destination partition keeps db, table and values, takes the rewritten location and the source-cluster tag, and keeps the existing partition's parameters under the source's |
| DestinationObjects.CreateDestPartitionDropsExistingParameters | main/src/main/java/com/airbnb/di/hive/replication/configuration/DestinationObjectFactory.java:129-134 | a concrete existing parameter is lost by the as-written version and kept by the corrected one |
| DestinationObjects.ShouldCopyData | main/src/main/java/com/airbnb/di/hive/replication/configuration/DestinationObjectFactory.java:139-146 | data is not copied exactly when the location starts with "s3n://" or "s3a://" |
| DestinationObjects.BlobLocationsStayPut | main/src/main/java/com/airbnb/di/hive/replication/configuration/DestinationObjectFactory.java:34-40 | a location whose data is not copied is left unchanged by modifyLocation |
| CopyPartitions.PathOf | main/src/main/java/com/airbnb/di/hive/replication/primitives/CopyPartitionsTask.java:99-104 | a partition location is usable exactly when present and non-empty |
| CopyPartitions.Locations | main/src/main/java/com/airbnb/di/hive/replication/primitives/CopyPartitionsTask.java:99-104 | the location set holds every partition's location and nothing else |
| CopyPartitions.FindCommonDirectory | main/src/main/java/com/airbnb/di/hive/replication/primitives/CopyPartitionsTask.java:80-112 | fails with a runtime error exactly when some key is not a partition of the source table; fails with an illegal argument when a location is missing; otherwise returns the common directory of the location set |
| CopyPartitions.PartitionSize | main/src/main/java/com/airbnb/di/hive/replication/primitives/CopyPartitionsTask.java:160-174 | a missing partition or one without a location adds 0; an empty location throws IllegalArgumentException from new Path; a location under the common directory whose directory exists adds its size; any other adds 0 |
| CopyPartitions.SizeZeroWhenNoneQualifies | main/src/main/java/com/airbnb/di/hive/replication/primitives/CopyPartitionsTask.java:159-174 | when no partition qualifies the summed size is zero |
| CopyPartitions.SizeFailsIffEmptyLocation | main/src/main/java/com/airbnb/di/hive/replication/primitives/CopyPartitionsTask.java:159-174 | the size sum fails exactly when some listed partition exists with an empty location, and then with IllegalArgumentException |
| CopyPartitions.SumSizeInCommonDirectory | main/src/main/java/com/airbnb/di/hive/replication/primitives/CopyPartitionsTask.java:159-174 | the accumulating loop computes the summed size of the qualifying partitions |
| CopyPartitions.DoOptimisticCopy | main/src/main/java/com/airbnb/di/hive/replication/primitives/CopyPartitionsTask.java:147-186 | a non-candidate (no common directory or table location, or the table location neither equal to nor under it) gives false; for a candidate a failure of the size sum propagates, and otherwise the answer is true exactly when the common directory does not exceed twice the summed size |
| CopyPartitions.DecideOptimisticCopy | main/src/main/java/com/airbnb/di/hive/replication/primitives/CopyPartitionsTask.java:147-186 | the size check as statements computes exactly the optimistic-copy decision, failures included |
| CopyPartitions.StagingTarget | main/src/main/java/com/airbnb/di/hive/replication/primitives/CopyPartitionsTask.java:188-221 | a modifyLocation failure propagates; otherwise a staging directory is chosen exactly when the data is to be copied, the common directory exists and differs from its destination, and it is destTmp/distcp_tmp/cluster/optimistic_copy/n |
| CopyPartitions.PathElements | main/src/main/java/com/airbnb/di/hive/replication/primitives/CopyPartitionsTask.java:306-314 | decomposing a URI path fails exactly when it has no components |
| CopyPartitions.CopyWithStructure | main/src/main/java/com/airbnb/di/hive/replication/primitives/CopyPartitionsTask.java:299-324 | the copy goes to destDir followed by the source path's components, and path failures propagate |
| CopyPartitions.AppendElements | main/src/main/java/com/airbnb/di/hive/replication/primitives/CopyPartitionsTask.java:312-314 | adding each element to the path builder yields destDir joined with the elements by slashes |
| CopyPartitions.StructuredDestinationKeepsPath | main/src/main/java/com/airbnb/di/hive/replication/primitives/CopyPartitionsTask.java:299-324 | for a path /c1/.../cn the components are exactly c1..cn and the destination is destDir/c1/.../cn |
| CopyPartitions.PartitionJobs | main/src/main/java/com/airbnb/di/hive/replication/primitives/CopyPartitionsTask.java:233-266 | at most one job per listed name; each job is a partition of the source table sharing the staging directory |
| CopyPartitions.PartitionJobsSkipMissing | main/src/main/java/com/airbnb/di/hive/replication/primitives/CopyPartitionsTask.java:243-246 | every listed partition present on the source gets a job and every job is for a listed, present partition |
| CopyPartitions.TotalJobBytes | main/src/main/java/com/airbnb/di/hive/replication/primitives/CopyPartitionsTask.java:284-286 | no finished sub-jobs copy no bytes |
| CopyPartitions.TotalJobBytesAppend | main/src/main/java/com/airbnb/di/hive/replication/primitives/CopyPartitionsTask.java:284-286 | the byte total of two runs of jobs is the sum of their totals |
| CopyPartitions.PartitionJobsBytes | main/src/main/java/com/airbnb/di/hive/replication/primitives/CopyPartitionsTask.java:233-286 | the launched jobs together report the bytes of the sub-job of each listed partition that exists on the source, whatever the staging directory |
| CopyPartitions.LaunchPartitionJobs | main/src/main/java/com/airbnb/di/hive/replication/primitives/CopyPartitionsTask.java:229-266 | the launch loop creates exactly the planned jobs and expects that many completions |
| CopyPartitions.RunTask | main/src/main/java/com/airbnb/di/hive/replication/primitives/CopyPartitionsTask.java:114-287 | the answer is exactly the run outcome; NOT_COMPLETABLE with 0 bytes when the table is missing or unpartitioned; on success the jobs are the planned ones and the bytes are sub-job bytes plus staged bytes; a staging directory is used only when the copy was wanted and the target named it; without an optimistic copy the result is SUCCESSFUL with sub-job bytes |
| CopyPartitions.StagingCases | main/src/main/java/com/airbnb/di/hive/replication/primitives/CopyPartitionsTask.java:188-225 | no staging when the copy is not wanted; with a common directory, a target failure propagates, a skipped target stages nothing, a failing structured path propagates, and otherwise the copy goes to the staging directory and its bytes are counted |
| CopyPartitions.StageCommonDirectory | main/src/main/java/com/airbnb/di/hive/replication/primitives/CopyPartitionsTask.java:188-225 | the optimistic copy as statements yields exactly the staging step's result, failures included |
| CopyPartitions.RunOutcomePartitioned | main/src/main/java/com/airbnb/di/hive/replication/primitives/CopyPartitionsTask.java:138-226 | for a partitioned table the size check's failure is thrown, and otherwise the run goes on to stage with its decision |
| CopyPartitions.AfterStagingCases | main/src/main/java/com/airbnb/di/hive/replication/primitives/CopyPartitionsTask.java:226-286 | a staging failure is thrown; otherwise the run is SUCCESSFUL with the staging directory, one job per existing listed partition and the staged bytes plus the bytes of each existing partition's sub-job |
| CopyPartitions.LaunchedBytes | main/src/main/java/com/airbnb/di/hive/replication/primitives/CopyPartitionsTask.java:284-286 | a successful run reports the staged bytes plus the bytes of every existing listed partition |
| CopyPartitions.RunOutcomeWithoutCopy | main/src/main/java/com/airbnb/di/hive/replication/primitives/CopyPartitionsTask.java:188-286 | without the optimistic copy the run launches the jobs with no staging directory and reports only the bytes of the existing partitions' sub-jobs |
| CopyPartitions.RunOutcomeFails | main/src/main/java/com/airbnb/di/hive/replication/primitives/CopyPartitionsTask.java:159-224 | for a partitioned table the run throws the size sum's failure, the staging target's failure and the structured copy's failure, each when the steps before it succeeded |
| CopyPartitions.RunOutcomeShape | main/src/main/java/com/airbnb/di/hive/replication/primitives/CopyPartitionsTask.java:125-286 | a missing or unpartitioned table is NOT_COMPLETABLE; a successful run launched the planned jobs and counts at least their bytes; a staging directory implies the copy was wanted, named by the target and its bytes counted |
| CopyPartitions.RunPartitioned | main/src/main/java/com/airbnb/di/hive/replication/primitives/CopyPartitionsTask.java:138-286 | the run past the table check computes exactly the run outcome, the size check's and the staging step's failures included |
| CopyPartitions.GetRequiredLocks | main/src/main/java/com/airbnb/di/hive/replication/primitives/CopyPartitionsTask.java:327-340 | the lock-set loop yields the specified lock set |
| CopyPartitions.RequiredLocksShape | main/src/main/java/com/airbnb/di/hive/replication/primitives/CopyPartitionsTask.java:327-340 | the only shared lock is on the table, each listed partition has an exclusive lock, distinct names give distinct locks, and the table is never locked exclusively |
| JobStore.ParseOperation | main/src/main/java/com/airbnb/di/hive/replication/PersistedJobInfoStore.java:141-142 | a parsed operation name is exactly that operation's constant name |
| JobStore.OperationNameRoundTrip | main/src/main/java/com/airbnb/di/hive/replication/PersistedJobInfoStore.java:141-142 | every operation's stored name parses back to it |
| JobStore.ParseStatus | main/src/main/java/com/airbnb/di/hive/replication/PersistedJobInfoStore.java:143-144 | a parsed status name is exactly that status's constant name |
| JobStore.StatusNameRoundTrip | main/src/main/java/com/airbnb/di/hive/replication/PersistedJobInfoStore.java:143-144 | every status's stored name parses back to it |
| JobStore.CompletedStatuses | main/src/main/java/com/airbnb/di/hive/replication/PersistedJobInfoStore.java:38-42 | the completed statuses are exactly SUCCESSFUL, FAILED and NOT_COMPLETABLE, so ABORTED counts as runnable |
| JobStore.Encode | main/src/main/java/com/airbnb/di/hive/replication/PersistedJobInfoStore.java:377-395 | a stored row holds the job's create time, partitions, extras, and names that parse back to its operation and status |
| JobStore.Decode | main/src/main/java/com/airbnb/di/hive/replication/PersistedJobInfoStore.java:137-185 | decoding fails exactly on an unknown operation or status; null create time reads as 0, null partitions as empty, null extras as empty |
| JobStore.DecodeEncode | main/src/main/java/com/airbnb/di/hive/replication/PersistedJobInfoStore.java:137-185 | decoding a persisted row gives back the persisted job |
| JobStore.JavaDiv | main/src/main/java/com/airbnb/di/hive/replication/PersistedJobInfoStore.java:237 | Java long division truncates towards zero |
| JobStore.TruncateToSecond | main/src/main/java/com/airbnb/di/hive/replication/PersistedJobInfoStore.java:237 | t / 1000 * 1000 is a whole second within one second of t, towards zero |
| JobStore.TruncateToSecondIdempotent | main/src/main/java/com/airbnb/di/hive/replication/PersistedJobInfoStore.java:237 | truncating an already truncated time changes nothing |
| JobStore.CreatedRow | main/src/main/java/com/airbnb/di/hive/replication/PersistedJobInfoStore.java:260-281 | without a rename target all four rename columns are null; with one, the row is the job's encoding |
| JobStore.Upsert | main/src/main/java/com/airbnb/di/hive/replication/PersistedJobInfoStore.java:312-422 | persisting inserts or overwrites the job's row and leaves every other row unchanged |
| JobStore.UpsertIdempotent | main/src/main/java/com/airbnb/di/hive/replication/PersistedJobInfoStore.java:312-422 | persisting the same job twice is the same as once |
| JobStore.UpsertThenDecode | main/src/main/java/com/airbnb/di/hive/replication/PersistedJobInfoStore.java:312-422 | after persisting, the job's row decodes to the job |
| JobStore.AbortRunnable | main/src/main/java/com/airbnb/di/hive/replication/PersistedJobInfoStore.java:93-109 | every row whose status is not completed becomes ABORTED; completed rows are untouched; no row is added or removed |
| JobStore.AbortRunnableIdempotent | main/src/main/java/com/airbnb/di/hive/replication/PersistedJobInfoStore.java:93-109 | aborting twice is the same as aborting once |
| JobStore.RunnableIds | main/src/main/java/com/airbnb/di/hive/replication/PersistedJobInfoStore.java:121-129 | the runnable ids are exactly those whose status is not completed |
| JobStore.AbortedRowsStayRunnable | main/src/main/java/com/airbnb/di/hive/replication/PersistedJobInfoStore.java:102-105 | aborting keeps the runnable set unchanged, and all of it reads ABORTED |
| JobStore.PersistedJobInfoStore.Create | main/src/main/java/com/airbnb/di/hive/replication/PersistedJobInfoStore.java:224-310 | a new row under a fresh id; a rename target without a rename path is a null dereference and changes nothing; the returned job mirrors the arguments with the create time truncated to a second |
| JobStore.PersistedJobInfoStore.PersistHelper | main/src/main/java/com/airbnb/di/hive/replication/PersistedJobInfoStore.java:312-422 | the table becomes the upsert of the job |
| JobStore.PersistedJobInfoStore.ChangeStatusAndPersist | main/src/main/java/com/airbnb/di/hive/replication/PersistedJobInfoStore.java:424-428 | the job with the new status is upserted and reads back from the table |
| JobStore.PersistedJobInfoStore.AbortRunnableFromDb | main/src/main/java/com/airbnb/di/hive/replication/PersistedJobInfoStore.java:93-109 | the table becomes the bulk abort of its runnable rows |
| JobStore.PersistedJobInfoStore.GetRunnableFromDb | main/src/main/java/com/airbnb/di/hive/replication/PersistedJobInfoStore.java:111-187 | succeeds exactly when every runnable row decodes; returns each runnable row, decoded, once, in ascending id order |
| JobStore.ReadInIdOrder | main/src/main/java/com/airbnb/di/hive/replication/PersistedJobInfoStore.java:121-185 | reading the selected ids in order yields each one decoded, ascending, and fails exactly when some row does not decode |
| JobStore.EncodedRowsDecode | main/src/main/java/com/airbnb/di/hive/replication/PersistedJobInfoStore.java:137-185 | a table whose operation and status columns are valid names reads back without error |
| JobStore.CreatedRowReadsBack | main/src/main/java/com/airbnb/di/hive/replication/PersistedJobInfoStore.java:270-305 | the row create stores decodes to the job it returns except when a rename path was given with no rename target |
| MockMetastore.KeyValuePairs | main/src/test/java/test/MockHiveMetastoreClient.java:54-58 | one "key=value" piece per partition key, in key order |
| MockMetastore.SplitKeyValue | main/src/test/java/test/MockHiveMetastoreClient.java:251-253 | a "key=value" piece splits into a key and a value without '=' |
| MockMetastore.Put | main/src/test/java/test/MockHiveMetastoreClient.java:254 | putting a key appends it when absent and replaces its value in place when present, keeping insertion order |
| MockMetastore.PartitionNameToMapRoundTrip | main/src/test/java/test/MockHiveMetastoreClient.java:246-258 | parsing the name built from keys and values gives back the ordered key/value pairs |
| MockMetastore.EntriesNameOfZip | main/src/test/java/test/MockHiveMetastoreClient.java:277-287 | the name built from a key/value map equals the name built from the keys and values |
| MockMetastore.GetPartitionName | main/src/test/java/test/MockHiveMetastoreClient.java:42-59 | fails on a key-count/value-count mismatch; otherwise k1=v1/k2=v2/... over the table's keys |
| MockMetastore.GetPartitionNameFromValues | main/src/test/java/test/MockHiveMetastoreClient.java:325-338 | a missing table is a null dereference, too few values an index error; otherwise the same k1=v1/... name |
| MockMetastore.PartitionSpecToName | main/src/test/java/test/MockHiveMetastoreClient.java:277-287 | the loop builds the "/"-joined key=value name of the entries |
| MockMetastore.PartitionNameToMapLoop | main/src/test/java/test/MockHiveMetastoreClient.java:246-258 | the loop parses a partition name as specified |
| MockMetastore.MockHiveMetastoreClient.constructor | main/src/test/java/test/MockHiveMetastoreClient.java:28-32 | the three maps start empty |
| MockMetastore.MockHiveMetastoreClient.GetTable | main/src/test/java/test/MockHiveMetastoreClient.java:84-87 | returns the stored table for (db, table) and nothing when there is none |
| MockMetastore.MockHiveMetastoreClient.GetPartition | main/src/test/java/test/MockHiveMetastoreClient.java:90-96 | returns the stored partition for (db, table, name) and nothing when there is none |
| MockMetastore.MockHiveMetastoreClient.GetDatabase | main/src/test/java/test/MockHiveMetastoreClient.java:131-133 | returns a database exactly when one is stored under the name |
| MockMetastore.MockHiveMetastoreClient.IsPartitionedTable | main/src/test/java/test/MockHiveMetastoreClient.java:175-178 | a missing table is a null dereference; otherwise whether it has partition keys |
| MockMetastore.MockHiveMetastoreClient.AddPartition | main/src/test/java/test/MockHiveMetastoreClient.java:62-81 | fails on an unknown table, a key mismatch or an existing partition; otherwise stores the partition under its name and changes nothing else |
| MockMetastore.MockHiveMetastoreClient.AlterPartitionAsWritten | main/src/test/java/test/MockHiveMetastoreClient.java:99-119 | as written, altering a partition always fails, reporting a partition of table "null" |
| MockMetastore.MockHiveMetastoreClient.AlterPartition | main/src/test/java/test/MockHiveMetastoreClient.java:99-119 | succeeds exactly when the partition exists and then replaces it; otherwise nothing changes |
| MockMetastore.MockHiveMetastoreClient.CreateDatabase | main/src/test/java/test/MockHiveMetastoreClient.java:122-128 | rejects a duplicate database; otherwise adds it |
| MockMetastore.MockHiveMetastoreClient.CreateTable | main/src/test/java/test/MockHiveMetastoreClient.java:141-154 | fails on a missing database or duplicate table; otherwise adds the table |
| MockMetastore.MockHiveMetastoreClient.AlterTable | main/src/test/java/test/MockHiveMetastoreClient.java:157-172 | fails on an unknown table; otherwise removes the old spec and stores the table under its own (db, table) |
| MockMetastore.MockHiveMetastoreClient.DropTable | main/src/test/java/test/MockHiveMetastoreClient.java:191-210 | fails on a missing table; otherwise removes it and every partition of it |
| MockMetastore.MockHiveMetastoreClient.RemovePartitionsOf | main/src/test/java/test/MockHiveMetastoreClient.java:201-209 | the iterator loop leaves exactly the partitions of other tables, each unchanged, and touches no other map |
| MockMetastore.MockHiveMetastoreClient.DropPartition | main/src/test/java/test/MockHiveMetastoreClient.java:217-229 | fails on a missing partition; otherwise removes exactly that partition |
| MockMetastore.MockHiveMetastoreClient.GetPartitionNames | main/src/test/java/test/MockHiveMetastoreClient.java:232-243 | exactly the names of the table's partitions, without repeats |
| MockMetastore.MockHiveMetastoreClient.GetTables | main/src/test/java/test/MockHiveMetastoreClient.java:261-275 | only the "*" pattern is supported; it returns exactly the tables of the database, without repeats |
| MockMetastore.MockHiveMetastoreClient.ExchangePartition | main/src/test/java/test/MockHiveMetastoreClient.java:289-323 | fails when the source partition or destination table is missing; otherwise moves the partition to the destination table under the same name |
| MockMetastore.MockHiveMetastoreClient.RenamePartition | main/src/test/java/test/MockHiveMetastoreClient.java:341-369 | a missing table is a null dereference; fewer old or new values than partition keys is an IndexOutOfBoundsException; otherwise succeeds exactly when the target is free and the source exists, then the source is gone and the target holds the partition with its new values; a failure changes nothing |
| MockMetastore.PartitionsNotOf | main/src/test/java/test/MockHiveMetastoreClient.java:205-213 | keeps exactly the partitions of other tables, unchanged |
| JobFactory.Classify | main/src/main/java/com/airbnb/di/hive/replication/ReplicationJobFactory.java:561-576 | a null command type is a null dereference; every command type gets a family |
| JobFactory.ClassifyFamilies | main/src/main/java/com/airbnb/di/hive/replication/ReplicationJobFactory.java:562-576 | DROPTABLE, DROPVIEW, ALTERTABLE_DROPPARTS, TRUNCATETABLE are DROP; the three renames are RENAME; everything else is COPY |
| JobFactory.Extras | main/src/main/java/com/airbnb/di/hive/replication/ReplicationJobFactory.java:83-87 | the extras hold exactly the audit-log id and the entry's create time, both readable back as numbers |
| JobFactory.CopyTableRecord | main/src/main/java/com/airbnb/di/hive/replication/ReplicationJobFactory.java:74-131 | a table copy is COPY_PARTITIONED_TABLE exactly for partitioned tables, COPY_UNPARTITIONED_TABLE otherwise |
| JobFactory.PartitionNames | main/src/main/java/com/airbnb/di/hive/replication/ReplicationJobFactory.java:223-278 | the batch job's partition names are the entries' names, in order |
| JobFactory.TableLookup | main/src/main/java/com/airbnb/di/hive/replication/ReplicationJobFactory.java:280-291 | every reference table is found under its own spec and every found table is a reference table |
| JobFactory.TableLookupLastWins | main/src/main/java/com/airbnb/di/hive/replication/ReplicationJobFactory.java:286-289 | when specs repeat, the last table with that spec wins |
| JobFactory.CreateTableLookupMap | main/src/main/java/com/airbnb/di/hive/replication/ReplicationJobFactory.java:280-291 | the loop builds the specified lookup map |
| JobFactory.AcceptedTables | main/src/main/java/com/airbnb/di/hive/replication/ReplicationJobFactory.java:720-729 | keeps exactly the tables the filter accepts |
| JobFactory.AcceptedPartitions | main/src/main/java/com/airbnb/di/hive/replication/ReplicationJobFactory.java:703-716 | keeps exactly the partitions the filter accepts given their looked-up table |
| JobFactory.AcceptedPartitionsFailure | main/src/main/java/com/airbnb/di/hive/replication/ReplicationJobFactory.java:703-716 | a partition on which the filter fails makes the whole filtering fail |
| JobFactory.AcceptedPartitionsFirstFailure | main/src/main/java/com/airbnb/di/hive/replication/ReplicationJobFactory.java:703-716 | the failure reported is the one of the first failing partition |
| JobFactory.FilterObjects | main/src/main/java/com/airbnb/di/hive/replication/ReplicationJobFactory.java:687-730 | in-place removal yields the accepted partitions and tables in their original order, or the filter's first failure |
| JobFactory.FilterPartitions | main/src/main/java/com/airbnb/di/hive/replication/ReplicationJobFactory.java:703-716 | the partition iterator loop keeps exactly the partitions the filter accepts, in order, or reports the first failing judgement |
| JobFactory.FilterTables | main/src/main/java/com/airbnb/di/hive/replication/ReplicationJobFactory.java:720-729 | the table iterator loop keeps exactly the tables the filter accepts, in order |
| JobFactory.AddTableJobs | main/src/main/java/com/airbnb/di/hive/replication/ReplicationJobFactory.java:597-602 | the table loop appends exactly the copy or drop records of the tables |
| JobFactory.AddPartitionJobs | main/src/main/java/com/airbnb/di/hive/replication/ReplicationJobFactory.java:618-624 | the partition loop appends exactly the copy or drop records of the partitions |
| JobFactory.AddCopyJobs | main/src/main/java/com/airbnb/di/hive/replication/ReplicationJobFactory.java:591-626 | the COPY case appends the specified copy jobs |
| JobFactory.AddCopyTableJobs | main/src/main/java/com/airbnb/di/hive/replication/ReplicationJobFactory.java:595-602 | one COPY_TABLE job per table is appended, unless the command only adds partitions |
| JobFactory.AddCopyPartitionJobs | main/src/main/java/com/airbnb/di/hive/replication/ReplicationJobFactory.java:604-624 | one batch COPY_PARTITIONS job is appended for a multi-partition write to one table, else one COPY_PARTITION job per partition |
| JobFactory.CreateClassifiedJobs | main/src/main/java/com/airbnb/di/hive/replication/ReplicationJobFactory.java:553-590 | after the empty-output check, classification and filtering, the jobs are those specified |
| JobFactory.AddFamilyJobs | main/src/main/java/com/airbnb/di/hive/replication/ReplicationJobFactory.java:591-667 | the family switch produces the specified jobs |
| JobFactory.CreateReplicationJobs | main/src/main/java/com/airbnb/di/hive/replication/ReplicationJobFactory.java:486-678 | the whole conversion of an audit-log entry produces the specified job list |
| JobFactory.NoOutputsNoJobs | main/src/main/java/com/airbnb/di/hive/replication/ReplicationJobFactory.java:492-559 | a filtered-out entry, or one with no outputs that is not a parsed exchange, yields no jobs |
| JobFactory.ExchangePartitionJob | main/src/main/java/com/airbnb/di/hive/replication/ReplicationJobFactory.java:503-550 | a parsed exchange yields exactly one COPY_PARTITION job for the exchanged-to partition if its table is accepted, otherwise none |
| JobFactory.AllJobsPendingAndTagged | main/src/main/java/com/airbnb/di/hive/replication/ReplicationJobFactory.java:83-99 | every job produced is PENDING and carries the entry's id and create time in its extras |
| JobFactory.ClassifiedJobsTagged | main/src/main/java/com/airbnb/di/hive/replication/ReplicationJobFactory.java:553-678 | the jobs of a classified entry are all pending and tagged |
| JobFactory.FamilyJobsTagged | main/src/main/java/com/airbnb/di/hive/replication/ReplicationJobFactory.java:591-667 | the jobs of each family are all pending and tagged |
| JobFactory.CopyTableJobsShape | main/src/main/java/com/airbnb/di/hive/replication/ReplicationJobFactory.java:595-603 | no table jobs for ALTERTABLE_ADDPARTS; otherwise one per table, COPY_PARTITIONED_TABLE exactly for partitioned tables |
| JobFactory.CopyBatchJobShape | main/src/main/java/com/airbnb/di/hive/replication/ReplicationJobFactory.java:607-614 | a batch is one COPY_PARTITIONS job on the table naming every partition of the unfiltered output list |
| JobFactory.CopyPartitionJobsShape | main/src/main/java/com/airbnb/di/hive/replication/ReplicationJobFactory.java:615-625 | otherwise one COPY_PARTITION job per filtered partition, in order, each naming its partition |
| JobFactory.DropTablesBeforePartitions | main/src/main/java/com/airbnb/di/hive/replication/ReplicationJobFactory.java:627-642 | every DROP_TABLE job precedes every DROP_PARTITION job, and a partition drop records the table spec and the one partition name |
| JobFactory.RenameJobsCases | main/src/main/java/com/airbnb/di/hive/replication/ReplicationJobFactory.java:643-667 | no job when everything was filtered; else rename-table if a source table is set; else rename-partition if a source partition is set; else a runtime error |
| FolderCompare.HiddenFileFilterOnName | main/src/main/java/com/airbnb/di/hive/batchreplication/hdfscopy/ReplicationJob.java:45-50 | a listed file is hidden exactly when its name starts with '_' or '.' |
| FolderCompare.GetHostName | main/src/main/java/com/airbnb/di/hive/batchreplication/hdfscopy/ReplicationJob.java:52-58 | fails exactly when the path has fewer than three '/'-separated parts |
| FolderCompare.GetPathNoHostName | main/src/main/java/com/airbnb/di/hive/batchreplication/hdfscopy/ReplicationJob.java:63-68 | fails exactly when the path has fewer than three '/'-separated parts |
| FolderCompare.HostPathRoundTrip | main/src/main/java/com/airbnb/di/hive/batchreplication/hdfscopy/ReplicationJob.java:52-68 | for scheme://host/c1/.../cn the host is host and the host-less path is /c1/.../cn |
| FolderCompare.HostNames | main/src/main/java/com/airbnb/di/hive/batchreplication/hdfscopy/ReplicationJob.java:515-526 | each folder's host name in order, failing exactly when some folder has none |
| FolderCompare.GetSourceHosts | main/src/main/java/com/airbnb/di/hive/batchreplication/hdfscopy/ReplicationJob.java:515-526 | the source hosts are the comma-joined host names of the comma-separated folders |
| FolderCompare.GenerateValueFields | main/src/main/java/com/airbnb/di/hive/batchreplication/hdfscopy/ReplicationJob.java:156-165 | the value splits on tabs into action, full path, size and modification time, the numbers reading back unchanged |
| FolderCompare.Newest | main/src/main/java/com/airbnb/di/hive/batchreplication/hdfscopy/ReplicationJob.java:175-183 | the chosen status is one with the largest modification time, the first such on ties |
| FolderCompare.FindSrcFileStatus | main/src/main/java/com/airbnb/di/hive/batchreplication/hdfscopy/ReplicationJob.java:175-183 | fails exactly on an empty list; otherwise a status with the maximum modification time |
| FolderCompare.DefaultCompareOptions | main/src/main/java/com/airbnb/di/hive/batchreplication/hdfscopy/ReplicationJob.java:196 | with no configuration the options are a, d and u |
| FolderCompare.OnHost | main/src/main/java/com/airbnb/di/hive/batchreplication/hdfscopy/ReplicationJob.java:189-194 | exactly the statuses on the destination host |
| FolderCompare.OffHost | main/src/main/java/com/airbnb/di/hive/batchreplication/hdfscopy/ReplicationJob.java:189-194 | exactly the statuses off the destination host |
| FolderCompare.DecideCases | main/src/main/java/com/airbnb/di/hive/batchreplication/hdfscopy/ReplicationJob.java:214-242 | add iff no destination copy and option a; delete iff only a destination copy and option d; update iff both exist, option u and the newest source size differs; add and update carry the newest source, delete the destination copy |
| FolderCompare.RelativePaths | main/src/main/java/com/airbnb/di/hive/batchreplication/hdfscopy/ReplicationJob.java:202-207 | each relative path that occurs, once |
| FolderCompare.Group | main/src/main/java/com/airbnb/di/hive/batchreplication/hdfscopy/ReplicationJob.java:202-207 | exactly the statuses with that relative path |
| FolderCompare.Decisions | main/src/main/java/com/airbnb/di/hive/batchreplication/hdfscopy/ReplicationJob.java:209-242 | keeps only the paths with an action, so records have distinct paths drawn from the keys |
| FolderCompare.CompareRecordsDistinct | main/src/main/java/com/airbnb/di/hive/batchreplication/hdfscopy/ReplicationJob.java:199-244 | no relative path is written twice |
| FolderCompare.CompareRecordsKeys | main/src/main/java/com/airbnb/di/hive/batchreplication/hdfscopy/ReplicationJob.java:199-244 | every record is for a relative path among the input statuses |
| FolderCompare.CompareRecordsPerPath | main/src/main/java/com/airbnb/di/hive/batchreplication/hdfscopy/ReplicationJob.java:199-244 | for every input path, its record is present exactly when the decision has an action, and then it carries that action |
| FolderCompare.GroupByRelativePath | main/src/main/java/com/airbnb/di/hive/batchreplication/hdfscopy/ReplicationJob.java:202-207 | the multimap loop yields the paths in first-occurrence order with their groups |
| FolderCompare.Reduce | main/src/main/java/com/airbnb/di/hive/batchreplication/hdfscopy/ReplicationJob.java:199-244 | the reducer writes exactly the compare records |
| DirectoryCopy.Removed | main/src/main/java/com/airbnb/di/hive/batchreplication/hivecopy/Stage2DirectoryCopyMapper.java:78-80 | a recursive delete removes exactly the path and everything under it |
| DirectoryCopy.Listed | main/src/main/java/com/airbnb/di/hive/batchreplication/hivecopy/Stage2DirectoryCopyMapper.java:114-116 | listing a directory gives exactly its visible direct children; a file lists as itself when visible |
| DirectoryCopy.ListedSkipsHidden | main/src/main/java/com/airbnb/di/hive/batchreplication/hivecopy/Stage2DirectoryCopyMapper.java:35-40 | a child is listed exactly when its name does not start with '_' or '.' |
| DirectoryCopy.Cleaned | main/src/main/java/com/airbnb/di/hive/batchreplication/hivecopy/Stage2DirectoryCopyMapper.java:78-84 | after cleaning, dst is gone, every other entry outside dst remains, and nothing is added |
| DirectoryCopy.RecreatedDirectoryIsEmpty | main/src/main/java/com/airbnb/di/hive/batchreplication/hivecopy/Stage2DirectoryCopyMapper.java:86-95 | the recreated directory lists as empty |
| DirectoryCopy.FileSystem.Delete | main/src/main/java/com/airbnb/di/hive/batchreplication/hivecopy/Stage2DirectoryCopyMapper.java:78-80 | delete succeeds exactly on an existing, writable path and then removes its subtree |
| DirectoryCopy.FileSystem.Mkdirs | main/src/main/java/com/airbnb/di/hive/batchreplication/hivecopy/Stage2DirectoryCopyMapper.java:90-95 | mkdirs succeeds exactly on a writable path that is absent or a directory, adding it when absent |
| DirectoryCopy.FileSystem.ListStatus | main/src/main/java/com/airbnb/di/hive/batchreplication/hivecopy/Stage2DirectoryCopyMapper.java:114-116 | a missing path is an IOException "File p does not exist."; otherwise each listed entry once, with its status |
| DirectoryCopy.Enumerate | main/src/main/java/com/airbnb/di/hive/batchreplication/hivecopy/Stage2DirectoryCopyMapper.java:114-127 | the loop lists each wanted entry exactly once with its status |
| DirectoryCopy.CleanDirectory | main/src/main/java/com/airbnb/di/hive/batchreplication/hivecopy/Stage2DirectoryCopyMapper.java:68-96 | a failed delete or recreate raises the source's IOException and changes nothing; otherwise dst is absent, or exists as a new directory when recreate is set |
| DirectoryCopy.RecordFor | main/src/main/java/com/airbnb/di/hive/batchreplication/hivecopy/Stage2DirectoryCopyMapper.java:121-126 | the record names the source file and dst, with a length that reads back as the file's length |
| DirectoryCopy.UpdateDirectory | main/src/main/java/com/airbnb/di/hive/batchreplication/hivecopy/Stage2DirectoryCopyMapper.java:98-133 | dst is always cleaned and recreated first; a vanished source yields no records; otherwise one record per visible direct child of src, keyed by its hash, each path once |
| DirectoryCopy.UpdateRequest | main/src/main/java/com/airbnb/di/hive/batchreplication/hivecopy/Stage2DirectoryCopyMapper.java:54-65 | only COPY_PARTITION or COPY_UNPARTITIONED_TABLE estimates with updateData ask for an update; a missing path is a NoSuchElementException |
| DirectoryCopy.UpdateRequestNoOp | main/src/main/java/com/airbnb/di/hive/batchreplication/hivecopy/Stage2DirectoryCopyMapper.java:54-65 | any other estimate does nothing |
| DirectoryCopy.Map | main/src/main/java/com/airbnb/di/hive/batchreplication/hivecopy/Stage2DirectoryCopyMapper.java:48-66 | a missing path is a NoSuchElementException and an estimate that asks for no update yields nothing, both leaving the file system unchanged; an update request gets the whole contract of updateDirectory: a failed delete or recreate of dst is thrown and changes nothing, otherwise dst is cleaned and recreated and each visible direct child of src is emitted once, keyed by its hash |

## Left out

- JDBC, SQL text, `RetryingTaskRunner` and the `resilient*` wrappers of the job store: the table is a map and each statement is one atomic update. `persist` is `persistHelper` under an infinite retry loop, so `ChangeStatusAndPersist` calls the upsert directly.
- The ids the database generates: `create` takes the next id of a counter kept above every id used.
- The JSON conversion of partition lists and extras (`ReplicationUtils.convertToJson`/`convertToList`/`convertToMap`) is not part of this model. Lists and maps are stored as values, and a SQL NULL is `None`.
- The polling loop, `Thread.sleep`, `ParallelJobExecutor`, `CopyPartitionsCounter` and `Random` in `runTask`. Sub-job completion is "every launched job finished", with the bytes each reports given as a function. The random staging suffix is a parameter.
- FsUtils, DirectoryCopier and HiveUtils are not part of this model. Directory existence, sizes, "exceeds size", sub-directory and equality tests, and copying are oracle functions of a `FileSystem` value in `CopyPartitions`. `ReplicationUtils.getCommonDirectory` is an oracle too.
- `ReplicationUtils.fromSameTable` is not part of this model. It is taken to be "non-empty and every partition has the same (db, table)".
- `ExchangePartitionParser` is not part of this model. Parsing is an uninterpreted `parseExchange(command)`.
- `HiveObjectSpec` is not part of this model. Its string form is taken to be "db.table" or "db.table/partition".
- `HiveParameterKeys` and the `PersistedJobInfo` constants are not part of this model. SRC_CLUSTER is taken to be "abb_source_cluster", and the extras keys "audit_log_id" and "audit_log_entry_create_time". No property depends on the particular strings.
- The `ReplicationOperation` and `ReplicationStatus` enums are not part of this model. Their constants are taken from the names used in the code.
- The tasks and `ReplicationJob` objects that `createJobFor*` wraps around each record: the job factory returns the records only.
- The set `tablesToNotReplicate` built in `filterObjects`: it is never read.
- `ExtendedFileStatus`: host name, relative path, full path, size and modification time are given fields. How the listing mapper derives them is MapReduce plumbing.
- MapReduce and CLI plumbing of the batch copy:
  - the `run*` job drivers;
  - `ListFileMapper.enumDirectories`;
  - `HdfsSyncMapper` and `HdfsSyncReducer` byte copying;
  - `context.write` failures.
- The murmur3 hash that keys stage-2 records: it is a parameter `hashKey(len, modificationTime)`. A directory entry carries no length or time here and is hashed as (0, 0).
- `ReplicationUtils.genValue` is not part of this model. A stage-2 record is the triple (source file, destination, length).
- `FolderCompare.GetHostName`, `FolderCompare.GetPathNoHostName`: the Java `assert parts.length > 3` is disabled at run time, so the model fails only where `parts[2]` would be out of bounds, with fewer than three parts.
- `FolderCompare.DecideCases`: the disabled Java assert that at most one status is on the destination host is not enforced. The first destination status is compared, as in the code.
- A null destination host name in the folder compare: it is a plain string.
- `DirectoryCopy.CleanDirectory`: the "validate delete" check is left out. A successful recursive delete always removes the path in this file system, so that branch cannot be reached.
- `DirectoryCopy.FileSystem.Mkdirs`: missing parent directories are not created. Only the path itself is added, which is all `hdfsCleanDirectory` observes.
- `DirectoryCopy.FileSystem.ListStatus`: the order of a listing is not specified. The contract states the listed set, each entry exactly once.
- Path normalisation by Hadoop's `Path` (collapsing "//", removing a trailing "/") is not modelled. `Path(parent, child)` is joined with one "/".
- Concurrency (`synchronized` methods) and logging.
- ABORTED rows count as runnable: ABORTED is absent from the completed-status list, so `getRunnableFromDb` returns aborted rows again. The model keeps this.
- The job that `create` returns keeps `renameToPath` even when there is no rename target, while the stored row has NULL there. `CreatedRowReadsBack` states exactly when the two agree.
- JobStore.Decode: `new Path` throws on an empty `src_path` or `rename_to_path`, and the model decodes such a row. Rows the store writes never hold an empty path.
- CopyPartitions.DoOptimisticCopy: Java `long` overflow of `sizeOfPartitionsInCommonDirectory * 2` is not modelled. Sizes are unbounded naturals.
- CopyPartitions.RunTask: Java `long` overflow of `bytesCopied` is not modelled. Byte counts are unbounded naturals.

## Findings

| source | as written | input that shows it | evidently intended | confidence | as-written member | corrected member |
|---|---|---|---|---|---|---|
| main/src/main/java/com/airbnb/di/hive/replication/configuration/DestinationObjectFactory.java:129-134 | the merged parameter map is computed and dropped, so the destination partition takes only the tagged source parameters | an existing destination partition with parameter owner=etl and a source partition without it: the result has no "owner" | the existing partition's parameters, overridden by the source's, as for tables at lines 90-96 | not executed | DestinationObjects.CreateDestPartitionAsWritten | DestinationObjects.CreateDestPartition |
| main/src/test/java/test/MockHiveMetastoreClient.java:110-111 | the lookup spec takes its partition name from the table spec, which has none, so the key never matches a stored partition | any existing partition passed to alterPartition: it fails with "Partition does not exist: db.null/…" | look the partition up under (db, table, partition name) | not executed | MockMetastore.MockHiveMetastoreClient.AlterPartitionAsWritten | MockMetastore.MockHiveMetastoreClient.AlterPartition |
