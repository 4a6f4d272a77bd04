/**
 * CopyPartitionsTask: copies several partitions of one table. When the
 * partitions share a common directory that is not much larger than they are,
 * that directory is first copied once to a staging directory (the optimistic
 * copy); then one copy job per existing partition is launched. The file
 * system, the directory copier and the sub-jobs' byte counts are answers
 * given to the model as parameters.
 */
module CopyPartitions {
  import opened Wrappers
  import opened JavaStrings
  import opened HiveObjects
  import opened DestinationObjects

  /** What FsUtils and the directory copier answer; their bodies are not part of this model. */
  datatype FileSystem = FileSystem(
    dirExists: string -> bool,
    size: string -> nat,
    exceedsSize: (string, int) -> bool,
    isSubDirectory: (string, string) -> bool,
    equalDirs: (string, string) -> bool,
    copyDirectory: (string, string) -> nat)

  /** The task's inputs, fixed by its constructor. */
  datatype CopyPartitionsTask = CopyPartitionsTask(
    srcCluster: Cluster,
    destCluster: Cluster,
    srcTableSpec: ObjectSpec,
    partitionNames: seq<string>,
    commonDirectory: Option<string>)

  datatype RunStatus = Successful | NotCompletable

  datatype RunInfo = RunInfo(status: RunStatus, bytesCopied: int)

  /** One CopyPartitionTask handed to the executor. */
  datatype PartitionJob = PartitionJob(spec: ObjectSpec, location: Option<string>, optimisticCopyDir: Option<string>)

  /** The run's result, the staging directory it used and the jobs it launched. */
  datatype Outcome = Outcome(info: RunInfo, optimisticCopyDir: Option<string>, jobs: seq<PartitionJob>)

  /** new Path(location): a null or empty string is refused. */
  function PathOf(location: Option<string>): (r: Result<string, Exception>)
    ensures r.Success? <==> location.Some? && location.value != ""
    ensures r.Success? ==> r.value == location.value
  {
    if location.None? || location.value == "" then Failure(IllegalArgumentException) else Success(location.value)
  }

  /** The spec keys are partitions of the source table. */
  predicate SameTablePartitions(srcTableSpec: ObjectSpec, keys: set<ObjectSpec>) {
    forall k :: k in keys ==> k.TableSpec() == srcTableSpec && k.IsPartition()
  }

  /** Every partition has a location that names a path. */
  predicate AllLocated(specToPartition: map<ObjectSpec, Partition>) {
    forall k :: k in specToPartition ==> PathOf(specToPartition[k].location).Success?
  }

  /** The set of partition locations. */
  function Locations(specToPartition: map<ObjectSpec, Partition>): (r: set<string>)
    requires AllLocated(specToPartition)
    ensures forall k :: k in specToPartition ==> specToPartition[k].location.value in r
    ensures forall l :: l in r ==> exists k :: k in specToPartition && specToPartition[k].location == Some(l)
  {
    set k | k in specToPartition :: specToPartition[k].location.value
  }

  /**
   * findCommonDirectory: every key must be a partition of the source table,
   * else a RuntimeException; then every partition's location must name a
   * path; the answer is the common directory of the set of locations, which
   * ReplicationUtils computes and is given here as commonDirectoryOf.
   */
  method FindCommonDirectory(srcTableSpec: ObjectSpec, specToPartition: map<ObjectSpec, Partition>,
                             commonDirectoryOf: set<string> -> Option<string>)
    returns (r: Result<Option<string>, Exception>)
    ensures !SameTablePartitions(srcTableSpec, specToPartition.Keys) <==> r.Failure? && r.error.RuntimeException?
    ensures SameTablePartitions(srcTableSpec, specToPartition.Keys) && !AllLocated(specToPartition) ==>
      r == Failure(IllegalArgumentException)
    ensures SameTablePartitions(srcTableSpec, specToPartition.Keys) && AllLocated(specToPartition) ==>
      r == Success(commonDirectoryOf(Locations(specToPartition)))
  {
    var toCheck := specToPartition.Keys;
    while toCheck != {}
      invariant toCheck <= specToPartition.Keys
      invariant SameTablePartitions(srcTableSpec, specToPartition.Keys - toCheck)
      decreases |toCheck|
    {
      NonEmptyHasSpec(toCheck);
      var spec :| spec in toCheck;
      if srcTableSpec != spec.TableSpec() {
        return Failure(RuntimeException("Spec " + SpecToString(spec) + " does not match the source table spec " +
          SpecToString(srcTableSpec)));
      }
      if !spec.IsPartition() {
        return Failure(RuntimeException("Partition not specified: " + SpecToString(spec)));
      }
      toCheck := toCheck - {spec};
    }
    assert specToPartition.Keys - toCheck == specToPartition.Keys;
    var partitionLocations: set<string> := {};
    var toVisit := specToPartition.Keys;
    while toVisit != {}
      invariant toVisit <= specToPartition.Keys
      invariant forall k :: k in specToPartition.Keys - toVisit ==> PathOf(specToPartition[k].location).Success?
      invariant partitionLocations == set k | k in specToPartition.Keys - toVisit :: specToPartition[k].location.value
      decreases |toVisit|
    {
      NonEmptyHasSpec(toVisit);
      var spec :| spec in toVisit;
      var location :- PathOf(specToPartition[spec].location);
      partitionLocations := partitionLocations + {location};
      toVisit := toVisit - {spec};
    }
    assert specToPartition.Keys - toVisit == specToPartition.Keys;
    return Success(commonDirectoryOf(partitionLocations));
  }

  /**
   * The optimistic copy is considered only when both the common directory
   * and the table location are known and the table location is the common
   * directory or one of its ancestors.
   */
  predicate OptimisticCandidate(commonDirectory: Option<string>, tableLocation: Option<string>, fs: FileSystem) {
    && commonDirectory.Some?
    && tableLocation.Some?
    && (tableLocation == commonDirectory || fs.isSubDirectory(tableLocation.value, commonDirectory.value))
  }

  /** The size a partition adds to the sum: only an existing, located partition whose directory exists under commonDir. */
  function PartitionSize(p: Option<Partition>, commonDir: string, fs: FileSystem): (r: Result<nat, Exception>)
    ensures p.None? || p.value.location.None? ==> r == Success(0)
    ensures p.Some? && p.value.location.Some? ==>
      var loc := p.value.location.value;
      r == if loc == "" then Failure(IllegalArgumentException)
           else if fs.isSubDirectory(commonDir, loc) && fs.dirExists(loc) then Success(fs.size(loc))
           else Success(0)
    ensures r.Success? && r.value > 0 ==>
      p.Some? && p.value.location.Some? && fs.isSubDirectory(commonDir, p.value.location.value) && fs.dirExists(p.value.location.value)
  {
    if p.None? || p.value.location.None? then Success(0)
    else
      var partitionLocation :- PathOf(p.value.location);
      if fs.isSubDirectory(commonDir, partitionLocation) && fs.dirExists(partitionLocation)
      then Success(fs.size(partitionLocation))
      else Success(0)
  }

  /** The summed size of the named partitions that lie in the common directory, or the first failure. */
  function SizeInCommonDirectory(names: seq<string>, srcPartition: string -> Option<Partition>, commonDir: string,
                                 fs: FileSystem): Result<nat, Exception>
  {
    if |names| == 0 then Success(0)
    else
      var first :- PartitionSize(srcPartition(names[0]), commonDir, fs);
      var rest :- SizeInCommonDirectory(names[1..], srcPartition, commonDir, fs);
      Success(first + rest)
  }

  /** When no partition qualifies, the summed size is zero. */
  lemma {:induction false} SizeZeroWhenNoneQualifies(names: seq<string>, srcPartition: string -> Option<Partition>,
                                                     commonDir: string, fs: FileSystem)
    requires forall i :: 0 <= i < |names| ==> PartitionSize(srcPartition(names[i]), commonDir, fs) == Success(0)
    ensures SizeInCommonDirectory(names, srcPartition, commonDir, fs) == Success(0)
  {
    if |names| > 0 {
      assert forall i :: 0 <= i < |names| - 1 ==> names[1..][i] == names[i + 1];
      SizeZeroWhenNoneQualifies(names[1..], srcPartition, commonDir, fs);
      assert PartitionSize(srcPartition(names[0]), commonDir, fs) == Success(0);
    }
  }

  /** A partition that exists with an empty location, on which new Path throws. */
  predicate EmptyLocation(p: Option<Partition>) {
    p.Some? && p.value.location == Some("")
  }

  /** The sum fails exactly when some listed partition exists with an empty location, and then with new Path's error. */
  lemma {:induction false} SizeFailsIffEmptyLocation(names: seq<string>, srcPartition: string -> Option<Partition>,
                                                     commonDir: string, fs: FileSystem)
    ensures SizeInCommonDirectory(names, srcPartition, commonDir, fs).Failure? <==>
      exists i :: 0 <= i < |names| && EmptyLocation(srcPartition(names[i]))
    ensures SizeInCommonDirectory(names, srcPartition, commonDir, fs).Failure? ==>
      SizeInCommonDirectory(names, srcPartition, commonDir, fs).error == IllegalArgumentException
  {
    if |names| > 0 {
      var rest := names[1..];
      SizeFailsIffEmptyLocation(rest, srcPartition, commonDir, fs);
      if exists i :: 0 <= i < |rest| && EmptyLocation(srcPartition(rest[i])) {
        var i :| 0 <= i < |rest| && EmptyLocation(srcPartition(rest[i]));
        assert rest[i] == names[i + 1];
      }
      if exists i :: 0 <= i < |names| && EmptyLocation(srcPartition(names[i])) {
        var i :| 0 <= i < |names| && EmptyLocation(srcPartition(names[i]));
        if i > 0 {
          assert rest[i - 1] == names[i];
        }
      }
    }
  }

  /** A running sum added to a result that may have failed. */
  function AddTo(sum: nat, r: Result<nat, Exception>): Result<nat, Exception> {
    if r.Success? then Success(sum + r.value) else r
  }

  /** The loop that sums sizeOfPartitionsInCommonDirectory. */
  method SumSizeInCommonDirectory(names: seq<string>, srcPartition: string -> Option<Partition>, commonDir: string,
                                  fs: FileSystem)
    returns (r: Result<nat, Exception>)
    ensures r == SizeInCommonDirectory(names, srcPartition, commonDir, fs)
  {
    var sum: nat := 0;
    var i := 0;
    while i < |names|
      invariant 0 <= i <= |names|
      invariant SizeInCommonDirectory(names, srcPartition, commonDir, fs) ==
        AddTo(sum, SizeInCommonDirectory(names[i..], srcPartition, commonDir, fs))
    {
      SizeStep(names, srcPartition, commonDir, fs, i, sum);
      var size :- PartitionSize(srcPartition(names[i]), commonDir, fs);
      sum := sum + size;
      i := i + 1;
    }
    return Success(sum);
  }

  /** A running sum plus the sum from position i is the i-th partition's failure, or the sum from i + 1 once its size is added. */
  lemma SizeStep(names: seq<string>, srcPartition: string -> Option<Partition>, commonDir: string, fs: FileSystem,
                 i: nat, sum: nat)
    requires i < |names|
    ensures var size := PartitionSize(srcPartition(names[i]), commonDir, fs);
      AddTo(sum, SizeInCommonDirectory(names[i..], srcPartition, commonDir, fs)) ==
        if size.Failure? then Failure(size.error)
        else AddTo(sum + size.value, SizeInCommonDirectory(names[i + 1..], srcPartition, commonDir, fs))
  {
    assert names[i..][1..] == names[i + 1..];
    assert names[i..][0] == names[i];
  }

  /** Whether the common directory is copied first: it does not exceed twice the partitions' size. */
  function DoOptimisticCopy(task: CopyPartitionsTask, tableLocation: Option<string>,
                            srcPartition: string -> Option<Partition>, fs: FileSystem): (r: Result<bool, Exception>)
    ensures r == Success(true) ==> OptimisticCandidate(task.commonDirectory, tableLocation, fs)
    ensures !OptimisticCandidate(task.commonDirectory, tableLocation, fs) ==> r == Success(false)
    ensures OptimisticCandidate(task.commonDirectory, tableLocation, fs) ==>
      var size := SizeInCommonDirectory(task.partitionNames, srcPartition, task.commonDirectory.value, fs);
      && (size.Failure? ==> r == Failure(size.error))
      && (size.Success? ==> r == Success(!fs.exceedsSize(task.commonDirectory.value, size.value * 2)))
  {
    if OptimisticCandidate(task.commonDirectory, tableLocation, fs) then
      var size :- SizeInCommonDirectory(task.partitionNames, srcPartition, task.commonDirectory.value, fs);
      Success(!fs.exceedsSize(task.commonDirectory.value, size * 2))
    else Success(false)
  }

  /** The staging directory destTmp/distcp_tmp/<source cluster>/optimistic_copy/<n>. */
  function StagingDirectory(task: CopyPartitionsTask, randomLong: int): string {
    task.destCluster.tmpDir + "/distcp_tmp/" + task.srcCluster.name + "/optimistic_copy/" + IntToString(randomLong)
  }

  /**
   * Where the common directory is staged, or None when the copy is skipped:
   * the data is not to be copied, the directory does not exist, or the
   * destination already holds an equal directory.
   */
  function StagingTarget(task: CopyPartitionsTask, commonDir: string, fs: FileSystem, randomLong: int)
    : (r: Result<Option<string>, Exception>)
    ensures r.Success? && r.value.Some? ==> r.value == Some(StagingDirectory(task, randomLong)) && fs.dirExists(commonDir)
    ensures !fs.dirExists(commonDir) ==> r.Failure? || r.value.None?
    ensures var dest := ModifyLocation(task.srcCluster.fsRoot, task.destCluster.fsRoot, commonDir);
      && (dest.Failure? ==> r == Failure(dest.error))
      && (dest.Success? ==>
            && r.Success?
            && (r.value.Some? <==> ShouldCopyData(dest.value) && fs.dirExists(commonDir) && !fs.equalDirs(commonDir, dest.value)))
  {
    var destinationLocation :- ModifyLocation(task.srcCluster.fsRoot, task.destCluster.fsRoot, commonDir);
    if !ShouldCopyData(destinationLocation) then Success(None)
    else if !fs.dirExists(commonDir) then Success(None)
    else if fs.equalDirs(commonDir, destinationLocation) then Success(None)
    else Success(Some(StagingDirectory(task, randomLong)))
  }

  /** The URI path's components, without the leading empty one of an absolute path. */
  function PathElements(uriPath: string): (r: Result<seq<string>, Exception>)
    ensures r.Failure? <==> Split(uriPath, '/') == []
  {
    var elements := Split(uriPath, '/');
    if |elements| == 0 then Failure(IndexOutOfBoundsException)
    else if elements[0] == "" then Success(elements[1..])
    else Success(elements)
  }

  /** The staged copy's path: destDir followed by each component of the source's URI path. */
  function StructuredDestination(srcPath: string, destDir: string): Result<string, Exception> {
    var elements :- PathElements(ParseUri(srcPath).path);
    Success(Join("/", [destDir] + elements))
  }

  /**
   * copyWithStructure: builds destDir/a/b/c for a source /a/b/c and copies
   * the source directory there, answering the copier's byte count.
   */
  method CopyWithStructure(srcPath: string, destDir: string, fs: FileSystem) returns (r: Result<nat, Exception>)
    ensures StructuredDestination(srcPath, destDir).Failure? ==> r == Failure(StructuredDestination(srcPath, destDir).error)
    ensures StructuredDestination(srcPath, destDir).Success? ==>
      r == Success(fs.copyDirectory(srcPath, StructuredDestination(srcPath, destDir).value))
  {
    var pathElements := Split(ParseUri(srcPath).path, '/');
    if |pathElements| == 0 {
      return Failure(IndexOutOfBoundsException);
    }
    if pathElements[0] == "" {
      pathElements := pathElements[1..];
    }
    assert PathElements(ParseUri(srcPath).path) == Success(pathElements);
    var dirBuilder := AppendElements(destDir, pathElements);
    return Success(fs.copyDirectory(srcPath, dirBuilder));
  }

  /** The loop of copyWithStructure: appends each element to destDir after a '/'. */
  method AppendElements(destDir: string, pathElements: seq<string>) returns (dirBuilder: string)
    ensures dirBuilder == Join("/", [destDir] + pathElements)
  {
    dirBuilder := destDir;
    var i := 0;
    while i < |pathElements|
      invariant 0 <= i <= |pathElements|
      invariant dirBuilder == Join("/", [destDir] + pathElements[..i])
    {
      JoinAppend("/", [destDir] + pathElements[..i], pathElements[i]);
      assert [destDir] + pathElements[..i + 1] == [destDir] + pathElements[..i] + [pathElements[i]];
      dirBuilder := dirBuilder + "/" + pathElements[i];
      i := i + 1;
    }
    assert pathElements[..i] == pathElements;
  }

  /**
   * For an absolute URI path of non-empty components, the staged copy keeps
   * the whole path below destDir.
   */
  lemma StructuredDestinationKeepsPath(destDir: string, components: seq<string>)
    requires |components| >= 1 && components[|components| - 1] != ""
    requires forall i :: 0 <= i < |components| ==> '/' !in components[i]
    ensures PathElements("/" + Join("/", components)) == Success(components)
    ensures Join("/", [destDir] + components) == destDir + "/" + Join("/", components)
  {
    AbsolutePathSplits(components);
    assert ([""] + components)[1..] == components;
    JoinCons("/", destDir, components);
  }

  /** An absolute path /c1/.../cn splits on '/' into "", c1, ..., cn. */
  lemma AbsolutePathSplits(components: seq<string>)
    requires |components| >= 1 && components[|components| - 1] != ""
    requires forall i :: 0 <= i < |components| ==> '/' !in components[i]
    ensures Split("/" + Join("/", components), '/') == [""] + components
  {
    var pieces := [""] + components;
    assert pieces[|pieces| - 1] == components[|components| - 1];
    forall i | 0 <= i < |pieces|
      ensures '/' !in pieces[i]
    {
      if i > 0 {
        assert pieces[i] == components[i - 1];
      }
    }
    JoinCons("/", "", components);
    SplitJoin(pieces, '/');
  }

  /** The jobs launched for the named partitions: one per partition that exists on the source, in order. */
  function PartitionJobs(task: CopyPartitionsTask, names: seq<string>, srcPartition: string -> Option<Partition>,
                         optimisticCopyDir: Option<string>): (r: seq<PartitionJob>)
    ensures |r| <= |names|
    ensures forall j :: j in r ==>
      j.optimisticCopyDir == optimisticCopyDir && j.spec.IsPartition() && j.spec.TableSpec() == TableSpecOf(task.srcTableSpec.db, task.srcTableSpec.table)
  {
    if |names| == 0 then []
    else
      var before := PartitionJobs(task, names[..|names| - 1], srcPartition, optimisticCopyDir);
      var name := names[|names| - 1];
      match srcPartition(name)
      case None => before
      case Some(p) =>
        before + [PartitionJob(PartitionSpecOf(task.srcTableSpec.db, task.srcTableSpec.table, name), p.location, optimisticCopyDir)]
  }

  /** A partition gets a job exactly when it exists on the source; missing ones are skipped. */
  lemma {:induction false} PartitionJobsSkipMissing(task: CopyPartitionsTask, names: seq<string>,
                                                    srcPartition: string -> Option<Partition>, optimisticCopyDir: Option<string>)
    ensures forall n :: n in names && srcPartition(n).Some? ==>
      PartitionJob(PartitionSpecOf(task.srcTableSpec.db, task.srcTableSpec.table, n), srcPartition(n).value.location, optimisticCopyDir)
        in PartitionJobs(task, names, srcPartition, optimisticCopyDir)
    ensures forall j :: j in PartitionJobs(task, names, srcPartition, optimisticCopyDir) ==>
      j.spec.partition.value in names && srcPartition(j.spec.partition.value).Some?
  {
    if |names| > 0 {
      PartitionJobsSkipMissing(task, names[..|names| - 1], srcPartition, optimisticCopyDir);
      assert names == names[..|names| - 1] + [names[|names| - 1]];
    }
  }

  /** The bytes the finished sub-jobs report, summed. */
  function TotalJobBytes(jobs: seq<PartitionJob>, jobBytes: ObjectSpec -> nat): (r: nat)
    ensures |jobs| == 0 ==> r == 0
  {
    if |jobs| == 0 then 0 else TotalJobBytes(jobs[..|jobs| - 1], jobBytes) + jobBytes(jobs[|jobs| - 1].spec)
  }

  /** Summing the bytes of two runs of jobs adds their totals. */
  lemma {:induction false} TotalJobBytesAppend(a: seq<PartitionJob>, b: seq<PartitionJob>, jobBytes: ObjectSpec -> nat)
    ensures TotalJobBytes(a + b, jobBytes) == TotalJobBytes(a, jobBytes) + TotalJobBytes(b, jobBytes)
    decreases |b|
  {
    if |b| == 0 {
      assert a + b == a;
    } else {
      assert (a + b)[..|a + b| - 1] == a + b[..|b| - 1];
      assert (a + b)[|a + b| - 1] == b[|b| - 1];
      TotalJobBytesAppend(a, b[..|b| - 1], jobBytes);
    }
  }

  /** The bytes one listed name's sub-job reports: nothing when the partition is missing on the source. */
  function NameBytes(task: CopyPartitionsTask, name: string, srcPartition: string -> Option<Partition>,
                     jobBytes: ObjectSpec -> nat): nat {
    if srcPartition(name).Some? then jobBytes(PartitionSpecOf(task.srcTableSpec.db, task.srcTableSpec.table, name)) else 0
  }

  /** The bytes of the existing listed partitions' sub-jobs, name by name from the first. */
  function ExistingPartitionBytes(task: CopyPartitionsTask, names: seq<string>, srcPartition: string -> Option<Partition>,
                                  jobBytes: ObjectSpec -> nat): nat {
    if |names| == 0 then 0
    else NameBytes(task, names[0], srcPartition, jobBytes) + ExistingPartitionBytes(task, names[1..], srcPartition, jobBytes)
  }

  lemma {:induction false} ExistingPartitionBytesSnoc(task: CopyPartitionsTask, names: seq<string>, name: string,
                                                      srcPartition: string -> Option<Partition>, jobBytes: ObjectSpec -> nat)
    ensures ExistingPartitionBytes(task, names + [name], srcPartition, jobBytes) ==
      ExistingPartitionBytes(task, names, srcPartition, jobBytes) + NameBytes(task, name, srcPartition, jobBytes)
  {
    if |names| == 0 {
      assert ([name])[1..] == [];
    } else {
      assert (names + [name])[1..] == names[1..] + [name];
      assert (names + [name])[0] == names[0];
      ExistingPartitionBytesSnoc(task, names[1..], name, srcPartition, jobBytes);
    }
  }

  /**
   * The launched jobs report, together, the bytes of the sub-job of each
   * listed partition that exists, whatever the staging directory.
   */
  lemma {:induction false} PartitionJobsBytes(task: CopyPartitionsTask, names: seq<string>,
                                              srcPartition: string -> Option<Partition>, optimisticCopyDir: Option<string>,
                                              jobBytes: ObjectSpec -> nat)
    ensures TotalJobBytes(PartitionJobs(task, names, srcPartition, optimisticCopyDir), jobBytes) ==
      ExistingPartitionBytes(task, names, srcPartition, jobBytes)
  {
    if |names| > 0 {
      var prefix := names[..|names| - 1];
      var name := names[|names| - 1];
      assert names == prefix + [name];
      PartitionJobsBytes(task, prefix, srcPartition, optimisticCopyDir, jobBytes);
      ExistingPartitionBytesSnoc(task, prefix, name, srcPartition, jobBytes);
      var before := PartitionJobs(task, prefix, srcPartition, optimisticCopyDir);
      var added := if srcPartition(name).None? then []
        else [PartitionJob(PartitionSpecOf(task.srcTableSpec.db, task.srcTableSpec.table, name),
                           srcPartition(name).value.location, optimisticCopyDir)];
      assert PartitionJobs(task, names, srcPartition, optimisticCopyDir) == before + added;
      TotalJobBytesAppend(before, added, jobBytes);
      if added != [] {
        assert added[..0] == [];
      }
    }
  }

  /** One more name adds its job when the partition exists on the source. */
  lemma PartitionJobsStep(task: CopyPartitionsTask, names: seq<string>, srcPartition: string -> Option<Partition>,
                          optimisticCopyDir: Option<string>, i: nat)
    requires i < |names|
    ensures PartitionJobs(task, names[..i + 1], srcPartition, optimisticCopyDir) ==
      PartitionJobs(task, names[..i], srcPartition, optimisticCopyDir) +
        if srcPartition(names[i]).None? then []
        else [PartitionJob(PartitionSpecOf(task.srcTableSpec.db, task.srcTableSpec.table, names[i]),
                           srcPartition(names[i]).value.location, optimisticCopyDir)]
  {
    assert names[..i + 1][..i] == names[..i];
    assert names[..i + 1][i] == names[i];
  }

  /** The loop that creates one copy job per existing partition. */
  method LaunchPartitionJobs(task: CopyPartitionsTask, srcPartition: string -> Option<Partition>,
                             optimisticCopyDir: Option<string>)
    returns (jobs: seq<PartitionJob>, expectedCopyCount: nat)
    ensures jobs == PartitionJobs(task, task.partitionNames, srcPartition, optimisticCopyDir)
    ensures expectedCopyCount == |jobs|
  {
    var names := task.partitionNames;
    jobs := [];
    expectedCopyCount := 0;
    var i := 0;
    while i < |names|
      invariant 0 <= i <= |names|
      invariant jobs == PartitionJobs(task, names[..i], srcPartition, optimisticCopyDir)
      invariant expectedCopyCount == |jobs|
    {
      PartitionJobsStep(task, names, srcPartition, optimisticCopyDir, i);
      var srcPartitionOfName := srcPartition(names[i]);
      var partitionSpec := PartitionSpecOf(task.srcTableSpec.db, task.srcTableSpec.table, names[i]);
      if srcPartitionOfName.None? {
        i := i + 1;
        continue;
      }
      jobs := jobs + [PartitionJob(partitionSpec, srcPartitionOfName.value.location, optimisticCopyDir)];
      expectedCopyCount := expectedCopyCount + 1;
      i := i + 1;
    }
    assert names[..i] == names;
  }

  /** What the optimistic copy step leaves: the staging directory, if any, and the bytes its copy reported. */
  datatype Staged = Staged(dir: Option<string>, bytes: nat)

  /**
   * The optimistic copy step of runTask: the staging directory and the
   * bytes its copy reported, nothing when the copy is not wanted or the
   * target says to skip it, or the failure of the target or of the copy.
   */
  function Staging(task: CopyPartitionsTask, doOptimisticCopy: bool, fs: FileSystem, randomLong: int)
    : Result<Staged, Exception>
  {
    if task.commonDirectory.None? || !doOptimisticCopy then Success(Staged(None, 0))
    else
      var commonDir := task.commonDirectory.value;
      var target :- StagingTarget(task, commonDir, fs, randomLong);
      if target.None? then Success(Staged(None, 0))
      else
        var dest :- StructuredDestination(commonDir, target.value);
        Success(Staged(target, fs.copyDirectory(commonDir, dest)))
  }

  /**
   * The staging step case by case: nothing when the copy is not wanted or
   * the target skips it, the target's or the structured path's failure,
   * or the copy into the staging directory.
   */
  lemma StagingCases(task: CopyPartitionsTask, fs: FileSystem, randomLong: int)
    ensures Staging(task, false, fs, randomLong) == Success(Staged(None, 0))
    ensures task.commonDirectory.Some? ==>
      var commonDir := task.commonDirectory.value;
      var t := StagingTarget(task, commonDir, fs, randomLong);
      && (t.Failure? ==> Staging(task, true, fs, randomLong) == Failure(t.error))
      && (t == Success(None) ==> Staging(task, true, fs, randomLong) == Success(Staged(None, 0)))
      && (t.Success? && t.value.Some? ==>
            var dest := StructuredDestination(commonDir, t.value.value);
            && (dest.Failure? ==> Staging(task, true, fs, randomLong) == Failure(dest.error))
            && (dest.Success? ==> Staging(task, true, fs, randomLong) == Success(Staged(t.value, fs.copyDirectory(commonDir, dest.value)))))
  {
  }

  /** What runTask answers, from the source table, the partitions, the file system and the sub-jobs' bytes. */
  function RunOutcome(task: CopyPartitionsTask, freshSrcTable: Option<Table>, srcPartition: string -> Option<Partition>,
                      fs: FileSystem, randomLong: int, jobBytes: ObjectSpec -> nat): Result<Outcome, Exception>
  {
    if freshSrcTable.None? || !IsPartitioned(freshSrcTable.value) then Success(Outcome(RunInfo(NotCompletable, 0), None, []))
    else
      var doOptimisticCopy :- DoOptimisticCopy(task, freshSrcTable.value.location, srcPartition, fs);
      AfterStaging(task, srcPartition, Staging(task, doOptimisticCopy, fs, randomLong), jobBytes)
  }

  /** For a partitioned table, runTask answers the size check's failure or goes on to stage. */
  lemma RunOutcomePartitioned(task: CopyPartitionsTask, freshSrcTable: Option<Table>, srcPartition: string -> Option<Partition>,
                              fs: FileSystem, randomLong: int, jobBytes: ObjectSpec -> nat)
    requires freshSrcTable.Some? && IsPartitioned(freshSrcTable.value)
    ensures var d := DoOptimisticCopy(task, freshSrcTable.value.location, srcPartition, fs);
      RunOutcome(task, freshSrcTable, srcPartition, fs, randomLong, jobBytes) ==
        if d.Failure? then Failure(d.error) else AfterStaging(task, srcPartition, Staging(task, d.value, fs, randomLong), jobBytes)
  {
  }

  /** runTask once the staging step has answered: its failure, or the launched jobs. */
  function AfterStaging(task: CopyPartitionsTask, srcPartition: string -> Option<Partition>,
                        staging: Result<Staged, Exception>, jobBytes: ObjectSpec -> nat): Result<Outcome, Exception>
  {
    var staged :- staging;
    Success(Launched(task, srcPartition, staged, jobBytes))
  }

  /** The successful run once staging is done: the jobs of the existing partitions and every byte copied. */
  function Launched(task: CopyPartitionsTask, srcPartition: string -> Option<Partition>,
                    staged: Staged, jobBytes: ObjectSpec -> nat): Outcome
  {
    var jobs := PartitionJobs(task, task.partitionNames, srcPartition, staged.dir);
    Outcome(RunInfo(Successful, staged.bytes + TotalJobBytes(jobs, jobBytes)), staged.dir, jobs)
  }

  /**
   * runTask past the staging step: the step's failure is thrown; otherwise
   * every existing partition's job is launched with the staging directory,
   * and the task reports the staged bytes plus the bytes of each existing
   * partition's sub-job.
   */
  lemma AfterStagingCases(task: CopyPartitionsTask, srcPartition: string -> Option<Partition>,
                          staging: Result<Staged, Exception>, jobBytes: ObjectSpec -> nat)
    ensures staging.Failure? ==> AfterStaging(task, srcPartition, staging, jobBytes) == Failure(staging.error)
    ensures staging.Success? ==>
      AfterStaging(task, srcPartition, staging, jobBytes) ==
        Success(Outcome(RunInfo(Successful, staging.value.bytes + ExistingPartitionBytes(task, task.partitionNames, srcPartition, jobBytes)),
                        staging.value.dir, PartitionJobs(task, task.partitionNames, srcPartition, staging.value.dir)))
  {
    if staging.Success? {
      LaunchedBytes(task, srcPartition, staging.value, jobBytes);
    }
  }

  /** The bytes of a successful run are the staged bytes plus those of every existing partition. */
  lemma LaunchedBytes(task: CopyPartitionsTask, srcPartition: string -> Option<Partition>,
                      staged: Staged, jobBytes: ObjectSpec -> nat)
    ensures Launched(task, srcPartition, staged, jobBytes).info.bytesCopied ==
      staged.bytes + ExistingPartitionBytes(task, task.partitionNames, srcPartition, jobBytes)
  {
    PartitionJobsBytes(task, task.partitionNames, srcPartition, staged.dir, jobBytes);
  }

  /** Without the optimistic copy, runTask launches the jobs with no staging directory and counts only their bytes. */
  lemma RunOutcomeWithoutCopy(task: CopyPartitionsTask, freshSrcTable: Option<Table>, srcPartition: string -> Option<Partition>,
                              fs: FileSystem, randomLong: int, jobBytes: ObjectSpec -> nat)
    requires freshSrcTable.Some? && IsPartitioned(freshSrcTable.value)
    requires DoOptimisticCopy(task, freshSrcTable.value.location, srcPartition, fs) == Success(false)
    ensures RunOutcome(task, freshSrcTable, srcPartition, fs, randomLong, jobBytes) ==
      Success(Outcome(RunInfo(Successful, ExistingPartitionBytes(task, task.partitionNames, srcPartition, jobBytes)),
                      None, PartitionJobs(task, task.partitionNames, srcPartition, None)))
  {
    RunOutcomePartitioned(task, freshSrcTable, srcPartition, fs, randomLong, jobBytes);
    assert Staging(task, false, fs, randomLong) == Success(Staged(None, 0));
    AfterStagingCases(task, srcPartition, Success(Staged(None, 0)), jobBytes);
  }

  /**
   * The failures runTask throws for a partitioned source table: that of
   * the size sum, that of the staging target, and that of the structured
   * copy, each only when the steps before it succeeded.
   */
  lemma RunOutcomeFails(task: CopyPartitionsTask, freshSrcTable: Option<Table>, srcPartition: string -> Option<Partition>,
                        fs: FileSystem, randomLong: int, jobBytes: ObjectSpec -> nat)
    requires freshSrcTable.Some? && IsPartitioned(freshSrcTable.value)
    ensures var d := DoOptimisticCopy(task, freshSrcTable.value.location, srcPartition, fs);
      d.Failure? ==> RunOutcome(task, freshSrcTable, srcPartition, fs, randomLong, jobBytes) == Failure(d.error)
    ensures DoOptimisticCopy(task, freshSrcTable.value.location, srcPartition, fs) == Success(true) ==>
      var t := StagingTarget(task, task.commonDirectory.value, fs, randomLong);
      t.Failure? ==> RunOutcome(task, freshSrcTable, srcPartition, fs, randomLong, jobBytes) == Failure(t.error)
    ensures DoOptimisticCopy(task, freshSrcTable.value.location, srcPartition, fs) == Success(true) ==>
      var t := StagingTarget(task, task.commonDirectory.value, fs, randomLong);
      t.Success? && t.value.Some? ==>
        var dest := StructuredDestination(task.commonDirectory.value, t.value.value);
        dest.Failure? ==> RunOutcome(task, freshSrcTable, srcPartition, fs, randomLong, jobBytes) == Failure(dest.error)
  {
    RunOutcomePartitioned(task, freshSrcTable, srcPartition, fs, randomLong, jobBytes);
    StagingCases(task, fs, randomLong);
    AfterStagingCases(task, srcPartition, Staging(task, true, fs, randomLong), jobBytes);
  }

  /**
   * What runTask's answer says about the run: a successful run launched
   * the jobs of the existing partitions and counts at least their bytes; a
   * staging directory was used only when the optimistic copy was wanted and
   * the target named it, and then the staged bytes are counted too; no
   * optimistic copy means no staging directory.
   */
  lemma RunOutcomeShape(task: CopyPartitionsTask, freshSrcTable: Option<Table>, srcPartition: string -> Option<Partition>,
                        fs: FileSystem, randomLong: int, jobBytes: ObjectSpec -> nat)
    ensures var r := RunOutcome(task, freshSrcTable, srcPartition, fs, randomLong, jobBytes);
      && (freshSrcTable.None? || !IsPartitioned(freshSrcTable.value) ==>
            r == Success(Outcome(RunInfo(NotCompletable, 0), None, [])))
      && (r.Success? && r.value.info.status == Successful ==>
            && freshSrcTable.Some? && IsPartitioned(freshSrcTable.value)
            && r.value.jobs == PartitionJobs(task, task.partitionNames, srcPartition, r.value.optimisticCopyDir)
            && r.value.info.bytesCopied >= TotalJobBytes(r.value.jobs, jobBytes))
    ensures var r := RunOutcome(task, freshSrcTable, srcPartition, fs, randomLong, jobBytes);
      r.Success? && r.value.optimisticCopyDir.Some? ==>
        && DoOptimisticCopy(task, freshSrcTable.value.location, srcPartition, fs) == Success(true)
        && StagingTarget(task, task.commonDirectory.value, fs, randomLong) == Success(r.value.optimisticCopyDir)
        && StructuredDestination(task.commonDirectory.value, r.value.optimisticCopyDir.value).Success?
        && r.value.info.bytesCopied == TotalJobBytes(r.value.jobs, jobBytes) +
             fs.copyDirectory(task.commonDirectory.value,
               StructuredDestination(task.commonDirectory.value, r.value.optimisticCopyDir.value).value)
    ensures freshSrcTable.Some? && IsPartitioned(freshSrcTable.value) &&
            DoOptimisticCopy(task, freshSrcTable.value.location, srcPartition, fs) == Success(false) ==>
      var jobs := PartitionJobs(task, task.partitionNames, srcPartition, None);
      RunOutcome(task, freshSrcTable, srcPartition, fs, randomLong, jobBytes) ==
        Success(Outcome(RunInfo(Successful, TotalJobBytes(jobs, jobBytes)), None, jobs))
  {
  }

  /** The size check of runTask: whether the common directory is copied first. */
  method DecideOptimisticCopy(task: CopyPartitionsTask, tableLocation: Option<string>,
                              srcPartition: string -> Option<Partition>, fs: FileSystem)
    returns (r: Result<bool, Exception>)
    ensures r == DoOptimisticCopy(task, tableLocation, srcPartition, fs)
  {
    var doOptimisticCopy := false;
    if OptimisticCandidate(task.commonDirectory, tableLocation, fs) {
      var commonDir := task.commonDirectory.value;
      var sizeOfPartitionsInCommonDirectory :- SumSizeInCommonDirectory(task.partitionNames, srcPartition, commonDir, fs);
      if !fs.exceedsSize(commonDir, sizeOfPartitionsInCommonDirectory * 2) {
        doOptimisticCopy := true;
      }
    }
    return Success(doOptimisticCopy);
  }

  /** The optimistic copy of runTask: stage the common directory when wanted and not skipped. */
  method StageCommonDirectory(task: CopyPartitionsTask, doOptimisticCopy: bool, fs: FileSystem, randomLong: int)
    returns (r: Result<Staged, Exception>)
    ensures r == Staging(task, doOptimisticCopy, fs, randomLong)
  {
    if task.commonDirectory.None? || !doOptimisticCopy {
      return Success(Staged(None, 0));
    }
    var commonDir := task.commonDirectory.value;
    var target :- StagingTarget(task, commonDir, fs, randomLong);
    if target.None? {
      return Success(Staged(None, 0));
    }
    var bytes :- CopyWithStructure(commonDir, target.value, fs);
    return Success(Staged(target, bytes));
  }

  /**
   * runTask without the polling loop: a missing or unpartitioned source
   * table is not completable; otherwise the common directory may be staged,
   * one job per existing partition is launched, and once every job has
   * finished the task succeeds with the staged bytes plus the jobs' bytes.
   */
  method RunTask(task: CopyPartitionsTask, freshSrcTable: Option<Table>, srcPartition: string -> Option<Partition>,
                 fs: FileSystem, randomLong: int, jobBytes: ObjectSpec -> nat)
    returns (r: Result<Outcome, Exception>)
    ensures r == RunOutcome(task, freshSrcTable, srcPartition, fs, randomLong, jobBytes)
    ensures freshSrcTable.None? || !IsPartitioned(freshSrcTable.value) ==>
      r == Success(Outcome(RunInfo(NotCompletable, 0), None, []))
    ensures r.Success? && r.value.info.status == Successful ==>
      && freshSrcTable.Some? && IsPartitioned(freshSrcTable.value)
      && r.value.jobs == PartitionJobs(task, task.partitionNames, srcPartition, r.value.optimisticCopyDir)
      && r.value.info.bytesCopied >= TotalJobBytes(r.value.jobs, jobBytes)
    ensures r.Success? && r.value.optimisticCopyDir.Some? ==>
      && DoOptimisticCopy(task, freshSrcTable.value.location, srcPartition, fs) == Success(true)
      && StagingTarget(task, task.commonDirectory.value, fs, randomLong) == Success(r.value.optimisticCopyDir)
      && StructuredDestination(task.commonDirectory.value, r.value.optimisticCopyDir.value).Success?
      && r.value.info.bytesCopied == TotalJobBytes(r.value.jobs, jobBytes) +
           fs.copyDirectory(task.commonDirectory.value,
             StructuredDestination(task.commonDirectory.value, r.value.optimisticCopyDir.value).value)
    ensures freshSrcTable.Some? && IsPartitioned(freshSrcTable.value) &&
            DoOptimisticCopy(task, freshSrcTable.value.location, srcPartition, fs) == Success(false) ==>
      var jobs := PartitionJobs(task, task.partitionNames, srcPartition, None);
      r == Success(Outcome(RunInfo(Successful, TotalJobBytes(jobs, jobBytes)), None, jobs))
  {
    if freshSrcTable.None? {
      r := Success(Outcome(RunInfo(NotCompletable, 0), None, []));
      RunOutcomeShape(task, freshSrcTable, srcPartition, fs, randomLong, jobBytes);
      return;
    }
    var table := freshSrcTable.value;
    if !IsPartitioned(table) {
      r := Success(Outcome(RunInfo(NotCompletable, 0), None, []));
      RunOutcomeShape(task, freshSrcTable, srcPartition, fs, randomLong, jobBytes);
      return;
    }
    r := RunPartitioned(task, table, srcPartition, fs, randomLong, jobBytes);
    RunOutcomeShape(task, freshSrcTable, srcPartition, fs, randomLong, jobBytes);
  }

  /** runTask past the table check: stage, launch the jobs, wait for them and add up their bytes. */
  method RunPartitioned(task: CopyPartitionsTask, table: Table, srcPartition: string -> Option<Partition>,
                        fs: FileSystem, randomLong: int, jobBytes: ObjectSpec -> nat)
    returns (r: Result<Outcome, Exception>)
    requires IsPartitioned(table)
    ensures r == RunOutcome(task, Some(table), srcPartition, fs, randomLong, jobBytes)
  {
    RunOutcomePartitioned(task, Some(table), srcPartition, fs, randomLong, jobBytes);
    var doOptimisticCopy :- DecideOptimisticCopy(task, table.location, srcPartition, fs);
    var staging := StageCommonDirectory(task, doOptimisticCopy, fs, randomLong);
    var staged :- staging;
    var optimisticCopyDir := staged.dir;
    var jobs, expectedCopyCount := LaunchPartitionJobs(task, srcPartition, optimisticCopyDir);
    // Every launched job has finished and reported its bytes.
    var bytesCopied := staged.bytes + TotalJobBytes(jobs, jobBytes);
    r := Success(Outcome(RunInfo(Successful, bytesCopied), optimisticCopyDir, jobs));
    assert r.value == Launched(task, srcPartition, staged, jobBytes);
  }

  datatype LockType = Shared | Exclusive

  datatype Lock = Lock(lockType: LockType, name: string)

  /** The locks runTask needs: the table shared, each listed partition exclusive. */
  function RequiredLocks(task: CopyPartitionsTask): set<Lock> {
    {Lock(Shared, SpecToString(task.srcTableSpec))} +
    set n | n in task.partitionNames :: Lock(Exclusive, SpecToString(PartitionSpecOf(task.srcTableSpec.db, task.srcTableSpec.table, n)))
  }

  /** getRequiredLocks: the loop adding the locks to the lock set. */
  method GetRequiredLocks(task: CopyPartitionsTask) returns (lockSet: set<Lock>)
    ensures lockSet == RequiredLocks(task)
  {
    var names := task.partitionNames;
    lockSet := {Lock(Shared, SpecToString(task.srcTableSpec))};
    var i := 0;
    while i < |names|
      invariant 0 <= i <= |names|
      invariant lockSet == {Lock(Shared, SpecToString(task.srcTableSpec))} +
        set n | n in names[..i] :: Lock(Exclusive, SpecToString(PartitionSpecOf(task.srcTableSpec.db, task.srcTableSpec.table, n)))
    {
      assert names[..i + 1] == names[..i] + [names[i]];
      var partitionSpec := PartitionSpecOf(task.srcTableSpec.db, task.srcTableSpec.table, names[i]);
      lockSet := lockSet + {Lock(Exclusive, SpecToString(partitionSpec))};
      i := i + 1;
    }
    assert names[..i] == names;
  }

  /**
   * The lock set holds exactly one shared lock, on the table, and exactly
   * one exclusive lock per listed partition: distinct partitions lock
   * distinct names.
   */
  lemma RequiredLocksShape(task: CopyPartitionsTask, n1: string, n2: string)
    requires !task.srcTableSpec.IsPartition()
    ensures forall l :: l in RequiredLocks(task) && l.lockType == Shared ==> l == Lock(Shared, SpecToString(task.srcTableSpec))
    ensures n1 in task.partitionNames ==>
      Lock(Exclusive, SpecToString(PartitionSpecOf(task.srcTableSpec.db, task.srcTableSpec.table, n1))) in RequiredLocks(task)
    ensures n1 != n2 ==>
      SpecToString(PartitionSpecOf(task.srcTableSpec.db, task.srcTableSpec.table, n1)) !=
      SpecToString(PartitionSpecOf(task.srcTableSpec.db, task.srcTableSpec.table, n2))
    ensures Lock(Exclusive, SpecToString(task.srcTableSpec)) !in RequiredLocks(task)
  {
    var db := task.srcTableSpec.db;
    var table := task.srcTableSpec.table;
    assert task.srcTableSpec == TableSpecOf(db, table);
    SpecStringsOfOneTable(db, table, n1, n2);
    forall n | n in task.partitionNames
      ensures SpecToString(PartitionSpecOf(db, table, n)) != SpecToString(task.srcTableSpec)
    {
      SpecStringsOfOneTable(db, table, n, n);
    }
  }
}
