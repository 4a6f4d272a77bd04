/**
 * Stage 2 of the batch Hive copy: for every stage 1 result whose estimate
 * asks for a data copy, the mapper empties the destination directory and
 * emits one file-copy record per visible file in the source directory.
 *
 * The file system is a class over a map from path to entry; the mapper's
 * output is returned as a sequence of (shuffle key, record) pairs.
 */
module DirectoryCopy {
  import opened Wrappers
  import opened JavaStrings
  import opened HiveObjects
  import opened TaskEstimates
  import FolderCompare

  /** What a path names in the file system. */
  datatype Entry = Directory | File(len: int, modificationTime: int)

  /** path lies at or below root. */
  predicate Within(root: string, path: string) {
    path == root || StartsWith(path, root + "/")
  }

  /** path is an entry directly inside the directory parent. */
  predicate ChildOf(parent: string, path: string) {
    |path| > |parent| + 1 && path[..|parent| + 1] == parent + "/" && '/' !in path[|parent| + 1..]
  }

  /** The entries left after a recursive delete of root. */
  function Removed(entries: map<string, Entry>, root: string): (r: map<string, Entry>)
    ensures forall k :: k in r <==> k in entries && !Within(root, k)
    ensures forall k :: k in r ==> r[k] == entries[k]
  {
    map k | k in entries && !Within(root, k) :: entries[k]
  }

  /**
   * listStatus(path, hiddenFileFilter): the visible entries directly in a
   * directory, or a file itself when path names a file and it is visible.
   */
  function Listed(entries: map<string, Entry>, path: string): (r: set<string>)
    ensures forall k :: k in r ==> k in entries && FolderCompare.HiddenFileFilter(k)
    ensures path in entries && entries[path].Directory? ==>
      forall k :: k in r <==> k in entries && ChildOf(path, k) && FolderCompare.HiddenFileFilter(k)
  {
    if path in entries && entries[path].File? then
      if FolderCompare.HiddenFileFilter(path) then {path} else {}
    else
      set k | k in entries && ChildOf(path, k) && FolderCompare.HiddenFileFilter(k)
  }

  /** The listing skips exactly the children whose name starts with "_" or ".". */
  lemma ListedSkipsHidden(entries: map<string, Entry>, dir: string, name: string)
    requires dir in entries && entries[dir].Directory?
    requires |name| > 0 && '/' !in name && dir + "/" + name in entries
    ensures dir + "/" + name in Listed(entries, dir) <==> name[0] != '_' && name[0] != '.'
  {
    var path := dir + "/" + name;
    assert path[..|dir| + 1] == dir + "/";
    assert path[|dir| + 1..] == name;
    assert ChildOf(dir, path);
    FolderCompare.HiddenFileFilterOnName(dir, name);
  }

  /** hdfsCleanDirectory's delete step: dst and everything below it go, when dst exists. */
  function Cleaned(entries: map<string, Entry>, dst: string): (r: map<string, Entry>)
    ensures dst !in r
    ensures forall k :: k in r ==> k in entries && r[k] == entries[k]
    ensures forall k :: k in entries && !Within(dst, k) ==> k in r
  {
    if dst in entries then Removed(entries, dst) else entries
  }

  /**
   * A directory just emptied and recreated holds nothing: its listing is
   * empty, provided nothing lay below it while it was missing.
   */
  lemma RecreatedDirectoryIsEmpty(entries: map<string, Entry>, dst: string)
    requires forall k :: k in entries && Within(dst, k) ==> dst in entries
    ensures Listed(Cleaned(entries, dst)[dst := Directory], dst) == {}
  {
    var after := Cleaned(entries, dst)[dst := Directory];
    forall k | k in after && ChildOf(dst, k)
      ensures false
    {
      assert k[..|dst| + 1] == dst + "/";
      assert StartsWith(k, dst + "/");
    }
  }

  /** The file system the mapper works on. */
  class FileSystem {
    /** Every existing path, with what it names. */
    var entries: map<string, Entry>
    /** Paths the file system refuses to delete or create. */
    var readOnly: set<string>

    constructor(entries: map<string, Entry>, readOnly: set<string>)
      ensures this.entries == entries && this.readOnly == readOnly
    {
      this.entries := entries;
      this.readOnly := readOnly;
    }

    /** exists(path) */
    predicate Exists(path: string)
      reads this
    {
      path in entries
    }

    /** delete(path, true): removes path and everything below it, unless refused. */
    method Delete(path: string) returns (ok: bool)
      modifies this
      ensures ok == (path in old(entries) && path !in readOnly)
      ensures ok ==> entries == Removed(old(entries), path)
      ensures !ok ==> entries == old(entries)
      ensures readOnly == old(readOnly)
    {
      ok := path in entries && path !in readOnly;
      if ok {
        entries := Removed(entries, path);
      }
    }

    /** mkdirs(path): creates the directory, unless refused; an existing entry stays as it is. */
    method Mkdirs(path: string) returns (ok: bool)
      modifies this
      ensures ok == (path !in readOnly && (path !in old(entries) || old(entries)[path].Directory?))
      ensures path !in readOnly && path !in old(entries) ==> entries == old(entries)[path := Directory]
      ensures path in readOnly || path in old(entries) ==> entries == old(entries)
      ensures readOnly == old(readOnly)
    {
      ok := path !in readOnly && (path !in entries || entries[path].Directory?);
      if path !in readOnly && path !in entries {
        entries := entries[path := Directory];
      }
    }

    /**
     * listStatus(path, hiddenFileFilter): each listed path once, with its
     * entry, in no particular order; a missing path throws.
     */
    method ListStatus(path: string) returns (r: Result<seq<(string, Entry)>, Exception>)
      ensures path !in entries <==> r.Failure?
      ensures r.Failure? ==> r.error == IOException("File " + path + " does not exist.")
      ensures r.Success? ==> var listing := r.value;
        && (forall i :: 0 <= i < |listing| ==> listing[i].0 in Listed(entries, path) && listing[i].1 == entries[listing[i].0])
        && (forall k :: k in Listed(entries, path) ==> exists i :: 0 <= i < |listing| && listing[i].0 == k)
        && (forall i, j :: 0 <= i < j < |listing| ==> listing[i].0 != listing[j].0)
    {
      if path !in entries {
        return Failure(IOException("File " + path + " does not exist."));
      }
      var listing := Enumerate(entries, Listed(entries, path));
      return Success(listing);
    }
  }

  /** Each of the wanted paths once, with its entry, in no particular order. */
  method Enumerate(entries: map<string, Entry>, wanted: set<string>) returns (listing: seq<(string, Entry)>)
    requires forall k :: k in wanted ==> k in entries
    ensures forall i :: 0 <= i < |listing| ==> listing[i].0 in wanted && listing[i].1 == entries[listing[i].0]
    ensures forall k :: k in wanted ==> exists i :: 0 <= i < |listing| && listing[i].0 == k
    ensures forall i, j :: 0 <= i < j < |listing| ==> listing[i].0 != listing[j].0
  {
    var remaining := wanted;
    listing := [];
    while remaining != {}
      invariant remaining <= wanted
      invariant forall i :: 0 <= i < |listing| ==> listing[i].0 in wanted && listing[i].0 !in remaining
      invariant forall i :: 0 <= i < |listing| ==> listing[i].1 == entries[listing[i].0]
      invariant forall k :: k in wanted && k !in remaining ==> exists i :: 0 <= i < |listing| && listing[i].0 == k
      invariant forall i, j :: 0 <= i < j < |listing| ==> listing[i].0 != listing[j].0
      decreases remaining
    {
      var k :| k in remaining;
      var before, done := listing, wanted - remaining;
      listing := listing + [(k, entries[k])];
      remaining := remaining - {k};
      forall x | x in wanted && x !in remaining
        ensures exists i :: 0 <= i < |listing| && listing[i].0 == x
      {
        if x == k {
          assert listing[|before|].0 == x;
        } else {
          assert x in done;
          var i :| 0 <= i < |before| && before[i].0 == x;
          assert listing[i].0 == x;
        }
      }
    }
  }

  /** The failure hdfsCleanDirectory reports when the delete is refused. */
  function DeleteFailed(dst: string): Exception {
    IOException("Failed to delete destination directory: " + dst)
  }

  /** The failure hdfsCleanDirectory reports when the directory is missing after mkdirs. */
  function RecreateFailed(dst: string): Exception {
    IOException("Validate recreate destination directory failed: " + dst)
  }

  /**
   * hdfsCleanDirectory: delete dst and everything below it, then, when
   * recreate is set, create dst again as an empty directory. Nothing
   * outside dst changes.
   */
  method CleanDirectory(fs: FileSystem, dst: string, recreate: bool) returns (r: Result<(), Exception>)
    modifies fs
    ensures fs.readOnly == old(fs.readOnly)
    ensures dst in old(fs.entries) && dst in fs.readOnly ==> r == Failure(DeleteFailed(dst)) && fs.entries == old(fs.entries)
    ensures !(dst in old(fs.entries) && dst in fs.readOnly) ==>
      if !recreate then r == Success(()) && fs.entries == Cleaned(old(fs.entries), dst)
      else if dst in fs.readOnly then r == Failure(RecreateFailed(dst)) && fs.entries == old(fs.entries)
      else r == Success(()) && fs.entries == Cleaned(old(fs.entries), dst)[dst := Directory]
    ensures r.Success? ==> (dst in fs.entries <==> recreate)
  {
    if fs.Exists(dst) {
      var deleted := fs.Delete(dst);
      if !deleted {
        return Failure(DeleteFailed(dst));
      }
    }
    if !recreate {
      return Success(());
    }
    var _ := fs.Mkdirs(dst);
    if !fs.Exists(dst) {
      return Failure(RecreateFailed(dst));
    }
    return Success(());
  }

  /** The arguments of the genValue text the mapper emits for one file: source file, destination directory, length. */
  datatype CopyRecord = CopyRecord(srcFile: string, dst: string, len: string)

  /** The record for one listed source entry. */
  function RecordFor(dst: string, path: string, entry: Entry): (r: CopyRecord)
    ensures r.srcFile == path && r.dst == dst
    ensures entry.File? ==> ParseInt(r.len) == Some(entry.len)
  {
    var len := if entry.File? then entry.len else 0;
    IntToStringRoundTrip(len);
    CopyRecord(path, dst, IntToString(len))
  }

  /** The shuffle key for one listed source entry, from its length and modification time. */
  function KeyFor(hashKey: (int, int) -> int, entry: Entry): int {
    if entry.File? then hashKey(entry.len, entry.modificationTime) else hashKey(0, 0)
  }

  /**
   * What updateDirectory leaves behind, from the entries before and after:
   * a read-only dst fails the delete or the recreation and changes nothing;
   * a writable dst is emptied and recreated; the records are one per
   * visible entry of src, keyed by its length and time, each once, and none
   * when src has vanished.
   */
  ghost predicate UpdatedDirectory(before: map<string, Entry>, after: map<string, Entry>, readOnly: set<string>,
                                   src: string, dst: string, hashKey: (int, int) -> int,
                                   r: Result<seq<(int, CopyRecord)>, Exception>) {
    && (dst in before && dst in readOnly ==> r == Failure(DeleteFailed(dst)) && after == before)
    && (dst !in before && dst in readOnly ==> r == Failure(RecreateFailed(dst)) && after == before)
    && (dst !in readOnly ==> after == Cleaned(before, dst)[dst := Directory] && r.Success?)
    && (r.Success? && src !in after ==> r.value == [])
    && (r.Success? && src in after ==> var out := r.value;
        && (forall i :: 0 <= i < |out| ==>
              var path := out[i].1.srcFile;
              && path in Listed(after, src)
              && out[i] == (KeyFor(hashKey, after[path]), RecordFor(dst, path, after[path])))
        && (forall k :: k in Listed(after, src) ==> exists i :: 0 <= i < |out| && out[i].1.srcFile == k)
        && (forall i, j :: 0 <= i < j < |out| ==> out[i].1.srcFile != out[j].1.srcFile))
  }

  /**
   * updateDirectory: empty and recreate dst, then emit one record per
   * visible entry of src. A failure to clean dst is thrown; a failure to
   * list src yields no records.
   */
  method UpdateDirectory(fs: FileSystem, src: string, dst: string, hashKey: (int, int) -> int)
    returns (r: Result<seq<(int, CopyRecord)>, Exception>)
    modifies fs
    ensures fs.readOnly == old(fs.readOnly)
    ensures UpdatedDirectory(old(fs.entries), fs.entries, fs.readOnly, src, dst, hashKey, r)
  {
    var cleaned := CleanDirectory(fs, dst, true);
    if cleaned.Failure? {
      return Failure(cleaned.error);
    }
    var listed := fs.ListStatus(src);
    if listed.Failure? {
      return Success([]);
    }
    var listing := listed.value;
    var out: seq<(int, CopyRecord)> := [];
    var i := 0;
    while i < |listing|
      invariant 0 <= i <= |listing|
      invariant |out| == i
      invariant forall j :: 0 <= j < i ==> out[j] == (KeyFor(hashKey, listing[j].1), RecordFor(dst, listing[j].0, listing[j].1))
    {
      out := out + [(KeyFor(hashKey, listing[i].1), RecordFor(dst, listing[i].0, listing[i].1))];
      i := i + 1;
    }
    assert forall j :: 0 <= j < |out| ==> out[j].1.srcFile == listing[j].0;
    return Success(out);
  }

  /**
   * The map switch: only a partition or unpartitioned-table copy whose
   * estimate asks for a data update names a directory to update, as a
   * (source, destination) pair; a missing path there throws.
   */
  function UpdateRequest(estimate: TaskEstimate): (r: Result<Option<(string, string)>, Exception>)
    ensures r.Success? && r.value.Some? <==>
      && (estimate.taskType == CopyPartition || estimate.taskType == CopyUnpartitionedTable)
      && estimate.updateData && estimate.srcPath.Some? && estimate.destPath.Some?
    ensures r.Success? && r.value.Some? ==> r.value.value == (estimate.srcPath.value, estimate.destPath.value)
    ensures r.Failure? ==> r.error == NoSuchElementException
  {
    match estimate.taskType
    case CopyPartition | CopyUnpartitionedTable =>
      if !estimate.updateData then Success(None)
      else if estimate.srcPath.None? || estimate.destPath.None? then Failure(NoSuchElementException)
      else Success(Some((estimate.srcPath.value, estimate.destPath.value)))
    case _ => Success(None)
  }

  /** Every other estimate, and a copy that needs no data update, leaves the file system alone. */
  lemma UpdateRequestNoOp(estimate: TaskEstimate)
    requires !(estimate.taskType == CopyPartition || estimate.taskType == CopyUnpartitionedTable) || !estimate.updateData
    ensures UpdateRequest(estimate) == Success(None)
  {
  }

  /** map: dispatch one stage 1 result (the estimate and the spec it is for). */
  method Map(fs: FileSystem, estimate: TaskEstimate, spec: ObjectSpec, hashKey: (int, int) -> int)
    returns (r: Result<seq<(int, CopyRecord)>, Exception>)
    modifies fs
    ensures UpdateRequest(estimate).Failure? ==> r == Failure(NoSuchElementException) && fs.entries == old(fs.entries)
    ensures UpdateRequest(estimate) == Success(None) ==> r == Success([]) && fs.entries == old(fs.entries)
    ensures UpdateRequest(estimate).Success? && UpdateRequest(estimate).value.Some? ==>
      var (src, dst) := UpdateRequest(estimate).value.value;
      UpdatedDirectory(old(fs.entries), fs.entries, fs.readOnly, src, dst, hashKey, r)
    ensures fs.readOnly == old(fs.readOnly)
  {
    var request := UpdateRequest(estimate);
    if request.Failure? {
      return Failure(request.error);
    }
    if request.value.None? {
      return Success([]);
    }
    var (src, dst) := request.value.value;
    r := UpdateDirectory(fs, src, dst, hashKey);
  }
}
