/**
 * DestinationObjectFactory: how a source table or partition becomes the
 * object written on the destination cluster. Locations under the source
 * filesystem root are re-rooted under the destination root, blob-store
 * locations are kept, and every object is tagged with the cluster it came
 * from.
 *
 * Locations are strings read the way Hadoop's Path reads them: an optional
 * scheme (text before a ':' that precedes every '/'), an optional authority
 * after "//", and the path.
 */
module DestinationObjects {
  import opened Wrappers
  import opened JavaStrings
  import opened HiveObjects

  /** The parts of a location URI. */
  datatype Uri = Uri(scheme: Option<string>, authority: Option<string>, path: string)

  /** The first '/' at or after from, or |s| when there is none. */
  function SlashFrom(s: string, from: nat): (r: nat)
    requires from <= |s|
    ensures from <= r <= |s|
    ensures r < |s| ==> s[r] == '/'
    ensures forall j :: from <= j < r ==> s[j] != '/'
    decreases |s| - from
  {
    if from == |s| || s[from] == '/' then from else SlashFrom(s, from + 1)
  }

  /**
   * The length of the "scheme:" prefix: the scheme is the text before a ':'
   * that comes before every '/'; 0 when there is no scheme.
   */
  function SchemeLength(s: string, from: nat): (r: nat)
    requires from <= |s|
    requires forall j :: 0 <= j < from ==> s[j] != ':' && s[j] != '/'
    ensures r <= |s|
    ensures r > 0 ==> s[r - 1] == ':' && forall j :: 0 <= j < r - 1 ==> s[j] != ':' && s[j] != '/'
    decreases |s| - from
  {
    if from == |s| || s[from] == '/' then 0
    else if s[from] == ':' then from + 1
    else SchemeLength(s, from + 1)
  }

  /** new Path(s).toUri(): split a location into scheme, authority and path. */
  function ParseUri(s: string): (u: Uri)
    ensures u.scheme.Some? ==> ':' !in u.scheme.value && '/' !in u.scheme.value
    ensures u.authority.Some? ==> '/' !in u.authority.value
    ensures |u.path| <= |s| && s[|s| - |u.path|..] == u.path
  {
    var start := SchemeLength(s, 0);
    var scheme := if start > 0 then Some(s[..start - 1]) else None;
    if OccursAt(s, "//", start) && |s| - start > 2 then
      var authEnd := SlashFrom(s, start + 2);
      Uri(scheme, Some(s[start + 2..authEnd]), s[authEnd..])
    else
      Uri(scheme, None, s[start..])
  }

  /** The "scheme://authority" part of a URI, as Path.toString prints it. */
  function UriPrefix(u: Uri): string {
    (if u.scheme.Some? then u.scheme.value + ":" else "") +
    (if u.authority.Some? then "//" + u.authority.value else "")
  }

  /** Path.toString() */
  function UriToString(u: Uri): string {
    UriPrefix(u) + u.path
  }

  /** Parsing loses nothing: printing the parts gives the location back. */
  lemma ParseUriRoundTrip(s: string)
    ensures UriToString(ParseUri(s)) == s
  {
    var start := SchemeLength(s, 0);
    if OccursAt(s, "//", start) && |s| - start > 2 {
      RoundTripWithAuthority(s);
    } else {
      RoundTripWithoutAuthority(s);
    }
  }

  lemma RoundTripWithoutAuthority(s: string)
    requires !(OccursAt(s, "//", SchemeLength(s, 0)) && |s| - SchemeLength(s, 0) > 2)
    ensures UriToString(ParseUri(s)) == s
  {
    var start := SchemeLength(s, 0);
    var u := ParseUri(s);
    SchemeHead(s);
    assert UriPrefix(u) == s[..start];
    assert u.path == s[start..];
    PrefixThenPath(s, u, start);
  }

  lemma RoundTripWithAuthority(s: string)
    requires OccursAt(s, "//", SchemeLength(s, 0)) && |s| - SchemeLength(s, 0) > 2
    ensures UriToString(ParseUri(s)) == s
  {
    var start := SchemeLength(s, 0);
    var u := ParseUri(s);
    var authEnd := SlashFrom(s, start + 2);
    var schemePart := if start > 0 then s[..start - 1] + ":" else "";
    SchemeHead(s);
    assert schemePart == s[..start];
    assert u.authority == Some(s[start + 2..authEnd]) && u.path == s[authEnd..];
    PrefixWithAuthority(u.scheme, s[start + 2..authEnd], u.path);
    assert UriPrefix(u) == schemePart + ("//" + s[start + 2..authEnd]);
    AuthorityPieces(s, start);
    PrefixThenPath(s, u, authEnd);
  }

  lemma PrefixWithAuthority(scheme: Option<string>, authority: string, path: string)
    ensures UriPrefix(Uri(scheme, Some(authority), path)) ==
      (if scheme.Some? then scheme.value + ":" else "") + ("//" + authority)
  {
  }

  lemma PrefixThenPath(s: string, u: Uri, split: nat)
    requires split <= |s|
    requires UriPrefix(u) == s[..split] && u.path == s[split..]
    ensures UriToString(u) == s
  {
    assert s == s[..split] + s[split..];
  }

  lemma SchemeHead(s: string)
    ensures var n := SchemeLength(s, 0);
      (if n > 0 then s[..n - 1] + ":" else "") == s[..n]
  {
    var n := SchemeLength(s, 0);
    if n > 0 {
      assert s[..n] == s[..n - 1] + [s[n - 1]];
    }
  }

  lemma AuthorityPieces(s: string, start: nat)
    requires start <= |s| && OccursAt(s, "//", start) && |s| - start > 2
    ensures var authEnd := SlashFrom(s, start + 2);
      s[..authEnd] == s[..start] + ("//" + s[start + 2..authEnd])
  {
    var authEnd := SlashFrom(s, start + 2);
    assert s[start..start + 2] == "//";
    assert s[..authEnd] == s[..start] + s[start..start + 2] + s[start + 2..authEnd];
  }

  /** True for the blob-store schemes whose objects are never copied. */
  predicate IsBlobScheme(scheme: Option<string>) {
    scheme == Some("s3n") || scheme == Some("s3a")
  }

  /**
   * new Path(parent, child).toString(). An absolute child keeps the
   * parent's scheme and authority and replaces its path; a relative child is
   * appended below the parent. An empty child is rejected.
   */
  function ChildPath(parent: string, child: string): (r: Result<string, Exception>)
    ensures child == "" <==> r == Failure(IllegalArgumentException)
    ensures r.Success? ==> |child| <= |r.value| && r.value[|r.value| - |child|..] == child
  {
    if child == "" then Failure(IllegalArgumentException)
    else if child[0] == '/' then Success(UriPrefix(ParseUri(parent)) + child)
    else if |parent| > 0 && parent[|parent| - 1] == '/' then Success(parent + child)
    else Success(parent + "/" + child)
  }

  /**
   * modifyLocation: blob-store locations are returned as they are; a location
   * below srcRoot + "/" keeps its relative path under destRoot; any other
   * location keeps its URI path under destRoot.
   */
  function ModifyLocation(srcRoot: string, destRoot: string, srcLocation: string): (r: Result<string, Exception>)
    ensures IsBlobScheme(ParseUri(srcLocation).scheme) ==> r == Success(srcLocation)
    ensures !IsBlobScheme(ParseUri(srcLocation).scheme) && StartsWith(srcLocation, srcRoot + "/") ==>
      r == ChildPath(destRoot, srcLocation[|srcRoot| + 1..])
    ensures !IsBlobScheme(ParseUri(srcLocation).scheme) && !StartsWith(srcLocation, srcRoot + "/") ==>
      r == ChildPath(destRoot, ParseUri(srcLocation).path)
  {
    var uri := ParseUri(srcLocation);
    if IsBlobScheme(uri.scheme) then Success(srcLocation)
    else if StartsWith(srcLocation, srcRoot + "/") then
      ChildPath(destRoot, srcLocation[|srcRoot| + 1..])
    else
      ChildPath(destRoot, uri.path)
  }

  /**
   * A location below the source root lands below the destination root with
   * the same relative path.
   */
  lemma ModifyLocationKeepsRelativePath(srcRoot: string, destRoot: string, rel: string)
    requires rel != "" && rel[0] != '/'
    requires |destRoot| > 0 && destRoot[|destRoot| - 1] != '/'
    requires !IsBlobScheme(ParseUri(srcRoot + "/" + rel).scheme)
    ensures ModifyLocation(srcRoot, destRoot, srcRoot + "/" + rel) == Success(destRoot + "/" + rel)
  {
    var s := srcRoot + "/" + rel;
    assert s[..|srcRoot + "/"|] == srcRoot + "/";
    assert s[|srcRoot| + 1..] == rel;
  }

  /**
   * Moving a location from the source root to the destination root and back
   * again gives the original location, as long as neither step sees a blob
   * scheme.
   */
  lemma ModifyLocationRoundTrip(srcRoot: string, destRoot: string, rel: string)
    requires rel != "" && rel[0] != '/'
    requires |destRoot| > 0 && destRoot[|destRoot| - 1] != '/'
    requires |srcRoot| > 0 && srcRoot[|srcRoot| - 1] != '/'
    requires !IsBlobScheme(ParseUri(srcRoot + "/" + rel).scheme)
    requires !IsBlobScheme(ParseUri(destRoot + "/" + rel).scheme)
    ensures ModifyLocation(destRoot, srcRoot, ModifyLocation(srcRoot, destRoot, srcRoot + "/" + rel).value)
      == Success(srcRoot + "/" + rel)
  {
    ModifyLocationKeepsRelativePath(srcRoot, destRoot, rel);
    ModifyLocationKeepsRelativePath(destRoot, srcRoot, rel);
  }

  /**
   * A location outside the source root, the source root itself included,
   * keeps its absolute URI path and takes the destination's scheme and
   * authority.
   */
  lemma ModifyLocationOutsideRoot(srcRoot: string, destRoot: string, srcLocation: string)
    requires !IsBlobScheme(ParseUri(srcLocation).scheme)
    requires !StartsWith(srcLocation, srcRoot + "/")
    requires |ParseUri(srcLocation).path| > 0 && ParseUri(srcLocation).path[0] == '/'
    ensures ModifyLocation(srcRoot, destRoot, srcLocation) ==
      Success(UriPrefix(ParseUri(destRoot)) + ParseUri(srcLocation).path)
  {
  }

  /** The source root itself is not "below" the root, so it takes the second branch. */
  lemma SourceRootIsOutsideItself(srcRoot: string)
    ensures !StartsWith(srcRoot, srcRoot + "/")
  {
  }

  /** The location of a destination object: rewritten unless absent or a blob-store location. */
  function DestLocation(srcCluster: Cluster, destCluster: Cluster, location: Option<string>): (r: Result<Option<string>, Exception>)
    ensures location.None? ==> r == Success(None)
    ensures location.Some? && StartsWith(location.value, "s3") ==> r == Success(location)
    ensures location.Some? && !StartsWith(location.value, "s3") ==>
      match ModifyLocation(srcCluster.fsRoot, destCluster.fsRoot, location.value)
      case Success(l) => r == Success(Some(l))
      case Failure(e) => r == Failure(e)
  {
    if location.Some? && !StartsWith(location.value, "s3") then
      var l :- ModifyLocation(srcCluster.fsRoot, destCluster.fsRoot, location.value);
      Success(Some(l))
    else Success(location)
  }

  /** The source parameters tagged with the source cluster's name. */
  function TaggedParameters(srcCluster: Cluster, parameters: map<string, string>): (r: map<string, string>)
    ensures r.Keys == parameters.Keys + {SRC_CLUSTER_KEY}
    ensures r[SRC_CLUSTER_KEY] == srcCluster.name
    ensures forall k :: k in parameters && k != SRC_CLUSTER_KEY ==> r[k] == parameters[k]
  {
    parameters[SRC_CLUSTER_KEY := srcCluster.name]
  }

  /**
   * The existing destination parameters overridden by the new ones: every
   * key of either map, with the new value winning on a conflict.
   */
  function MergeParameters(existing: map<string, string>, newer: map<string, string>): (r: map<string, string>)
    ensures r.Keys == existing.Keys + newer.Keys
    ensures forall k :: k in newer ==> r[k] == newer[k]
    ensures forall k :: k in existing && k !in newer ==> r[k] == existing[k]
  {
    existing + newer
  }

  /**
   * createDestTable: a copy of the source table with its location rewritten,
   * tagged with the source cluster, and with the parameters of an existing
   * destination table kept where the source does not set them.
   */
  function CreateDestTable(srcCluster: Cluster, destCluster: Cluster, srcTable: Table, existingDestTable: Option<Table>)
    : (r: Result<Table, Exception>)
    ensures DestLocation(srcCluster, destCluster, srcTable.location).Failure? <==> r.Failure?
    ensures r.Success? ==>
      var t := r.value;
      && t.db == srcTable.db && t.name == srcTable.name && t.partitionKeys == srcTable.partitionKeys
      && t.location == DestLocation(srcCluster, destCluster, srcTable.location).value
      && SRC_CLUSTER_KEY in t.parameters && t.parameters[SRC_CLUSTER_KEY] == srcCluster.name
      && (forall k :: k in srcTable.parameters && k != SRC_CLUSTER_KEY ==>
            k in t.parameters && t.parameters[k] == srcTable.parameters[k])
      && (existingDestTable.None? ==> t.parameters.Keys == srcTable.parameters.Keys + {SRC_CLUSTER_KEY})
      && (existingDestTable.Some? ==>
            t.parameters.Keys == existingDestTable.value.parameters.Keys + srcTable.parameters.Keys + {SRC_CLUSTER_KEY}
            && forall k :: k in existingDestTable.value.parameters && k !in srcTable.parameters && k != SRC_CLUSTER_KEY
                 ==> t.parameters[k] == existingDestTable.value.parameters[k])
  {
    var location :- DestLocation(srcCluster, destCluster, srcTable.location);
    var tagged := TaggedParameters(srcCluster, srcTable.parameters);
    var parameters := if existingDestTable.Some? then MergeParameters(existingDestTable.value.parameters, tagged) else tagged;
    Success(srcTable.(location := location, parameters := parameters))
  }

  /**
   * createDestPartition as written: the location rewrite and the tag are
   * applied, and the merged parameter map is computed but never stored, so
   * the parameters of an existing destination partition are dropped.
   */
  function CreateDestPartitionAsWritten(srcCluster: Cluster, destCluster: Cluster, srcPartition: Partition,
                                        existingDestPartition: Option<Partition>)
    : (r: Result<Partition, Exception>)
    ensures DestLocation(srcCluster, destCluster, srcPartition.location).Failure? <==> r.Failure?
    ensures r.Success? ==>
      && r.value.location == DestLocation(srcCluster, destCluster, srcPartition.location).value
      && r.value.parameters == TaggedParameters(srcCluster, srcPartition.parameters)
  {
    var location :- DestLocation(srcCluster, destCluster, srcPartition.location);
    var tagged := TaggedParameters(srcCluster, srcPartition.parameters);
    var _ := if existingDestPartition.Some? then MergeParameters(existingDestPartition.value.parameters, tagged) else tagged;
    Success(srcPartition.(location := location, parameters := tagged))
  }

  /**
   * createDestPartition as its comment intends: like createDestTable, the
   * existing destination parameters are kept where the source does not set
   * them.
   */
  function CreateDestPartition(srcCluster: Cluster, destCluster: Cluster, srcPartition: Partition,
                               existingDestPartition: Option<Partition>)
    : (r: Result<Partition, Exception>)
    ensures DestLocation(srcCluster, destCluster, srcPartition.location).Failure? <==> r.Failure?
    ensures r.Success? ==>
      var p := r.value;
      && p.db == srcPartition.db && p.table == srcPartition.table && p.values == srcPartition.values
      && p.location == DestLocation(srcCluster, destCluster, srcPartition.location).value
      && SRC_CLUSTER_KEY in p.parameters && p.parameters[SRC_CLUSTER_KEY] == srcCluster.name
      && (forall k :: k in srcPartition.parameters && k != SRC_CLUSTER_KEY ==>
            k in p.parameters && p.parameters[k] == srcPartition.parameters[k])
      && (existingDestPartition.None? ==> p.parameters.Keys == srcPartition.parameters.Keys + {SRC_CLUSTER_KEY})
      && (existingDestPartition.Some? ==>
            p.parameters.Keys == existingDestPartition.value.parameters.Keys + srcPartition.parameters.Keys + {SRC_CLUSTER_KEY}
            && forall k :: k in existingDestPartition.value.parameters && k !in srcPartition.parameters && k != SRC_CLUSTER_KEY
                 ==> p.parameters[k] == existingDestPartition.value.parameters[k])
  {
    var location :- DestLocation(srcCluster, destCluster, srcPartition.location);
    var tagged := TaggedParameters(srcCluster, srcPartition.parameters);
    var parameters := if existingDestPartition.Some? then MergeParameters(existingDestPartition.value.parameters, tagged) else tagged;
    Success(srcPartition.(location := location, parameters := parameters))
  }

  /**
   * The discrepancy: a destination partition whose "owner" parameter the
   * source does not set loses it as written and keeps it when merged.
   */
  lemma CreateDestPartitionDropsExistingParameters()
    ensures
      var c := Cluster("src", "hdfs://src", "/tmp");
      var d := Cluster("dest", "hdfs://dest", "/tmp");
      var p := Partition("db", "t", ["1"], None, map[]);
      var existing := Partition("db", "t", ["1"], None, map["owner" := "etl"]);
      && "owner" !in CreateDestPartitionAsWritten(c, d, p, Some(existing)).value.parameters
      && CreateDestPartition(c, d, p, Some(existing)).value.parameters["owner"] == "etl"
  {
    var c := Cluster("src", "hdfs://src", "/tmp");
    var d := Cluster("dest", "hdfs://dest", "/tmp");
    var p := Partition("db", "t", ["1"], None, map[]);
    var existing := Partition("db", "t", ["1"], None, map["owner" := "etl"]);
    assert "owner" != SRC_CLUSTER_KEY;
    var r := CreateDestPartitionAsWritten(c, d, p, Some(existing));
    assert r.value.parameters.Keys == {SRC_CLUSTER_KEY};
  }

  /** shouldCopyData: false exactly for s3n:// and s3a:// locations. */
  function ShouldCopyData(srcLocation: string): (r: bool)
    ensures !r <==> StartsWith(srcLocation, "s3n://") || StartsWith(srcLocation, "s3a://")
  {
    if StartsWith(srcLocation, "s3n://") || StartsWith(srcLocation, "s3a://") then false else true
  }

  /** A location whose data is not copied is also kept unchanged by modifyLocation. */
  lemma BlobLocationsStayPut(srcRoot: string, destRoot: string, srcLocation: string)
    requires !ShouldCopyData(srcLocation)
    ensures ModifyLocation(srcRoot, destRoot, srcLocation) == Success(srcLocation)
  {
    BlobSchemeLength(srcLocation);
    var u := ParseUri(srcLocation);
    assert u.scheme == Some(srcLocation[..3]);
    assert srcLocation[..3] == srcLocation[..6][..3];
    assert srcLocation[..3] == "s3n" || srcLocation[..3] == "s3a";
    assert IsBlobScheme(u.scheme);
  }

  lemma BlobSchemeLength(s: string)
    requires StartsWith(s, "s3n://") || StartsWith(s, "s3a://")
    ensures SchemeLength(s, 0) == 4
  {
    assert s[..6] == "s3n://" || s[..6] == "s3a://";
    assert s[0] == 's' && s[1] == '3' && (s[2] == 'n' || s[2] == 'a') && s[3] == ':';
    assert SchemeLength(s, 3) == 4;
    assert SchemeLength(s, 2) == 4;
    assert SchemeLength(s, 1) == 4;
  }
}
