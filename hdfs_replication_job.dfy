/**
 * The batch file-diff of the HDFS copy job: path helpers that strip the
 * host from a "scheme://host/path" string, and the FolderCompareReducer,
 * which groups the file statuses of source and destination clusters by
 * relative path and decides, per path, whether to add, delete or update
 * the destination copy. Each decision is written out as a tab-separated
 * record.
 */
module FolderCompare {
  import opened Wrappers
  import opened JavaStrings
  import opened HiveObjects

  /** The compare options used when the job is given none. */
  const DEFAULT_COMPARE_OPTION: string := "a,d,u"

  /** hiddenFileFilter: a path is listed unless its last component starts with "_" or ".". */
  predicate HiddenFileFilter(path: string) {
    var name := LastComponent(path);
    !StartsWith(name, "_") && !StartsWith(name, ".")
  }

  /** The filter looks only at the name in the directory: it rejects exactly the names starting with "_" or ".". */
  lemma HiddenFileFilterOnName(dir: string, name: string)
    requires '/' !in name
    ensures HiddenFileFilter(dir + "/" + name) <==> !(|name| > 0 && (name[0] == '_' || name[0] == '.'))
  {
    LastComponentOfChild(dir, name);
  }

  /** The last component of dir/name is name. */
  lemma {:induction false} LastComponentOfChild(dir: string, name: string)
    requires '/' !in name
    ensures LastComponent(dir + "/" + name) == name
  {
    if |name| > 0 {
      var path := dir + "/" + name;
      assert path[..|path| - 1] == dir + "/" + name[..|name| - 1];
      LastComponentOfChild(dir, name[..|name| - 1]);
      assert name == name[..|name| - 1] + [name[|name| - 1]];
    }
  }

  /** getHostName: the third "/"-separated piece; a path with fewer pieces throws. */
  function GetHostName(path: string): (r: Result<string, Exception>)
    ensures r.Failure? <==> |Split(path, '/')| < 3
  {
    var parts := Split(path, '/');
    if |parts| < 3 then Failure(IndexOutOfBoundsException) else Success(parts[2])
  }

  /** getPathNoHostName: "/" and the pieces after the host; copying from past the end throws. */
  function GetPathNoHostName(path: string): (r: Result<string, Exception>)
    ensures r.Failure? <==> |Split(path, '/')| < 3
  {
    var parts := Split(path, '/');
    if |parts| < 3 then Failure(IllegalArgumentException) else Success("/" + Join("/", parts[3..]))
  }

  /** The URI string "scheme://host/c1/.../cn": its "/"-pieces are the scheme, an empty piece, the host and the components. */
  function HostPath(scheme: string, host: string, components: seq<string>): string {
    Join("/", [scheme, "", host] + components)
  }

  /**
   * For "scheme://host/c1/.../cn" with non-empty last component, getHostName
   * gives back the host and getPathNoHostName the path "/c1/.../cn".
   */
  lemma HostPathRoundTrip(scheme: string, host: string, components: seq<string>)
    requires '/' !in scheme && '/' !in host
    requires |components| >= 1 && components[|components| - 1] != ""
    requires forall i :: 0 <= i < |components| ==> '/' !in components[i]
    ensures GetHostName(HostPath(scheme, host, components)) == Success(host)
    ensures GetPathNoHostName(HostPath(scheme, host, components)) == Success("/" + Join("/", components))
  {
    var xs := [scheme, "", host] + components;
    SplitHostPath(scheme, host, components);
    assert xs[2] == host;
    assert xs[3..] == components;
  }

  lemma SplitHostPath(scheme: string, host: string, components: seq<string>)
    requires '/' !in scheme && '/' !in host
    requires |components| >= 1 && components[|components| - 1] != ""
    requires forall i :: 0 <= i < |components| ==> '/' !in components[i]
    ensures Split(HostPath(scheme, host, components), '/') == [scheme, "", host] + components
  {
    PiecesWithoutSlash(scheme, host, components);
    SplitJoin([scheme, "", host] + components, '/');
  }

  lemma PiecesWithoutSlash(scheme: string, host: string, components: seq<string>)
    requires '/' !in scheme && '/' !in host
    requires |components| >= 1 && components[|components| - 1] != ""
    requires forall i :: 0 <= i < |components| ==> '/' !in components[i]
    ensures var xs := [scheme, "", host] + components;
      xs[|xs| - 1] != "" && forall i :: 0 <= i < |xs| ==> '/' !in xs[i]
  {
    var xs := [scheme, "", host] + components;
    forall i | 0 <= i < |xs|
      ensures '/' !in xs[i]
    {
      if i >= 3 {
        assert xs[i] == components[i - 3];
      }
    }
    assert xs[|xs| - 1] == components[|components| - 1];
  }

  /** The host names of the given folders, in order; the first folder without a host throws. */
  function HostNames(folders: seq<string>): (r: Result<seq<string>, Exception>)
    ensures r.Success? ==> |r.value| == |folders| && forall i :: 0 <= i < |folders| ==> GetHostName(folders[i]) == Success(r.value[i])
    ensures r.Failure? <==> exists i :: 0 <= i < |folders| && GetHostName(folders[i]).Failure?
  {
    if |folders| == 0 then Success([])
    else
      var host :- GetHostName(folders[0]);
      var rest :- HostNames(folders[1..]);
      assert forall i :: 1 <= i < |folders| ==> folders[i] == folders[1..][i - 1];
      Success([host] + rest)
  }

  /** getSourceHosts: the host of every comma-separated source folder, comma-joined. */
  function GetSourceHosts(source: string): (r: Result<string, Exception>)
    ensures r.Success? ==> exists hosts :: HostNames(Split(source, ',')) == Success(hosts) && r.value == Join(",", hosts)
  {
    var hosts :- HostNames(Split(source, ','));
    Success(Join(",", hosts))
  }

  /** ExtendedFileStatus: one file of one cluster, keyed by its path below the host. */
  datatype ExtendedFileStatus = ExtendedFileStatus(
    fullPath: string, hostName: string, path: string, fileSize: int, modificationTime: int)

  /** generateValue: action, full path, size and modification time, tab-separated. */
  function GenerateValue(action: string, status: ExtendedFileStatus): string {
    Join("\t", [action, status.fullPath, IntToString(status.fileSize), IntToString(status.modificationTime)])
  }

  lemma IntToStringHasNoTab(n: int)
    ensures '\t' !in IntToString(n)
  {
    var d := NatToString(if n < 0 then -n else n);
    assert AllDigits(d);
    assert IntToString(n) == (if n < 0 then "-" + d else d);
  }

  /** A record splits back on tabs into its four fields, and the numbers parse back. */
  lemma GenerateValueFields(action: string, status: ExtendedFileStatus)
    requires '\t' !in action && '\t' !in status.fullPath
    ensures var fields := Split(GenerateValue(action, status), '\t');
      && |fields| == 4 && fields[0] == action && fields[1] == status.fullPath
      && ParseInt(fields[2]) == Some(status.fileSize) && ParseInt(fields[3]) == Some(status.modificationTime)
  {
    var xs := [action, status.fullPath, IntToString(status.fileSize), IntToString(status.modificationTime)];
    IntToStringHasNoTab(status.fileSize);
    IntToStringHasNoTab(status.modificationTime);
    SplitJoin(xs, '\t');
    IntToStringRoundTrip(status.fileSize);
    IntToStringRoundTrip(status.modificationTime);
  }

  /**
   * Ordering.max by modification time: the first status whose modification
   * time no other status exceeds.
   */
  function Newest(statuses: seq<ExtendedFileStatus>): (r: ExtendedFileStatus)
    requires |statuses| > 0
    ensures r in statuses
    ensures forall s :: s in statuses ==> s.modificationTime <= r.modificationTime
    ensures exists i ::
      (0 <= i < |statuses| && statuses[i] == r &&
       forall j :: 0 <= j < i ==> statuses[j].modificationTime < r.modificationTime)
  {
    if |statuses| == 1 then statuses[0]
    else
      var prefix := statuses[..|statuses| - 1];
      var best := Newest(prefix);
      var last := statuses[|statuses| - 1];
      assert statuses == prefix + [last];
      if best.modificationTime >= last.modificationTime then
        var i :| 0 <= i < |prefix| && prefix[i] == best &&
          forall j :: 0 <= j < i ==> prefix[j].modificationTime < best.modificationTime;
        assert statuses[i] == best;
        assert forall j :: 0 <= j < i ==> statuses[j] == prefix[j];
        best
      else
        assert forall j :: 0 <= j < |prefix| ==> prefix[j] in prefix && statuses[j] == prefix[j];
        assert statuses[|statuses| - 1] == last;
        last
  }

  /** findSrcFileStatus: the newest status; an empty list throws. */
  function FindSrcFileStatus(statuses: seq<ExtendedFileStatus>): (r: Result<ExtendedFileStatus, Exception>)
    ensures r.Failure? <==> |statuses| == 0
    ensures r.Success? ==>
      (r.value in statuses && forall s :: s in statuses ==> s.modificationTime <= r.value.modificationTime)
  {
    if |statuses| == 0 then Failure(NoSuchElementException) else Success(Newest(statuses))
  }

  /** The compare options: the comma-separated pieces of the configured value, "a,d,u" when unset. */
  function CompareOptions(conf: Option<string>): set<string> {
    var pieces := Split(if conf.Some? then conf.value else DEFAULT_COMPARE_OPTION, ',');
    set i | 0 <= i < |pieces| :: pieces[i]
  }

  /** By default all three actions are enabled. */
  lemma DefaultCompareOptions()
    ensures CompareOptions(None) == {"a", "d", "u"}
  {
    var xs := ["a", "d", "u"];
    JoinCons(",", "d", ["u"]);
    JoinCons(",", "a", ["d", "u"]);
    assert ["a"] + ["d", "u"] == xs;
    assert Join([','], xs) == DEFAULT_COMPARE_OPTION;
    SplitJoin(xs, ',');
    var pieces := Split(DEFAULT_COMPARE_OPTION, ',');
    assert pieces[0] == "a" && pieces[1] == "d" && pieces[2] == "u";
  }

  /** The statuses on the host. */
  function OnHost(statuses: seq<ExtendedFileStatus>, host: string): (r: seq<ExtendedFileStatus>)
    ensures forall s :: s in r <==> s in statuses && s.hostName == host
  {
    if |statuses| == 0 then []
    else
      var s := statuses[|statuses| - 1];
      assert statuses == statuses[..|statuses| - 1] + [s];
      OnHost(statuses[..|statuses| - 1], host) + (if s.hostName == host then [s] else [])
  }

  /** The statuses on any other host. */
  function OffHost(statuses: seq<ExtendedFileStatus>, host: string): (r: seq<ExtendedFileStatus>)
    ensures forall s :: s in r <==> s in statuses && s.hostName != host
  {
    if |statuses| == 0 then []
    else
      var s := statuses[|statuses| - 1];
      assert statuses == statuses[..|statuses| - 1] + [s];
      OffHost(statuses[..|statuses| - 1], host) + (if s.hostName != host then [s] else [])
  }

  datatype Action = Add(status: ExtendedFileStatus) | Delete(status: ExtendedFileStatus) | Update(status: ExtendedFileStatus)

  function ActionName(a: Action): string {
    match a
    case Add(_) => "add"
    case Delete(_) => "delete"
    case Update(_) => "update"
  }

  /** The reducer's decision for the statuses of one relative path. */
  function Decide(options: set<string>, dstHost: string, statuses: seq<ExtendedFileStatus>): Option<Action>
    requires |statuses| > 0
  {
    var src := OffHost(statuses, dstHost);
    var dst := OnHost(statuses, dstHost);
    if |dst| > 0 then
      if |src| > 0 then
        var newest := Newest(src);
        if newest.fileSize != dst[0].fileSize && "u" in options then Some(Update(newest)) else None
      else if "d" in options then Some(Delete(dst[0]))
      else None
    else if "a" in options then
      assert statuses[0] in src;
      Some(Add(Newest(src)))
    else None
  }

  /**
   * The decision per relative path: add the newest source file when the
   * destination lacks the path; delete the destination file when no source
   * has the path; update with the newest source file when its size differs
   * from the destination's. Each action happens only when its option is set.
   */
  lemma DecideCases(options: set<string>, dstHost: string, statuses: seq<ExtendedFileStatus>)
    requires |statuses| > 0
    ensures var d := Decide(options, dstHost, statuses);
      var onDst := exists s :: s in statuses && s.hostName == dstHost;
      var onSrc := exists s :: s in statuses && s.hostName != dstHost;
      && (d.Some? && d.value.Add? <==> !onDst && "a" in options)
      && (d.Some? && d.value.Delete? <==> onDst && !onSrc && "d" in options)
      && (d.Some? && d.value.Update? <==>
            onDst && onSrc && "u" in options &&
            Newest(OffHost(statuses, dstHost)).fileSize != OnHost(statuses, dstHost)[0].fileSize)
      && (d.Some? && (d.value.Add? || d.value.Update?) ==>
            d.value.status.hostName != dstHost &&
            forall s :: s in statuses && s.hostName != dstHost ==> s.modificationTime <= d.value.status.modificationTime)
      && (d.Some? && d.value.Delete? ==> d.value.status in statuses && d.value.status.hostName == dstHost)
  {
    var src := OffHost(statuses, dstHost);
    var dst := OnHost(statuses, dstHost);
    if |dst| > 0 {
      assert dst[0] in dst;
    }
    if |src| > 0 {
      assert src[0] in src;
    }
  }

  /** The record written for an action on a relative path. */
  function RecordOf(relativePath: string, a: Action): (string, string) {
    (relativePath, GenerateValue(ActionName(a), a.status))
  }

  /** The relative paths of the statuses, each once, in order of first appearance (the multimap's keys). */
  function RelativePaths(values: seq<ExtendedFileStatus>): (r: seq<string>)
    ensures forall p :: p in r <==> exists v :: v in values && v.path == p
    ensures forall i, j :: 0 <= i < j < |r| ==> r[i] != r[j]
  {
    if |values| == 0 then []
    else
      var v := values[|values| - 1];
      var prefix := values[..|values| - 1];
      assert values == prefix + [v];
      var rest := RelativePaths(prefix);
      if v.path in rest then rest else rest + [v.path]
  }

  /** The statuses of one relative path, in order (the multimap's values for that key). */
  function Group(values: seq<ExtendedFileStatus>, p: string): (r: seq<ExtendedFileStatus>)
    ensures forall s :: s in r <==> s in values && s.path == p
  {
    if |values| == 0 then []
    else
      var v := values[|values| - 1];
      assert values == values[..|values| - 1] + [v];
      Group(values[..|values| - 1], p) + (if v.path == p then [v] else [])
  }

  /** Every listed relative path has at least one status. */
  lemma RelativePathsHaveGroups(values: seq<ExtendedFileStatus>)
    ensures forall k :: k in RelativePaths(values) ==> Group(values, k) != []
  {
    forall k | k in RelativePaths(values)
      ensures Group(values, k) != []
    {
      var v :| v in values && v.path == k;
      assert v in Group(values, k);
    }
  }

  /** No two entries share a key. */
  predicate DistinctKeys<T>(r: seq<(string, T)>) {
    forall i, j :: 0 <= i < j < |r| ==> r[i].0 != r[j].0
  }

  /** The decision for each of the given relative paths, in order. */
  function DecisionList(options: set<string>, dstHost: string, values: seq<ExtendedFileStatus>, keys: seq<string>)
    : (r: seq<Option<Action>>)
    requires forall k :: k in keys ==> Group(values, k) != []
    ensures |r| == |keys|
  {
    if |keys| == 0 then []
    else
      var k := keys[|keys| - 1];
      assert k in keys;
      var prefix := keys[..|keys| - 1];
      assert forall x :: x in prefix ==> x in keys;
      DecisionList(options, dstHost, values, prefix) + [Decide(options, dstHost, Group(values, k))]
  }

  lemma {:induction false} DecisionListAt(options: set<string>, dstHost: string, values: seq<ExtendedFileStatus>,
                                          keys: seq<string>, m: nat)
    requires forall k :: k in keys ==> Group(values, k) != []
    requires m < |keys|
    ensures keys[m] in keys && DecisionList(options, dstHost, values, keys)[m] == Decide(options, dstHost, Group(values, keys[m]))
  {
    var prefix := keys[..|keys| - 1];
    assert forall x :: x in prefix ==> x in keys;
    if m < |keys| - 1 {
      DecisionListAt(options, dstHost, values, prefix, m);
    }
  }

  /** The keys paired with their actions, in order, leaving out the keys decided to need none. */
  function Decisions(keys: seq<string>, ds: seq<Option<Action>>): (r: seq<(string, Action)>)
    requires |ds| == |keys|
    ensures |r| <= |keys|
    ensures forall i :: 0 <= i < |r| ==> r[i].0 in keys
    ensures (forall i, j :: 0 <= i < j < |keys| ==> keys[i] != keys[j]) ==> DistinctKeys(r)
  {
    if |keys| == 0 then []
    else
      var n := |keys| - 1;
      var rest := Decisions(keys[..n], ds[..n]);
      assert keys == keys[..n] + [keys[n]];
      assert (forall i, j :: 0 <= i < j < |keys| ==> keys[i] != keys[j]) ==> keys[n] !in keys[..n];
      rest + (if ds[n].Some? then [(keys[n], ds[n].value)] else [])
  }

  /** Among distinct keys, a key has an entry exactly when its decision is an action. */
  lemma {:induction false} DecisionsAt(keys: seq<string>, ds: seq<Option<Action>>, m: nat)
    requires |ds| == |keys| && m < |keys|
    requires forall i, j :: 0 <= i < j < |keys| ==> keys[i] != keys[j]
    ensures ds[m].Some? ==> (keys[m], ds[m].value) in Decisions(keys, ds)
    ensures ds[m].None? ==> forall i :: 0 <= i < |Decisions(keys, ds)| ==> Decisions(keys, ds)[i].0 != keys[m]
  {
    var n := |keys| - 1;
    assert keys == keys[..n] + [keys[n]];
    if m < n {
      DecisionsAt(keys[..n], ds[..n], m);
    } else {
      assert keys[m] !in keys[..n];
    }
  }

  /** The records written for the decided actions. */
  function Rendered(ds: seq<(string, Action)>): (r: seq<(string, string)>)
    ensures |r| == |ds| && forall i :: 0 <= i < |ds| ==> r[i] == RecordOf(ds[i].0, ds[i].1)
  {
    seq(|ds|, i requires 0 <= i < |ds| => RecordOf(ds[i].0, ds[i].1))
  }

  /** What the reducer writes for the statuses of one folder. */
  function CompareRecords(options: set<string>, dstHost: string, values: seq<ExtendedFileStatus>): seq<(string, string)> {
    var keys := RelativePaths(values);
    RelativePathsHaveGroups(values);
    Rendered(Decisions(keys, DecisionList(options, dstHost, values, keys)))
  }

  /** The reducer writes at most one record per relative path. */
  lemma CompareRecordsDistinct(options: set<string>, dstHost: string, values: seq<ExtendedFileStatus>)
    ensures DistinctKeys(CompareRecords(options, dstHost, values))
  {
    var keys := RelativePaths(values);
    RelativePathsHaveGroups(values);
    var ds := Decisions(keys, DecisionList(options, dstHost, values, keys));
    var r := Rendered(ds);
    assert DistinctKeys(ds);
    assert forall i :: 0 <= i < |r| ==> r[i].0 == ds[i].0;
  }

  /** Every record's key is the relative path of one of the folder's statuses. */
  lemma CompareRecordsKeys(options: set<string>, dstHost: string, values: seq<ExtendedFileStatus>)
    ensures var r := CompareRecords(options, dstHost, values);
      forall i :: 0 <= i < |r| ==> exists v :: v in values && v.path == r[i].0
  {
    var keys := RelativePaths(values);
    RelativePathsHaveGroups(values);
    var ds := Decisions(keys, DecisionList(options, dstHost, values, keys));
    var r := Rendered(ds);
    forall i | 0 <= i < |r|
      ensures exists v :: v in values && v.path == r[i].0
    {
      assert r[i].0 == ds[i].0;
      assert ds[i].0 in keys;
    }
  }

  /** Among distinct keys, a key has a record exactly when its decision is an action. */
  lemma RenderedAt(keys: seq<string>, ds: seq<Option<Action>>, m: nat)
    requires |ds| == |keys| && m < |keys|
    requires forall i, j :: 0 <= i < j < |keys| ==> keys[i] != keys[j]
    ensures var r := Rendered(Decisions(keys, ds));
      && (ds[m].Some? ==> RecordOf(keys[m], ds[m].value) in r)
      && (ds[m].None? ==> forall i :: 0 <= i < |r| ==> r[i].0 != keys[m])
  {
    DecisionsAt(keys, ds, m);
    var decided := Decisions(keys, ds);
    var r := Rendered(decided);
    if ds[m].Some? {
      var n :| 0 <= n < |decided| && decided[n] == (keys[m], ds[m].value);
      assert r[n] == RecordOf(keys[m], ds[m].value);
    } else {
      assert forall i :: 0 <= i < |r| ==> r[i].0 == decided[i].0;
    }
  }

  /**
   * For a relative path of the folder, the reducer writes a record exactly
   * when the decision for the path's statuses is an action; the record is
   * that action's.
   */
  lemma CompareRecordsPerPath(options: set<string>, dstHost: string, values: seq<ExtendedFileStatus>, p: string)
    requires exists v :: v in values && v.path == p
    ensures var r := CompareRecords(options, dstHost, values);
      var d := Decide(options, dstHost, Group(values, p));
      && (d.Some? ==> RecordOf(p, d.value) in r)
      && (d.None? ==> forall i :: 0 <= i < |r| ==> r[i].0 != p)
  {
    var keys := RelativePaths(values);
    RelativePathsHaveGroups(values);
    var dl := DecisionList(options, dstHost, values, keys);
    assert p in keys;
    var m :| 0 <= m < |keys| && keys[m] == p;
    DecisionListAt(options, dstHost, values, keys, m);
    RenderedAt(keys, dl, m);
    var r := Rendered(Decisions(keys, dl));
    assert CompareRecords(options, dstHost, values) == r;
    var d := Decide(options, dstHost, Group(values, p));
    assert dl[m] == d;
    if d.None? {
      forall i | 0 <= i < |r|
        ensures r[i].0 != p
      {
      }
    }
  }

  /** One more status lists its path when it is new. */
  lemma RelativePathsStep(values: seq<ExtendedFileStatus>, i: nat)
    requires i < |values|
    ensures RelativePaths(values[..i + 1]) ==
      if values[i].path in RelativePaths(values[..i]) then RelativePaths(values[..i])
      else RelativePaths(values[..i]) + [values[i].path]
  {
    assert values[..i + 1][..i] == values[..i];
  }

  /** A path not yet listed has no statuses. */
  lemma UnlistedGroupEmpty(values: seq<ExtendedFileStatus>, p: string)
    requires p !in RelativePaths(values)
    ensures Group(values, p) == []
  {
    if Group(values, p) != [] {
      assert Group(values, p)[0] in Group(values, p);
    }
  }

  /** Adding the i-th status to the groups of the first i keeps them the groups of the first i + 1. */
  lemma GroupedStep(values: seq<ExtendedFileStatus>, i: nat, groups: map<string, seq<ExtendedFileStatus>>,
                    after: map<string, seq<ExtendedFileStatus>>)
    requires i < |values|
    requires forall k :: k in groups <==> k in RelativePaths(values[..i])
    requires forall k :: k in groups ==> groups[k] == Group(values[..i], k) && groups[k] != []
    requires after == groups[values[i].path := if values[i].path in groups then groups[values[i].path] + [values[i]] else [values[i]]]
    ensures forall k :: k in after <==> k in RelativePaths(values[..i + 1])
    ensures forall k :: k in after ==> after[k] == Group(values[..i + 1], k) && after[k] != []
  {
    var v := values[i];
    RelativePathsStep(values, i);
    forall k | k in after
      ensures after[k] == Group(values[..i + 1], k) && after[k] != []
    {
      GroupAt(values, i, k);
      if k != v.path {
        assert after[k] == groups[k];
      } else if v.path !in groups {
        UnlistedGroupEmpty(values[..i], v.path);
      }
    }
  }

  /** One more status extends the group of its own path by itself and leaves any other group alone. */
  lemma GroupAt(values: seq<ExtendedFileStatus>, i: nat, k: string)
    requires i < |values|
    ensures Group(values[..i + 1], k) == Group(values[..i], k) + (if values[i].path == k then [values[i]] else [])
  {
    assert values[..i + 1][..i] == values[..i];
  }

  /** The multimap reduce builds: each relative path once in order of appearance, with its statuses in order. */
  method GroupByRelativePath(values: seq<ExtendedFileStatus>)
    returns (keys: seq<string>, groups: map<string, seq<ExtendedFileStatus>>)
    ensures keys == RelativePaths(values)
    ensures forall k :: k in groups <==> k in keys
    ensures forall k :: k in groups ==> groups[k] == Group(values, k) && groups[k] != []
  {
    keys := [];
    groups := map[];
    var i := 0;
    while i < |values|
      invariant 0 <= i <= |values|
      invariant keys == RelativePaths(values[..i])
      invariant forall k :: k in groups <==> k in keys
      invariant forall k :: k in groups ==> groups[k] == Group(values[..i], k) && groups[k] != []
    {
      var v := values[i];
      ghost var before := groups;
      if v.path !in groups {
        keys := keys + [v.path];
        groups := groups[v.path := [v]];
      } else {
        groups := groups[v.path := groups[v.path] + [v]];
      }
      RelativePathsStep(values, i);
      GroupedStep(values, i, before, groups);
      i := i + 1;
    }
    assert values[..i] == values;
  }

  /** FolderCompareReducer.reduce: group the statuses by relative path, then write each path's decision. */
  method Reduce(values: seq<ExtendedFileStatus>, options: set<string>, dstHost: string)
    returns (records: seq<(string, string)>)
    ensures records == CompareRecords(options, dstHost, values)
  {
    var keys, groups := GroupByRelativePath(values);
    RelativePathsHaveGroups(values);
    records := [];
    var j := 0;
    while j < |keys|
      invariant 0 <= j <= |keys|
      invariant forall k :: k in keys[..j] ==> k in keys
      invariant records == Rendered(Decisions(keys[..j], DecisionList(options, dstHost, values, keys[..j])))
    {
      var relativePath := keys[j];
      ReduceStep(options, dstHost, values, keys, j);
      var statuses := groups[relativePath];
      var decision := Decide(options, dstHost, statuses);
      if decision.Some? {
        records := records + [RecordOf(relativePath, decision.value)];
      }
      j := j + 1;
    }
    assert keys[..j] == keys;
  }

  /** One more key adds its decision's record, if any. */
  lemma ReduceStep(options: set<string>, dstHost: string, values: seq<ExtendedFileStatus>, keys: seq<string>, j: nat)
    requires forall k :: k in keys ==> Group(values, k) != []
    requires j < |keys|
    ensures forall k :: k in keys[..j + 1] ==> k in keys
    ensures var d := Decide(options, dstHost, Group(values, keys[j]));
      Rendered(Decisions(keys[..j + 1], DecisionList(options, dstHost, values, keys[..j + 1]))) ==
      Rendered(Decisions(keys[..j], DecisionList(options, dstHost, values, keys[..j]))) +
        (if d.Some? then [RecordOf(keys[j], d.value)] else [])
  {
    var next := keys[..j + 1];
    assert next == keys[..j] + [keys[j]];
    assert forall k :: k in next ==> k in keys;
    var dl := DecisionList(options, dstHost, values, keys[..j]);
    var d := Decide(options, dstHost, Group(values, keys[j]));
    DecisionListSnoc(options, dstHost, values, keys[..j], keys[j]);
    DecisionsSnoc(keys[..j], dl, keys[j], d);
    var before := Decisions(keys[..j], dl);
    var added := if d.Some? then [(keys[j], d.value)] else [];
    RenderedAppend(before, added);
    assert Rendered(added) == if d.Some? then [RecordOf(keys[j], d.value)] else [];
  }

  /** One more key appends its decision. */
  lemma DecisionListSnoc(options: set<string>, dstHost: string, values: seq<ExtendedFileStatus>, keys: seq<string>, k: string)
    requires forall x :: x in keys + [k] ==> Group(values, x) != []
    ensures forall x :: x in keys ==> Group(values, x) != []
    ensures DecisionList(options, dstHost, values, keys + [k]) ==
      DecisionList(options, dstHost, values, keys) + [Decide(options, dstHost, Group(values, k))]
  {
    assert forall x :: x in keys ==> x in keys + [k];
    assert (keys + [k])[..|keys|] == keys;
  }

  /** One more key with its decision appends its pair, if it is decided to need an action. */
  lemma DecisionsSnoc(keys: seq<string>, ds: seq<Option<Action>>, k: string, d: Option<Action>)
    requires |ds| == |keys|
    ensures Decisions(keys + [k], ds + [d]) == Decisions(keys, ds) + (if d.Some? then [(k, d.value)] else [])
  {
    assert (keys + [k])[..|keys|] == keys;
    assert (ds + [d])[..|ds|] == ds;
  }

  /** Rendering distributes over concatenation. */
  lemma RenderedAppend(a: seq<(string, Action)>, b: seq<(string, Action)>)
    ensures Rendered(a + b) == Rendered(a) + Rendered(b)
  {
    assert forall i :: 0 <= i < |a| ==> (a + b)[i] == a[i];
    assert forall i :: |a| <= i < |a| + |b| ==> (a + b)[i] == b[i - |a|];
  }
}
