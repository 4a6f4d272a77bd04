/**
 * MockHiveMetastoreClient: the in-memory catalog. Three maps (databases by
 * name, tables by table spec, partitions by partition spec) are changed in
 * place by the add, create, alter, drop, exchange and rename operations,
 * each of which checks its preconditions and throws HiveMetastoreException
 * with a message naming the offending object.
 */
module MockMetastore {
  import opened Wrappers
  import opened JavaStrings
  import opened HiveObjects

  datatype Database = Database(name: string)

  /** "k1=v1", "k2=v2", ...: each partition key paired with the value at the same position. */
  function KeyValuePairs(keys: seq<string>, values: seq<string>): (r: seq<string>)
    requires |values| >= |keys|
    ensures |r| == |keys|
    ensures forall i :: 0 <= i < |keys| ==> r[i] == keys[i] + "=" + values[i]
  {
    if |keys| == 0 then [] else KeyValuePairs(keys[..|keys| - 1], values) + [keys[|keys| - 1] + "=" + values[|keys| - 1]]
  }

  /** The partition name "k1=v1/k2=v2/..." for the table's partition keys in order. */
  function PartitionName(keys: seq<string>, values: seq<string>): string
    requires |values| >= |keys|
  {
    Join("/", KeyValuePairs(keys, values))
  }

  /** HiveObjectSpec.toString of a partition spec, for messages. */
  function PartitionSpecString(db: string, table: string, name: string): string {
    SpecToString(PartitionSpecOf(db, table, name))
  }

  /** The key and value of one "key=value" piece of a partition name, or the Java exception. */
  function SplitKeyValue(keyValue: string): (r: Result<(string, string), Exception>)
    ensures r.Success? ==> '=' !in r.value.0 && '=' !in r.value.1
  {
    var parts := Split(keyValue, '=');
    if |parts| < 2 then Failure(IndexOutOfBoundsException)
    else
      SplitAllNoSeparatorPieces(keyValue);
      Success((parts[0], parts[1]))
  }

  lemma SplitAllNoSeparatorPieces(s: string)
    ensures forall i :: 0 <= i < |Split(s, '=')| ==> '=' !in Split(s, '=')[i]
  {
    if '=' !in s {
    }
  }

  /** The position of key k in an insertion-ordered map, or -1. */
  function KeyIndex(m: seq<(string, string)>, k: string): (r: int)
    ensures -1 <= r < |m|
    ensures r >= 0 ==> m[r].0 == k
    ensures r == -1 ==> forall i :: 0 <= i < |m| ==> m[i].0 != k
  {
    if |m| == 0 then -1
    else if m[|m| - 1].0 == k then |m| - 1
    else KeyIndex(m[..|m| - 1], k)
  }

  /** LinkedHashMap.put: a new key goes last; an existing key keeps its place and takes the new value. */
  function Put(m: seq<(string, string)>, k: string, v: string): (r: seq<(string, string)>)
    ensures KeyIndex(m, k) == -1 ==> r == m + [(k, v)]
    ensures KeyIndex(m, k) >= 0 ==> r == m[KeyIndex(m, k) := (k, v)]
  {
    var i := KeyIndex(m, k);
    if i == -1 then m + [(k, v)] else m[i := (k, v)]
  }

  /** The entries partitionNameToMap builds from the "/"-separated pieces, in order. */
  function PutPieces(m: seq<(string, string)>, pieces: seq<string>): (r: Result<seq<(string, string)>, Exception>)
    decreases |pieces|
  {
    if |pieces| == 0 then Success(m)
    else
      var kv :- SplitKeyValue(pieces[0]);
      PutPieces(Put(m, kv.0, kv.1), pieces[1..])
  }

  /** partitionNameToMap as a function of the name: the insertion-ordered entries. */
  function PartitionNameToMap(partitionName: string): Result<seq<(string, string)>, Exception> {
    PutPieces([], Split(partitionName, '/'))
  }

  /** The entries of zipping keys with values. */
  function Zip(keys: seq<string>, values: seq<string>): (r: seq<(string, string)>)
    requires |values| >= |keys|
    ensures |r| == |keys| && forall i :: 0 <= i < |keys| ==> r[i] == (keys[i], values[i])
  {
    if |keys| == 0 then [] else Zip(keys[..|keys| - 1], values) + [(keys[|keys| - 1], values[|keys| - 1])]
  }

  /** Keys and values that a partition name can carry without ambiguity. */
  predicate PlainPartitionValues(keys: seq<string>, values: seq<string>) {
    && |keys| >= 1 && |keys| == |values|
    && (forall i, j :: 0 <= i < j < |keys| ==> keys[i] != keys[j])
    && (forall i :: 0 <= i < |keys| ==> '/' !in keys[i] && '=' !in keys[i])
    && (forall i :: 0 <= i < |values| ==> '/' !in values[i] && '=' !in values[i] && values[i] != "")
  }

  /**
   * partitionNameToMap undoes getPartitionName: reading back the name of
   * distinct keys with non-empty values free of '/' and '=' gives each key
   * with its value, in the table's key order.
   */
  lemma PartitionNameToMapRoundTrip(keys: seq<string>, values: seq<string>)
    requires PlainPartitionValues(keys, values)
    ensures PartitionNameToMap(PartitionName(keys, values)) == Success(Zip(keys, values))
  {
    var pieces := KeyValuePairs(keys, values);
    forall i | 0 <= i < |pieces| ensures '/' !in pieces[i] {
      assert pieces[i] == keys[i] + "=" + values[i];
    }
    SplitJoin(pieces, '/');
    PutPiecesOfPairs(keys, values, 0);
  }

  /** The one piece "k=v" splits back into k and v. */
  lemma SplitKeyValuePiece(k: string, v: string)
    requires '=' !in k && '=' !in v && v != ""
    ensures SplitKeyValue(k + "=" + v) == Success((k, v))
  {
    SplitJoin([k, v], '=');
    assert Join("=", [k, v]) == k + "=" + v;
  }

  /** One step of partitionNameToMap: a fresh "k=v" piece appends (k, v). */
  lemma PutPiecesStep(m: seq<(string, string)>, pieces: seq<string>, k: string, v: string)
    requires |pieces| > 0 && pieces[0] == k + "=" + v
    requires '=' !in k && '=' !in v && v != ""
    requires KeyIndex(m, k) == -1
    ensures PutPieces(m, pieces) == PutPieces(m + [(k, v)], pieces[1..])
  {
    SplitKeyValuePiece(k, v);
  }

  /** The key at position n of distinct keys is not among the first n entries. */
  lemma FreshKey(keys: seq<string>, values: seq<string>, n: nat)
    requires PlainPartitionValues(keys, values) && n < |keys|
    ensures KeyIndex(Zip(keys, values)[..n], keys[n]) == -1
  {
  }

  /** Putting the pieces from position n on, after the first n entries, gives all entries. */
  lemma {:induction false} PutPiecesOfPairs(keys: seq<string>, values: seq<string>, n: nat)
    requires PlainPartitionValues(keys, values) && n <= |keys|
    ensures PutPieces(Zip(keys, values)[..n], KeyValuePairs(keys, values)[n..]) == Success(Zip(keys, values))
    decreases |keys| - n
  {
    var z := Zip(keys, values);
    var pieces := KeyValuePairs(keys, values);
    if n == |keys| {
      assert z[..n] == z;
    } else {
      FreshKey(keys, values, n);
      assert pieces[n..][0] == keys[n] + "=" + values[n];
      assert '=' !in keys[n] && '=' !in values[n] && values[n] != "";
      PutPiecesStep(z[..n], pieces[n..], keys[n], values[n]);
      assert pieces[n..][1..] == pieces[n + 1..];
      ZipPrefixStep(keys, values, n);
      PutPiecesOfPairs(keys, values, n + 1);
    }
  }

  /** The first n + 1 entries are the first n followed by the n-th pair. */
  lemma ZipPrefixStep(keys: seq<string>, values: seq<string>, n: nat)
    requires |values| >= |keys| && n < |keys|
    ensures Zip(keys, values)[..n] + [(keys[n], values[n])] == Zip(keys, values)[..n + 1]
  {
    var z := Zip(keys, values);
    assert z[..n + 1] == z[..n] + [z[n]];
  }

  /** "k1=v1/k2=v2/..." of insertion-ordered entries (partitionSpecToName). */
  function EntriesName(entries: seq<(string, string)>): string {
    Join("/", EntryPieces(entries))
  }

  function EntryPieces(entries: seq<(string, string)>): (r: seq<string>)
    ensures |r| == |entries| && forall i :: 0 <= i < |entries| ==> r[i] == entries[i].0 + "=" + entries[i].1
  {
    if |entries| == 0 then [] else EntryPieces(entries[..|entries| - 1]) + [entries[|entries| - 1].0 + "=" + entries[|entries| - 1].1]
  }

  /** Naming a partition by its table's keys or by the key/value entries of the same pairs agree. */
  lemma EntriesNameOfZip(keys: seq<string>, values: seq<string>)
    requires |values| >= |keys|
    ensures EntriesName(Zip(keys, values)) == PartitionName(keys, values)
  {
    assert EntryPieces(Zip(keys, values)) == KeyValuePairs(keys, values);
  }

  /** getPartitionName(Table, Partition): the keys must match the values in number. */
  method GetPartitionName(t: Table, p: Partition) returns (r: Result<string, Exception>)
    ensures |t.partitionKeys| != |p.values| ==> r.Failure? && r.error.HiveMetastoreException?
    ensures |t.partitionKeys| == |p.values| ==> r == Success(PartitionName(t.partitionKeys, p.values))
  {
    if |t.partitionKeys| != |p.values| {
      return Failure(HiveMetastoreException("Partition column mismatch: table has " + IntToString(|t.partitionKeys|) +
        " columns while partition has " + IntToString(|p.values|) + " values"));
    }
    var keyValues: seq<string> := [];
    var i := 0;
    while i < |t.partitionKeys|
      invariant 0 <= i <= |t.partitionKeys|
      invariant |keyValues| == i
      invariant forall j :: 0 <= j < i ==> keyValues[j] == t.partitionKeys[j] + "=" + p.values[j]
    {
      keyValues := keyValues + [t.partitionKeys[i] + "=" + p.values[i]];
      i := i + 1;
    }
    assert keyValues == KeyValuePairs(t.partitionKeys, p.values);
    return Success(Join("/", keyValues));
  }

  /**
   * getPartitionName(Table, List): the StringBuilder version used by
   * renamePartition. It does not compare counts: extra values are ignored
   * and too few values run off the list. A null table is dereferenced.
   */
  method GetPartitionNameFromValues(t: Option<Table>, values: seq<string>) returns (r: Result<string, Exception>)
    ensures t.None? ==> r == Failure(NullPointerException)
    ensures t.Some? && |values| < |t.value.partitionKeys| ==> r == Failure(IndexOutOfBoundsException)
    ensures t.Some? && |values| >= |t.value.partitionKeys| ==> r == Success(PartitionName(t.value.partitionKeys, values))
  {
    if t.None? {
      return Failure(NullPointerException);
    }
    var keys := t.value.partitionKeys;
    var sb := "";
    var i := 0;
    while i < |keys|
      invariant 0 <= i <= |keys|
      invariant i <= |values|
      invariant sb == Join("/", KeyValuePairs(keys[..i], values))
    {
      if i >= |values| {
        return Failure(IndexOutOfBoundsException);
      }
      var piece := keys[i] + "=" + values[i];
      if i > 0 {
        JoinAppend("/", KeyValuePairs(keys[..i], values), piece);
        sb := sb + "/";
      }
      assert keys[..i + 1][..i] == keys[..i];
      sb := sb + keys[i] + "=" + values[i];
      i := i + 1;
    }
    if |values| < |keys| {
      assert false;
    }
    assert keys[..i] == keys;
    return Success(sb);
  }

  /** partitionSpecToName: the entries joined with "/", a separator before every entry but the first. */
  method PartitionSpecToName(entries: seq<(string, string)>) returns (r: string)
    ensures r == EntriesName(entries)
  {
    var sb := "";
    var i := 0;
    while i < |entries|
      invariant 0 <= i <= |entries|
      invariant sb == EntriesName(entries[..i])
      invariant i > 0 ==> |sb| > 0
    {
      var piece := entries[i].0 + "=" + entries[i].1;
      assert EntryPieces(entries[..i + 1]) == EntryPieces(entries[..i]) + [piece] by {
        assert entries[..i + 1][..i] == entries[..i];
      }
      if |sb| != 0 {
        JoinAppend("/", EntryPieces(entries[..i]), piece);
        sb := sb + "/";
      }
      sb := sb + piece;
      i := i + 1;
    }
    assert entries[..i] == entries;
    return sb;
  }

  /** partitionNameToMap: the loop over the "/"-separated pieces, putting each key and value. */
  method PartitionNameToMapLoop(partitionName: string) returns (r: Result<seq<(string, string)>, Exception>)
    ensures r == PartitionNameToMap(partitionName)
  {
    var keyValues := Split(partitionName, '/');
    var partitionKeyToValue: seq<(string, string)> := [];
    var i := 0;
    while i < |keyValues|
      invariant 0 <= i <= |keyValues|
      invariant PutPieces(partitionKeyToValue, keyValues[i..]) == PartitionNameToMap(partitionName)
    {
      assert keyValues[i..][1..] == keyValues[i + 1..];
      var kv := SplitKeyValue(keyValues[i]);
      if kv.Failure? {
        return Failure(kv.error);
      }
      partitionKeyToValue := Put(partitionKeyToValue, kv.value.0, kv.value.1);
      i := i + 1;
    }
    return Success(partitionKeyToValue);
  }

  class MockHiveMetastoreClient {
    var dbNameToDatabase: map<string, Database>
    var specToTable: map<ObjectSpec, Table>
    var specToPartition: map<ObjectSpec, Partition>

    /**
     * Tables are keyed by their own (db, name) table spec; partitions by a
     * partition spec whose db and table are the partition's.
     */
    ghost predicate Valid()
      reads this
    {
      && (forall k :: k in specToTable ==> k == SpecOfTable(specToTable[k]))
      && (forall k :: k in specToPartition ==>
            k.IsPartition() && k.db == specToPartition[k].db && k.table == specToPartition[k].table)
    }

    constructor ()
      ensures Valid()
      ensures dbNameToDatabase == map[] && specToTable == map[] && specToPartition == map[]
    {
      dbNameToDatabase := map[];
      specToTable := map[];
      specToPartition := map[];
    }

    /** getTable: the table, or null. */
    function GetTable(dbName: string, tableName: string): (r: Option<Table>)
      reads this
      ensures r.Some? <==> TableSpecOf(dbName, tableName) in specToTable
      ensures r.Some? ==> r.value == specToTable[TableSpecOf(dbName, tableName)]
    {
      var spec := TableSpecOf(dbName, tableName);
      if spec in specToTable then Some(specToTable[spec]) else None
    }

    /** getPartition: the partition, or null. */
    function GetPartition(dbName: string, tableName: string, partitionName: string): (r: Option<Partition>)
      reads this
      ensures r.Some? <==> PartitionSpecOf(dbName, tableName, partitionName) in specToPartition
      ensures r.Some? ==> r.value == specToPartition[PartitionSpecOf(dbName, tableName, partitionName)]
    {
      var spec := PartitionSpecOf(dbName, tableName, partitionName);
      if spec in specToPartition then Some(specToPartition[spec]) else None
    }

    predicate ExistsTable(dbName: string, tableName: string)
      reads this
    {
      GetTable(dbName, tableName).Some?
    }

    predicate ExistsPartition(dbName: string, tableName: string, partitionName: string)
      reads this
    {
      GetPartition(dbName, tableName, partitionName).Some?
    }

    /** getDatabase: the database, or null. */
    function GetDatabase(dbName: string): (r: Option<Database>)
      reads this
      ensures r.Some? <==> dbName in dbNameToDatabase
    {
      if dbName in dbNameToDatabase then Some(dbNameToDatabase[dbName]) else None
    }

    predicate ExistsDb(dbName: string)
      reads this
    {
      GetDatabase(dbName).Some?
    }

    /** isPartitioned: the table has partition keys; a missing table is dereferenced. */
    function IsPartitionedTable(dbName: string, tableName: string): (r: Result<bool, Exception>)
      reads this
      ensures !ExistsTable(dbName, tableName) <==> r == Failure(NullPointerException)
      ensures ExistsTable(dbName, tableName) ==>
        r == Success(|specToTable[TableSpecOf(dbName, tableName)].partitionKeys| > 0)
    {
      match GetTable(dbName, tableName)
      case None => Failure(NullPointerException)
      case Some(t) => Success(|t.partitionKeys| > 0)
    }

    /**
     * addPartition: the partition's table must exist, its values must match
     * the table's keys, and no partition of that name may exist yet; then it
     * is stored under (db, table, name) and nothing else changes.
     */
    method AddPartition(p: Partition) returns (r: Result<Partition, Exception>)
      requires Valid()
      modifies this
      ensures Valid()
      ensures dbNameToDatabase == old(dbNameToDatabase) && specToTable == old(specToTable)
      ensures TableSpecOf(p.db, p.table) !in specToTable ==>
        r == Failure(HiveMetastoreException("Unknown table: " + SpecToString(TableSpecOf(p.db, p.table))))
      ensures TableSpecOf(p.db, p.table) in specToTable &&
              |specToTable[TableSpecOf(p.db, p.table)].partitionKeys| != |p.values| ==>
        r.Failure? && r.error.HiveMetastoreException?
      ensures r.Failure? ==> specToPartition == old(specToPartition)
      ensures r.Success? ==>
        var name := PartitionName(specToTable[TableSpecOf(p.db, p.table)].partitionKeys, p.values);
        && r.value == p
        && PartitionSpecOf(p.db, p.table, name) !in old(specToPartition)
        && specToPartition == old(specToPartition)[PartitionSpecOf(p.db, p.table, name) := p]
      ensures TableSpecOf(p.db, p.table) in specToTable &&
              |specToTable[TableSpecOf(p.db, p.table)].partitionKeys| == |p.values| ==>
        (r.Success? <==>
          PartitionSpecOf(p.db, p.table, PartitionName(specToTable[TableSpecOf(p.db, p.table)].partitionKeys, p.values))
            !in old(specToPartition))
    {
      var tableSpec := TableSpecOf(p.db, p.table);
      if tableSpec !in specToTable {
        return Failure(HiveMetastoreException("Unknown table: " + SpecToString(tableSpec)));
      }
      var t := specToTable[tableSpec];
      var partitionName :- GetPartitionName(t, p);
      var partitionSpec := PartitionSpecOf(tableSpec.db, tableSpec.table, partitionName);
      if partitionSpec in specToPartition {
        return Failure(HiveMetastoreException("Partition already exists: " + SpecToString(partitionSpec)));
      }
      specToPartition := specToPartition[partitionSpec := p];
      return Success(p);
    }

    /**
     * alterPartition as written: the lookup spec is built from the table
     * spec's partition name, which is null for a table spec, so its table
     * component is null. Every stored partition spec has a table name, so the
     * lookup never finds one and every call that gets that far throws
     * "Partition does not exist"; the catalog never changes.
     */
    method AlterPartitionAsWritten(dbName: string, tableName: string, p: Partition) returns (r: Result<(), Exception>)
      requires Valid()
      ensures r.Failure?
      ensures TableSpecOf(p.db, p.table) in specToTable &&
              |specToTable[TableSpecOf(p.db, p.table)].partitionKeys| == |p.values| ==>
        r == Failure(HiveMetastoreException("Partition does not exist: " + p.db + ".null/" +
          PartitionName(specToTable[TableSpecOf(p.db, p.table)].partitionKeys, p.values)))
    {
      var tableSpec := TableSpecOf(p.db, p.table);
      if tableSpec !in specToTable {
        return Failure(HiveMetastoreException("Unknown table: " + SpecToString(tableSpec)));
      }
      var t := specToTable[tableSpec];
      var partitionName :- GetPartitionName(t, p);
      // The spec (db, null, partitionName): its table component matches no stored key.
      return Failure(HiveMetastoreException("Partition does not exist: " + tableSpec.db + ".null/" + partitionName));
    }

    /**
     * alterPartition as intended: the partition spec is built from the table
     * spec's table name, and an existing partition is replaced.
     */
    method AlterPartition(dbName: string, tableName: string, p: Partition) returns (r: Result<(), Exception>)
      requires Valid()
      modifies this
      ensures Valid()
      ensures dbNameToDatabase == old(dbNameToDatabase) && specToTable == old(specToTable)
      ensures r.Failure? ==> specToPartition == old(specToPartition)
      ensures TableSpecOf(p.db, p.table) in specToTable &&
              |specToTable[TableSpecOf(p.db, p.table)].partitionKeys| == |p.values| ==>
        var spec := PartitionSpecOf(p.db, p.table, PartitionName(specToTable[TableSpecOf(p.db, p.table)].partitionKeys, p.values));
        && (r.Success? <==> spec in old(specToPartition))
        && (r.Success? ==> specToPartition == old(specToPartition)[spec := p])
      ensures (TableSpecOf(p.db, p.table) !in specToTable ||
               |specToTable[TableSpecOf(p.db, p.table)].partitionKeys| != |p.values|) ==> r.Failure?
    {
      var tableSpec := TableSpecOf(p.db, p.table);
      if tableSpec !in specToTable {
        return Failure(HiveMetastoreException("Unknown table: " + SpecToString(tableSpec)));
      }
      var t := specToTable[tableSpec];
      var partitionName :- GetPartitionName(t, p);
      var partitionSpec := PartitionSpecOf(tableSpec.db, tableSpec.table, partitionName);
      if partitionSpec !in specToPartition {
        return Failure(HiveMetastoreException("Partition does not exist: " + SpecToString(partitionSpec)));
      }
      specToPartition := specToPartition[partitionSpec := p];
      return Success(());
    }

    /** createDatabase: rejects a name already in use. */
    method CreateDatabase(db: Database) returns (r: Result<(), Exception>)
      requires Valid()
      modifies this
      ensures Valid()
      ensures specToTable == old(specToTable) && specToPartition == old(specToPartition)
      ensures r.Failure? <==> db.name in old(dbNameToDatabase)
      ensures r.Failure? ==>
        r.error == HiveMetastoreException("DB " + db.name + " already exists!") && dbNameToDatabase == old(dbNameToDatabase)
      ensures r.Success? ==> dbNameToDatabase == old(dbNameToDatabase)[db.name := db]
    {
      if db.name in dbNameToDatabase {
        return Failure(HiveMetastoreException("DB " + db.name + " already exists!"));
      }
      dbNameToDatabase := dbNameToDatabase[db.name := db];
      return Success(());
    }

    /** createTable: the database must exist and the table must not. */
    method CreateTable(t: Table) returns (r: Result<(), Exception>)
      requires Valid()
      modifies this
      ensures Valid()
      ensures dbNameToDatabase == old(dbNameToDatabase) && specToPartition == old(specToPartition)
      ensures r.Failure? <==> t.db !in old(dbNameToDatabase) || SpecOfTable(t) in old(specToTable)
      ensures t.db !in old(dbNameToDatabase) ==> r == Failure(HiveMetastoreException("DB " + t.db + " does not exist!"))
      ensures r.Failure? ==> specToTable == old(specToTable)
      ensures r.Success? ==> specToTable == old(specToTable)[SpecOfTable(t) := t]
    {
      if !ExistsDb(t.db) {
        return Failure(HiveMetastoreException("DB " + t.db + " does not exist!"));
      }
      var tableSpec := TableSpecOf(t.db, t.name);
      if tableSpec in specToTable {
        return Failure(HiveMetastoreException("Table already exists: " + SpecToString(tableSpec)));
      }
      specToTable := specToTable[tableSpec := t];
      return Success(());
    }

    /**
     * alterTable: the table (dbName, tableName) must exist; it is removed
     * and t is stored under t's own spec, which may differ (a rename). The
     * partitions are left where they are.
     */
    method AlterTable(dbName: string, tableName: string, t: Table) returns (r: Result<(), Exception>)
      requires Valid()
      modifies this
      ensures Valid()
      ensures dbNameToDatabase == old(dbNameToDatabase) && specToPartition == old(specToPartition)
      ensures r.Failure? <==> TableSpecOf(dbName, tableName) !in old(specToTable)
      ensures r.Failure? ==>
        specToTable == old(specToTable) && r.error == HiveMetastoreException("Unknown table: " + SpecToString(TableSpecOf(dbName, tableName)))
      ensures r.Success? ==> specToTable == (old(specToTable) - {TableSpecOf(dbName, tableName)})[SpecOfTable(t) := t]
    {
      var existingTableSpec := TableSpecOf(dbName, tableName);
      var newTableSpec := TableSpecOf(t.db, t.name);
      if existingTableSpec !in specToTable {
        return Failure(HiveMetastoreException("Unknown table: " + SpecToString(existingTableSpec)));
      }
      specToTable := specToTable - {existingTableSpec};
      specToTable := specToTable[newTableSpec := t];
      return Success(());
    }

    /**
     * dropTable: the table must exist; it is removed together with every
     * partition whose table spec is the table's, one entry at a time.
     */
    method DropTable(dbName: string, tableName: string, deleteData: bool) returns (r: Result<(), Exception>)
      requires Valid()
      modifies this
      ensures Valid()
      ensures dbNameToDatabase == old(dbNameToDatabase)
      ensures r.Failure? <==> TableSpecOf(dbName, tableName) !in old(specToTable)
      ensures r.Failure? ==> specToTable == old(specToTable) && specToPartition == old(specToPartition)
      ensures r.Success? ==> specToTable == old(specToTable) - {TableSpecOf(dbName, tableName)}
      ensures r.Success? ==> specToPartition == PartitionsNotOf(old(specToPartition), TableSpecOf(dbName, tableName))
    {
      var tableSpec := TableSpecOf(dbName, tableName);
      if !ExistsTable(dbName, tableName) {
        return Failure(HiveMetastoreException("Missing table: " + SpecToString(tableSpec)));
      }
      specToTable := specToTable - {tableSpec};
      RemovePartitionsOf(tableSpec);
      return Success(());
    }

    /** The iterator loop of dropTable: every partition whose table spec is tableSpec is removed, one entry at a time. */
    method RemovePartitionsOf(tableSpec: ObjectSpec)
      modifies this
      ensures specToPartition == PartitionsNotOf(old(specToPartition), tableSpec)
      ensures specToTable == old(specToTable) && dbNameToDatabase == old(dbNameToDatabase)
    {
      var toVisit := specToPartition.Keys;
      ghost var original := specToPartition;
      while toVisit != {}
        invariant toVisit <= original.Keys
        invariant specToPartition.Keys <= original.Keys
        invariant forall k :: k in specToPartition ==> specToPartition[k] == original[k]
        invariant forall k :: k in original && k !in toVisit ==> (k in specToPartition <==> k.TableSpec() != tableSpec)
        invariant forall k :: k in toVisit ==> k in specToPartition
        invariant specToTable == old(specToTable) && dbNameToDatabase == old(dbNameToDatabase)
        decreases |toVisit|
      {
        NonEmptyHasSpec(toVisit);
        var k :| k in toVisit;
        if k.TableSpec() == tableSpec {
          specToPartition := specToPartition - {k};
        }
        toVisit := toVisit - {k};
      }
      assert specToPartition.Keys == PartitionsNotOf(original, tableSpec).Keys;
    }

    /** dropPartition: the partition must exist; exactly it is removed. */
    method DropPartition(dbName: string, tableName: string, partitionName: string, deleteData: bool)
      returns (r: Result<(), Exception>)
      requires Valid()
      modifies this
      ensures Valid()
      ensures dbNameToDatabase == old(dbNameToDatabase) && specToTable == old(specToTable)
      ensures r.Failure? <==> PartitionSpecOf(dbName, tableName, partitionName) !in old(specToPartition)
      ensures r.Failure? ==> specToPartition == old(specToPartition)
      ensures r.Success? ==> specToPartition == old(specToPartition) - {PartitionSpecOf(dbName, tableName, partitionName)}
    {
      var partitionSpec := PartitionSpecOf(dbName, tableName, partitionName);
      if !ExistsPartition(dbName, tableName, partitionName) {
        return Failure(HiveMetastoreException("Missing partition: " + SpecToString(partitionSpec)));
      }
      specToPartition := specToPartition - {partitionSpec};
      return Success(());
    }

    /**
     * getPartitionNames: the name of every partition of the table, each
     * once, in the map's iteration order.
     */
    method GetPartitionNames(dbName: string, tableName: string) returns (names: seq<string>)
      requires Valid()
      ensures forall n :: n in names <==> PartitionSpecOf(dbName, tableName, n) in specToPartition
      ensures forall i, j :: 0 <= i < j < |names| ==> names[i] != names[j]
    {
      var tableSpec := TableSpecOf(dbName, tableName);
      names := [];
      var toVisit := specToPartition.Keys;
      while toVisit != {}
        invariant toVisit <= specToPartition.Keys
        invariant forall n :: n in names ==> PartitionSpecOf(dbName, tableName, n) in specToPartition
        invariant forall n :: n in names ==> PartitionSpecOf(dbName, tableName, n) !in toVisit
        invariant forall k :: k in specToPartition && k !in toVisit && k.TableSpec() == tableSpec ==> k.partition.value in names
        invariant forall i, j :: 0 <= i < j < |names| ==> names[i] != names[j]
        decreases |toVisit|
      {
        NonEmptyHasSpec(toVisit);
        var k :| k in toVisit;
        if tableSpec == k.TableSpec() {
          assert k == PartitionSpecOf(dbName, tableName, k.partition.value);
          names := names + [k.partition.value];
        }
        toVisit := toVisit - {k};
      }
    }

    /** getTables(db, "*"): the names of the database's tables; any other pattern is refused. */
    method GetTables(dbName: string, tableName: string) returns (r: Result<seq<string>, Exception>)
      requires Valid()
      ensures tableName != "*" <==> r.Failure?
      ensures r.Failure? ==> r.error == RuntimeException("Only * (wildcard) is supported in the mock client")
      ensures r.Success? ==>
        && (forall n :: n in r.value <==> TableSpecOf(dbName, n) in specToTable)
        && (forall i, j :: 0 <= i < j < |r.value| ==> r.value[i] != r.value[j])
    {
      if tableName != "*" {
        return Failure(RuntimeException("Only * (wildcard) is supported in the mock client"));
      }
      var tableNames: seq<string> := [];
      var toVisit := specToTable.Keys;
      while toVisit != {}
        invariant toVisit <= specToTable.Keys
        invariant forall n :: n in tableNames ==> TableSpecOf(dbName, n) in specToTable && TableSpecOf(dbName, n) !in toVisit
        invariant forall k :: k in specToTable && k !in toVisit && k.db == dbName ==> k.table in tableNames
        invariant forall i, j :: 0 <= i < j < |tableNames| ==> tableNames[i] != tableNames[j]
        decreases |toVisit|
      {
        NonEmptyHasSpec(toVisit);
        var spec :| spec in toVisit;
        if spec.db == dbName {
          assert spec == TableSpecOf(dbName, spec.table);
          tableNames := tableNames + [spec.table];
        }
        toVisit := toVisit - {spec};
      }
      return Success(tableNames);
    }

    /**
     * exchangePartition: the partition named by the entries moves from the
     * source table to the destination table, which must exist, and takes
     * the destination's db and table names.
     */
    method ExchangePartition(partitionSpecs: seq<(string, string)>, sourceDb: string, sourceTable: string,
                             destDb: string, destinationTableName: string)
      returns (r: Result<Partition, Exception>)
      requires Valid()
      modifies this
      ensures Valid()
      ensures dbNameToDatabase == old(dbNameToDatabase) && specToTable == old(specToTable)
      ensures r.Failure? <==>
        PartitionSpecOf(sourceDb, sourceTable, EntriesName(partitionSpecs)) !in old(specToPartition) ||
        TableSpecOf(destDb, destinationTableName) !in specToTable
      ensures r.Failure? ==> specToPartition == old(specToPartition)
      ensures r.Success? ==>
        var name := EntriesName(partitionSpecs);
        var from := PartitionSpecOf(sourceDb, sourceTable, name);
        && r.value == old(specToPartition)[from].(db := destDb, table := destinationTableName)
        && specToPartition == (old(specToPartition) - {from})[PartitionSpecOf(destDb, destinationTableName, name) := r.value]
    {
      var partitionName := PartitionSpecToName(partitionSpecs);
      var exchangeFromPartitionSpec := PartitionSpecOf(sourceDb, sourceTable, partitionName);
      var exchangeToPartitionSpec := PartitionSpecOf(destDb, destinationTableName, partitionName);
      if !ExistsPartition(sourceDb, sourceTable, partitionName) {
        return Failure(HiveMetastoreException("Unknown source partition " + sourceDb + "." + sourceTable + "/" + partitionName));
      }
      if !ExistsTable(destDb, destinationTableName) {
        return Failure(HiveMetastoreException("Unknown destination table " + destDb + "." + destinationTableName));
      }
      var p := specToPartition[exchangeFromPartitionSpec];
      specToPartition := specToPartition - {exchangeFromPartitionSpec};
      p := p.(db := destDb, table := destinationTableName);
      specToPartition := specToPartition[exchangeToPartitionSpec := p];
      return Success(p);
    }

    /**
     * renamePartition: the partition named by partitionValues under
     * (db, table) moves to the name of p's values and takes p's values. The
     * target must not exist and the source must; the table must exist.
     */
    method RenamePartition(db: string, table: string, partitionValues: seq<string>, p: Partition)
      returns (r: Result<(), Exception>)
      requires Valid()
      modifies this
      ensures Valid()
      ensures dbNameToDatabase == old(dbNameToDatabase) && specToTable == old(specToTable)
      ensures TableSpecOf(db, table) !in specToTable ==> r == Failure(NullPointerException)
      ensures TableSpecOf(db, table) in specToTable &&
              (|partitionValues| < |specToTable[TableSpecOf(db, table)].partitionKeys| ||
               |p.values| < |specToTable[TableSpecOf(db, table)].partitionKeys|) ==>
        r == Failure(IndexOutOfBoundsException)
      ensures r.Failure? ==> specToPartition == old(specToPartition)
      ensures TableSpecOf(db, table) in specToTable &&
              |partitionValues| >= |specToTable[TableSpecOf(db, table)].partitionKeys| &&
              |p.values| >= |specToTable[TableSpecOf(db, table)].partitionKeys| ==>
        var keys := specToTable[TableSpecOf(db, table)].partitionKeys;
        var from := PartitionSpecOf(db, table, PartitionName(keys, partitionValues));
        var to := PartitionSpecOf(db, table, PartitionName(keys, p.values));
        && (r.Success? <==> to !in old(specToPartition) && from in old(specToPartition))
        && (r.Success? ==>
              && from !in specToPartition
              && specToPartition == (old(specToPartition) - {from})[to := old(specToPartition)[from].(values := p.values)])
    {
      var tableSpec := TableSpecOf(db, table);
      var t := GetTable(db, table);
      var renameFromPartitionName :- GetPartitionNameFromValues(t, partitionValues);
      var renameToPartitionName :- GetPartitionNameFromValues(t, p.values);
      var renameFromSpec := PartitionSpecOf(db, table, renameFromPartitionName);
      var renameToSpec := PartitionSpecOf(db, table, renameToPartitionName);
      if renameToSpec in specToPartition {
        return Failure(HiveMetastoreException("Partition already exists: " + SpecToString(renameToSpec)));
      }
      if renameFromSpec !in specToPartition {
        return Failure(HiveMetastoreException("Partition doesn't exist: " + renameFromPartitionName));
      }
      var removed := specToPartition[renameFromSpec];
      specToPartition := specToPartition - {renameFromSpec};
      removed := removed.(values := p.values);
      specToPartition := specToPartition[renameToSpec := removed];
      return Success(());
    }
  }

  /** The partitions that dropTable keeps: those of every other table. */
  function PartitionsNotOf(partitions: map<ObjectSpec, Partition>, tableSpec: ObjectSpec): (r: map<ObjectSpec, Partition>)
    ensures forall k :: k in r <==> k in partitions && k.TableSpec() != tableSpec
    ensures forall k :: k in r ==> r[k] == partitions[k]
  {
    map k | k in partitions && k.TableSpec() != tableSpec :: partitions[k]
  }
}
