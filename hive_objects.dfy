/**
 * The catalog objects the replication core passes around: object specs
 * (database, table, optional partition), the fields of Hive tables and
 * partitions that the core reads, clusters, and the exceptions the Java code
 * throws. Helpers of classes that are not part of this model (HiveObjectSpec,
 * HiveUtils, ReplicationUtils, HiveParameterKeys) are stated here once.
 */
module HiveObjects {
  import opened Wrappers
  import opened JavaStrings

  /** HiveObjectSpec: a table when partition is None, a partition otherwise. */
  datatype ObjectSpec = ObjectSpec(db: string, table: string, partition: Option<string>) {
    predicate IsPartition() {
      partition.Some?
    }

    /** getTableSpec(): the spec with the partition component dropped. */
    function TableSpec(): (r: ObjectSpec)
      ensures !r.IsPartition() && r.db == db && r.table == table
    {
      ObjectSpec(db, table, None)
    }
  }

  function TableSpecOf(db: string, table: string): ObjectSpec {
    ObjectSpec(db, table, None)
  }

  function PartitionSpecOf(db: string, table: string, partitionName: string): ObjectSpec {
    ObjectSpec(db, table, Some(partitionName))
  }

  /** HiveObjectSpec.toString(): "db.table" for a table, "db.table/partition" for a partition. */
  function SpecToString(spec: ObjectSpec): string {
    match spec.partition
    case None => spec.db + "." + spec.table
    case Some(p) => spec.db + "." + spec.table + "/" + p
  }

  /** Distinct partitions of one table have distinct lock keys, and none equals the table's key. */
  lemma SpecStringsOfOneTable(db: string, table: string, p1: string, p2: string)
    ensures SpecToString(TableSpecOf(db, table)) != SpecToString(PartitionSpecOf(db, table, p1))
    ensures p1 != p2 ==> SpecToString(PartitionSpecOf(db, table, p1)) != SpecToString(PartitionSpecOf(db, table, p2))
  {
    var prefix := db + "." + table + "/";
    assert SpecToString(PartitionSpecOf(db, table, p1)) == prefix + p1;
    assert SpecToString(PartitionSpecOf(db, table, p2)) == prefix + p2;
    if p1 != p2 {
      assert (prefix + p1)[|prefix|..] == p1;
      assert (prefix + p2)[|prefix|..] == p2;
    }
  }

  /** The fields of a Hive Table the replication core uses. */
  datatype Table = Table(
    db: string,
    name: string,
    partitionKeys: seq<string>,
    location: Option<string>,
    parameters: map<string, string>)

  /** The fields of a Hive Partition the replication core uses. */
  datatype Partition = Partition(
    db: string,
    table: string,
    values: seq<string>,
    location: Option<string>,
    parameters: map<string, string>)

  /** A partition together with its name ("ds=1/hr=2"). */
  datatype NamedPartition = NamedPartition(name: string, partition: Partition)

  /** A cluster: its name, the root of its filesystem and its scratch directory. */
  datatype Cluster = Cluster(name: string, fsRoot: string, tmpDir: string)

  /** The exceptions the modelled code throws. */
  datatype Exception =
    | HiveMetastoreException(message: string)
    | RuntimeException(message: string)
    | IOException(message: string)
    | NullPointerException
    | IndexOutOfBoundsException
    | NoSuchElementException
    | IllegalArgumentException

  /** new HiveObjectSpec(table) */
  function SpecOfTable(t: Table): ObjectSpec {
    TableSpecOf(t.db, t.name)
  }

  /** new HiveObjectSpec(namedPartition) */
  function SpecOfNamedPartition(np: NamedPartition): ObjectSpec {
    PartitionSpecOf(np.partition.db, np.partition.table, np.name)
  }

  /** HiveUtils.isPartitioned(table): the table has partition keys. */
  predicate IsPartitioned(t: Table) {
    |t.partitionKeys| > 0
  }

  /** HiveParameterKeys.SRC_CLUSTER: the parameter naming the cluster an object was copied from. */
  const SRC_CLUSTER_KEY: string := "abb_source_cluster"

  /** HiveParameterKeys.TLDT: the transfer marker parameter. */
  const TLDT_KEY: string := "transient_lastDdlTime"

  /** ReplicationUtils.getTldt: the transfer marker of an object, null when unset. */
  function GetTldt(parameters: map<string, string>): Option<string> {
    if TLDT_KEY in parameters then Some(parameters[TLDT_KEY]) else None
  }

  /** A set of specs that is not empty has a member to pick. */
  lemma NonEmptyHasSpec(s: set<ObjectSpec>)
    requires s != {}
    ensures exists x :: x in s
  {
    if forall x :: x !in s {
      assert false;
    }
  }
}
