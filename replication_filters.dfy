/**
 * The three replication filters: the pass-through filter that accepts
 * everything, and the two deployment filters that reject temporary and
 * staging tables by name. A partition is judged by its table; the table is
 * looked up among the entry's reference tables and may be missing (null), in
 * which case the deployment filters dereference null.
 */
module ReplicationFilters {
  import opened Wrappers
  import opened JavaStrings
  import opened HiveObjects
  import opened AuditLog

  datatype ReplicationFilter = PassThrough | GoldToSilver | GoldToSilverTest

  /** accept(AuditLogEntry): no filter rejects a whole entry. */
  predicate AcceptEntry(f: ReplicationFilter, e: AuditLogEntry) {
    match f
    case PassThrough => true
    case GoldToSilver => true
    case GoldToSilverTest => true
  }

  /** accept(Table) */
  function AcceptTable(f: ReplicationFilter, t: Table): (r: bool)
    ensures f.PassThrough? ==> r
    ensures f.GoldToSilver? ==>
      (r <==> !StartsWith(t.db, "tmp") && !StartsWith(t.name, "staging") && !StartsWith(t.name, "tmp"))
    ensures f.GoldToSilverTest? ==>
      (r <==> !StartsWith(t.name, "staging") && !StartsWith(t.db, "tmp") && !Contains(t.name, "_schema_upgrade"))
  {
    match f
    case PassThrough => true
    case GoldToSilver =>
      if StartsWith(t.db, "tmp") then false
      else if StartsWith(t.name, "staging") then false
      else if StartsWith(t.name, "tmp") then false
      else true
    case GoldToSilverTest =>
      if StartsWith(t.name, "staging") then false
      else if StartsWith(t.db, "tmp") then false
      else if IndexOf(t.name, "_schema_upgrade") != -1 then false
      else true
  }

  /**
   * accept(Table, Partition): the verdict on the partition's table. The
   * table is None when it was not among the reference tables; the deployment
   * filters then throw.
   */
  function AcceptPartition(f: ReplicationFilter, t: Option<Table>, p: Partition): (r: Result<bool, Exception>)
    ensures f.PassThrough? ==> r == Success(true)
    ensures !f.PassThrough? && t.None? ==> r == Failure(NullPointerException)
    ensures t.Some? ==> r == Success(AcceptTable(f, t.value))
  {
    match f
    case PassThrough => Success(true)
    case _ => if t.None? then Failure(NullPointerException) else Success(AcceptTable(f, t.value))
  }

  /** The pass-through filter accepts a superset of what any filter accepts. */
  lemma PassThroughIsWeakest(f: ReplicationFilter, t: Table, p: Partition)
    ensures AcceptTable(f, t) ==> AcceptTable(PassThrough, t)
    ensures AcceptPartition(f, Some(t), p) == Success(true) ==> AcceptPartition(PassThrough, None, p) == Success(true)
  {
  }

  /**
   * How the two deployment filters differ: they agree except that only
   * GoldToSilver rejects table names starting with "tmp" and only
   * GoldToSilverTest rejects table names containing "_schema_upgrade".
   */
  lemma DeploymentFiltersDiffer(t: Table)
    ensures !StartsWith(t.name, "tmp") && !Contains(t.name, "_schema_upgrade") ==>
      AcceptTable(GoldToSilver, t) == AcceptTable(GoldToSilverTest, t)
    ensures AcceptTable(GoldToSilver, t) && !Contains(t.name, "_schema_upgrade") ==> AcceptTable(GoldToSilverTest, t)
    ensures AcceptTable(GoldToSilverTest, t) && !StartsWith(t.name, "tmp") ==> AcceptTable(GoldToSilver, t)
  {
  }
}
