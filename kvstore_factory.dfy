/**
 * `KVStoreFactory` (kvstore.cc): the names of the five SQLite database
 * strategies, both ways, and the decision `create` makes from the
 * configuration: which backend, which strategy, and which configuration
 * strings and numbers the strategy is built from.
 */
module KVStoreFactory {
  import opened Types

  /** `db_type`. */
  datatype DbType = MultiDb | SingleDb | SingleMtDb | MultiMtDb | MultiMtVbDb

  const MultiDbName: string := "multiDB"
  const SingleDbName: string := "singleDB"
  const SingleMtDbName: string := "singleMTDB"
  const MultiMtDbName: string := "multiMTDB"
  const MultiMtVbDbName: string := "multiMTVBDB"

  /** `typeToString`. */
  function TypeToString(t: DbType): (name: string)
    ensures name != []
  {
    match t
    case MultiDb => MultiDbName
    case SingleDb => SingleDbName
    case SingleMtDb => SingleMtDbName
    case MultiMtDb => MultiMtDbName
    case MultiMtVbDb => MultiMtVbDbName
  }

  /** `stringToType`: the strategy with exactly this name; `None` where the source returns false. */
  function StringToType(name: string): (r: Option<DbType>)
  {
    if name == MultiDbName then Some(MultiDb)
    else if name == SingleDbName then Some(SingleDb)
    else if name == SingleMtDbName then Some(SingleMtDb)
    else if name == MultiMtDbName then Some(MultiMtDb)
    else if name == MultiMtVbDbName then Some(MultiMtVbDb)
    else None
  }

  /** The five names are pairwise distinct, so no two strategies share a name. */
  lemma TypeToStringInjective(a: DbType, b: DbType)
    ensures TypeToString(a) == TypeToString(b) ==> a == b
  {
    StringToTypeRoundTrip(a);
    StringToTypeRoundTrip(b);
  }

  /** Parsing a strategy's name gives back the strategy. */
  lemma StringToTypeRoundTrip(t: DbType)
    ensures StringToType(TypeToString(t)) == Some(t)
  {
    match t
    case MultiDb =>
    case SingleDb =>
      assert SingleDbName[0] != MultiDbName[0];
    case SingleMtDb =>
      assert SingleMtDbName[0] != MultiDbName[0];
      assert |SingleMtDbName| != |SingleDbName|;
    case MultiMtDb =>
      assert MultiMtDbName[0] != SingleDbName[0];
      assert |MultiMtDbName| != |MultiDbName|;
      assert |MultiMtDbName| != |SingleMtDbName|;
    case MultiMtVbDb =>
      assert |MultiMtVbDbName| != |MultiDbName| && |MultiMtVbDbName| != |SingleDbName|;
      assert |MultiMtVbDbName| != |SingleMtDbName| && |MultiMtVbDbName| != |MultiMtDbName|;
  }

  /**
   * A name is accepted exactly when it is one of the five names, and then
   * it is that strategy's name: matching is exact, with no case folding or
   * prefix match.
   */
  lemma StringToTypeExact(name: string)
    ensures StringToType(name).Some? <==> exists t :: TypeToString(t) == name
    ensures StringToType(name).Some? ==> TypeToString(StringToType(name).value) == name
  {
    match StringToType(name)
    case Some(t) =>
      assert TypeToString(t) == name;
    case None =>
      forall t | true
        ensures TypeToString(t) != name
      {
        StringToTypeRoundTrip(t);
      }
  }

  /** `stringToCharPtr`: a copy of a non-empty string, NULL (`None`) for the empty one. */
  function StringToCharPtr(str: string): (r: Option<string>)
  {
    if str != [] then Some(str) else None
  }

  /** The configuration parameters `create` reads. */
  datatype Configuration = Configuration(
    backend: string,
    dbStrategy: string,
    dbname: string,
    shardPattern: string,
    initFile: string,
    postInitFile: string,
    dbShards: nat,
    maxVBuckets: nat)

  /**
   * The arguments a SQLite strategy is constructed with; a field is `None`
   * where that strategy's constructor takes no such argument.
   */
  datatype StrategySpec = StrategySpec(
    kind: DbType,
    dbname: Option<string>,
    shardPattern: Option<Option<string>>,
    initFile: Option<string>,
    postInitFile: Option<string>,
    maxVBuckets: Option<nat>,
    shards: Option<nat>)

  /** The store `create` returns: SQLite over a strategy, or the couchdb-backed `MCKVStore`. */
  datatype Store = StrategicSqlite(strategy: StrategySpec) | CouchStore

  /**
   * The strategy object built for each `db_type`: every string argument is
   * the configuration's value passed through `stringToCharPtr`, and the
   * numbers are passed as they are.
   */
  function StrategyFor(t: DbType, c: Configuration): (s: StrategySpec)
    ensures s.kind == t
    ensures s.dbname == StringToCharPtr(c.dbname) && s.initFile == StringToCharPtr(c.initFile)
    ensures s.postInitFile == StringToCharPtr(c.postInitFile)
    ensures s.shardPattern.Some? ==> s.shardPattern.value == StringToCharPtr(c.shardPattern)
    ensures s.shards.Some? ==> s.shards.value == c.dbShards
    ensures s.maxVBuckets.Some? ==> s.maxVBuckets.value == c.maxVBuckets
  {
    var name := StringToCharPtr(c.dbname);
    var init := StringToCharPtr(c.initFile);
    var post := StringToCharPtr(c.postInitFile);
    var pattern := Some(StringToCharPtr(c.shardPattern));
    match t
    case MultiDb => StrategySpec(t, name, pattern, init, post, None, Some(c.dbShards))
    case SingleDb => StrategySpec(t, name, None, init, post, None, None)
    case SingleMtDb => StrategySpec(t, name, None, init, post, Some(c.maxVBuckets), None)
    case MultiMtDb => StrategySpec(t, name, pattern, init, post, Some(c.maxVBuckets), Some(c.dbShards))
    case MultiMtVbDb => StrategySpec(t, name, pattern, init, post, Some(c.maxVBuckets), Some(c.dbShards))
  }

  /** The sharded strategies, and only they, take a shard count and a shard pattern. */
  lemma ShardedStrategiesTakeShards(t: DbType, c: Configuration)
    ensures StrategyFor(t, c).shards.Some? <==> t in {MultiDb, MultiMtDb, MultiMtVbDb}
    ensures StrategyFor(t, c).shardPattern.Some? <==> StrategyFor(t, c).shards.Some?
    ensures StrategyFor(t, c).maxVBuckets.Some? <==> t != MultiDb && t != SingleDb
  {
  }

  /** `create`: `None` where the source returns NULL. */
  function Create(c: Configuration): (r: Option<Store>)
  {
    if c.backend == "sqlite" then
      match StringToType(c.dbStrategy)
      case None => None
      case Some(t) => Some(StrategicSqlite(StrategyFor(t, c)))
    else if c.backend == "couchdb" then Some(CouchStore)
    else None
  }

  /**
   * `create` fails exactly for an unknown backend or an unknown SQLite
   * strategy name; a SQLite store is built over the strategy of that name.
   */
  lemma CreateOutcome(c: Configuration)
    ensures Create(c).None? <==>
              (c.backend != "sqlite" && c.backend != "couchdb")
              || (c.backend == "sqlite" && forall t :: TypeToString(t) != c.dbStrategy)
    ensures Create(c) == Some(CouchStore) <==> c.backend == "couchdb"
    ensures Create(c).Some? && Create(c).value.StrategicSqlite? ==>
              c.backend == "sqlite" && TypeToString(Create(c).value.strategy.kind) == c.dbStrategy
  {
    StringToTypeExact(c.dbStrategy);
    assert "sqlite" != "couchdb";
  }
}
