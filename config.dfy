/** The gateway's configuration (internal/config/config.go) and the storage
    selection that both start-up paths apply to it. */
module Config {

  datatype Server = Server(logAddress: string, infoAddress: string)

  datatype Performance = Performance(bufferSize: int, batchSize: int, batchTimeoutMs: int)

  /** One entry of `storages`; `dsn` is backend-specific and unused by the console. */
  datatype StorageConfig = StorageConfig(storageType: string, enabled: bool, dsn: string)

  datatype MatchCondition = MatchCondition(service: string, level: string)

  datatype RoutingRule = RoutingRule(matchCondition: MatchCondition, destinations: seq<string>)

  datatype Config = Config(
    server: Server,
    performance: Performance,
    storages: map<string, StorageConfig>,
    routingRules: seq<RoutingRule>,
    defaultDestinations: seq<string>)

  /** The only storage type the start-up code knows how to build. */
  const ConsoleType := "console"

  /** Names of the enabled entries of the known type. */
  function ConsoleNames(storages: map<string, StorageConfig>): set<string>
  {
    set name | name in storages && storages[name].enabled && storages[name].storageType == ConsoleType
  }

  /** Names of the enabled entries of any other type. */
  function UnimplementedNames(storages: map<string, StorageConfig>): set<string>
  {
    set name | name in storages && storages[name].enabled && storages[name].storageType != ConsoleType
  }

  /** The two selections split the enabled entries between them; disabled
      entries belong to neither, whatever their type. */
  lemma SelectionPartition(storages: map<string, StorageConfig>)
    ensures ConsoleNames(storages) !! UnimplementedNames(storages)
    ensures ConsoleNames(storages) + UnimplementedNames(storages)
         == set name | name in storages && storages[name].enabled
    ensures |ConsoleNames(storages)| + |UnimplementedNames(storages)| <= |storages|
  {
    var enabled := set name | name in storages && storages[name].enabled;
    assert enabled <= storages.Keys;
    SubsetCardinality(enabled, storages.Keys);
  }

  lemma {:induction false} SubsetCardinality<T>(a: set<T>, b: set<T>)
    requires a <= b
    ensures |a| <= |b|
  {
    if a != {} {
      var x :| x in a;
      SubsetCardinality(a - {x}, b - {x});
    }
  }

  /** No element occurs twice. */
  predicate Distinct<T(==)>(s: seq<T>)
  {
    forall i, j :: 0 <= i < j < |s| ==> s[i] != s[j]
  }

  /** A sequence without repetitions has as many elements as its set. */
  lemma {:induction false} DistinctCardinality<T>(s: seq<T>, elements: set<T>)
    requires Distinct(s)
    requires forall x :: x in s <==> x in elements
    ensures |s| == |elements|
  {
    if s != [] {
      var last := s[|s| - 1];
      var init := s[..|s| - 1];
      forall x ensures x in init <==> x in elements - {last} {
        if x in init {
          var i :| 0 <= i < |init| && init[i] == x;
          assert s[i] == x;
        }
        if x in elements - {last} {
          assert x in s;
          var i :| 0 <= i < |s| && s[i] == x;
          assert init[i] == x;
        }
      }
      DistinctCardinality(init, elements - {last});
    }
  }
}
