/** The start-up and shutdown of cmd/loggate/main.go: every enabled storage
    must be of a known type, at least one must be enabled, and on shutdown
    every storage is closed. Configuration loading, the logger, the signal
    wait and the listener goroutine are not part of this model. */
module Loggate {
  import opened Wrappers
  import opened Ports
  import opened Config
  import opened Service

  /** Why main ends the process with a fatal log line. */
  datatype Reason =
    | UnknownStorageType(storageType: string)
    | NoActiveStorages
    | ListenFailed(err: Error)

  /** The storage loop: visits the entries in map order and appends a fresh
      console storage for each enabled "console" entry; the first enabled
      entry of any other type ends the process at once. An empty list ends
      it too. `names` lists the entries behind the storages, in list order. */
  method CollectStorages(storages: map<string, StorageConfig>)
    returns (result: Result<seq<LogStorage>, Reason>, ghost names: seq<string>)
    ensures result.Failure? ==> result.error.UnknownStorageType? || result.error == NoActiveStorages
    ensures result.Failure? && result.error.UnknownStorageType? <==> UnimplementedNames(storages) != {}
    ensures result.Failure? && result.error.UnknownStorageType? ==>
      exists n :: n in UnimplementedNames(storages) && storages[n].storageType == result.error.storageType
    ensures result == Failure(NoActiveStorages) <==>
      UnimplementedNames(storages) == {} && ConsoleNames(storages) == {}
    ensures result.Success? ==>
      |result.value| == |ConsoleNames(storages)| > 0
      && Distinct(result.value)
      && |names| == |result.value| && Distinct(names)
      && (forall n :: n in names <==> n in ConsoleNames(storages))
  {
    var list: seq<LogStorage> := [];
    names := [];
    var pending := storages.Keys;
    while pending != {}
      invariant pending <= storages.Keys
      invariant forall n :: n in storages && n !in pending && storages[n].enabled ==> storages[n].storageType == ConsoleType
      invariant |names| == |list| && Distinct(names)
      invariant forall n :: n in names <==> n in ConsoleNames(storages) - pending
      invariant forall i :: 0 <= i < |list| ==> list[i] == ConsoleStorage(i)
      decreases |pending|
    {
      var name :| name in pending;
      assert name !in names;
      pending := pending - {name};
      var entry := storages[name];
      if !entry.enabled {
        continue;
      }
      if entry.storageType == ConsoleType {
        // console.New(); the model numbers each storage it builds
        list := list + [ConsoleStorage(|list|)];
        names := names + [name];
      } else {
        assert name in UnimplementedNames(storages);
        return Failure(UnknownStorageType(entry.storageType)), names;
      }
    }
    assert UnimplementedNames(storages) == {};
    DistinctCardinality(names, ConsoleNames(storages));
    if |list| == 0 {
      return Failure(NoActiveStorages), names;
    }
    result := Success(list);
  }

  /** The shutdown loop: closes the storages in list order, logging each
      error and going on with the rest. `closed` is the order of the Close
      calls. */
  method CloseAll(storages: seq<LogStorage>, close: CloseFn)
    returns (closed: seq<LogStorage>, failures: seq<Failed<LogStorage>>)
    ensures closed == storages
    ensures failures == Failures(closed, close)
    ensures forall s, e :: Failed(s, e) in failures <==> s in storages && close(s) == Some(e)
  {
    closed, failures := [], [];
    for i := 0 to |storages|
      invariant closed == storages[..i]
      invariant failures == Failures(closed, close)
    {
      var err := close(storages[i]);
      FailuresAppendOne(closed, storages[i], close);
      if err.Some? {
        failures := failures + [Failed(storages[i], err.value)];
      }
      closed := closed + [storages[i]];
    }
    assert storages[..|storages|] == storages;
    forall s, e ensures Failed(s, e) in failures <==> s in storages && close(s) == Some(e) {
      FailuresExact(storages, close, s, e);
    }
  }

  /** How main ends: by a fatal log line, or by a graceful stop after the
      shutdown signal. A graceful stop reports the storages it collected, the
      Close calls it made, in order, and the close errors it logged. */
  datatype Outcome =
    | Fatal(reason: Reason)
    | Stopped(storages: seq<LogStorage>, closed: seq<LogStorage>, closeFailures: seq<Failed<LogStorage>>)

  /** main after the configuration is loaded: collect the storages, build the
      service over them, create the UDP listener (`listen` is the error that
      returns, if any), then, after the shutdown signal, close every storage. */
  method Run(cfg: Config, listen: Option<Error>, close: CloseFn) returns (outcome: Outcome)
    ensures outcome.Fatal? <==>
      UnimplementedNames(cfg.storages) != {} || ConsoleNames(cfg.storages) == {} || listen.Some?
    ensures UnimplementedNames(cfg.storages) != {} ==> outcome.Fatal? && outcome.reason.UnknownStorageType?
    ensures outcome.Fatal? && outcome.reason.UnknownStorageType? ==>
      exists n :: n in UnimplementedNames(cfg.storages) && cfg.storages[n].storageType == outcome.reason.storageType
    ensures UnimplementedNames(cfg.storages) == {} && ConsoleNames(cfg.storages) == {} ==>
      outcome == Fatal(NoActiveStorages)
    ensures UnimplementedNames(cfg.storages) == {} && ConsoleNames(cfg.storages) != {} && listen.Some? ==>
      outcome == Fatal(ListenFailed(listen.value))
    ensures outcome.Stopped? ==>
      |outcome.storages| == |ConsoleNames(cfg.storages)| && Distinct(outcome.storages)
      && outcome.closed == outcome.storages
      && outcome.closeFailures == Failures(outcome.closed, close)
  {
    var collected, names := CollectStorages(cfg.storages);
    if collected.Failure? {
      return Fatal(collected.error);
    }
    // service.NewLogService(storages): the ingester the listener would be given
    var service := new LogService(collected.value);
    if listen.Some? {
      return Fatal(ListenFailed(listen.value));
    }
    // the listener runs until SIGINT or SIGTERM; then the context is cancelled
    var closed, failures := CloseAll(collected.value, close);
    outcome := Stopped(collected.value, closed, failures);
  }
}
