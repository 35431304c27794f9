/** The start-up and shutdown of internal/app/app.go: storages of unknown
    type are skipped with a warning, the gateway refuses to start without a
    storage, and every storage is closed on shutdown. The info server, the
    routing configuration handed to the service and the service's own
    goroutine are not part of this model. */
module App {
  import opened Wrappers
  import opened Ports
  import opened Config

  /** The warning logged for an enabled entry whose type is not built. */
  datatype Warning = UnimplementedStorageType(storageType: string)

  /** Distinct names hold storages with distinct instance numbers. */
  predicate Injective(registry: map<string, LogStorage>)
  {
    forall a, b :: a in registry && b in registry && a != b ==> registry[a] != registry[b]
  }

  /** The registry loop: visits the entries in map order, builds a fresh
      console storage for each enabled "console" entry, keyed by its name,
      and warns about each other enabled entry. Disabled entries are passed
      over silently. `skipped` lists the names warned about, in warning
      order. */
  method BuildRegistry(storages: map<string, StorageConfig>)
    returns (registry: map<string, LogStorage>, warnings: seq<Warning>, ghost skipped: seq<string>)
    ensures registry.Keys == ConsoleNames(storages)
    ensures Injective(registry)
    ensures |skipped| == |warnings| && Distinct(skipped)
    ensures forall n :: n in skipped <==> n in UnimplementedNames(storages)
    ensures forall i :: 0 <= i < |warnings| ==>
      skipped[i] in storages && warnings[i] == UnimplementedStorageType(storages[skipped[i]].storageType)
  {
    registry, warnings, skipped := map[], [], [];
    var pending := storages.Keys;
    var next := 0;
    while pending != {}
      invariant pending <= storages.Keys
      invariant registry.Keys == ConsoleNames(storages) - pending
      invariant forall n :: n in registry ==> registry[n].instance < next
      invariant Injective(registry)
      invariant |skipped| == |warnings| && Distinct(skipped)
      invariant forall n :: n in skipped <==> n in UnimplementedNames(storages) - pending
      invariant forall i :: 0 <= i < |warnings| ==>
        skipped[i] in storages && warnings[i] == UnimplementedStorageType(storages[skipped[i]].storageType)
      decreases |pending|
    {
      var name :| name in pending;
      assert name !in skipped;
      pending := pending - {name};
      var entry := storages[name];
      if !entry.enabled {
        continue;
      }
      if entry.storageType == ConsoleType {
        // console.New(); the model numbers each storage it builds
        registry := registry[name := ConsoleStorage(next)];
        next := next + 1;
      } else {
        warnings := warnings + [UnimplementedStorageType(entry.storageType)];
        skipped := skipped + [name];
      }
    }
  }

  /** The answer of the storage registered under a name to `Close()`. */
  function CloseOutcome(registry: map<string, LogStorage>, close: CloseFn): string -> Option<Error>
  {
    name => if name in registry then close(registry[name]) else None
  }

  /** The shutdown loop: closes every registered storage once, in map order,
      logging each error with the storage's name and going on with the
      rest. `closed` is the order of the Close calls. */
  method CloseAll(registry: map<string, LogStorage>, close: CloseFn)
    returns (closed: seq<string>, failures: seq<Failed<string>>)
    ensures Distinct(closed)
    ensures forall n :: n in closed <==> n in registry
    ensures failures == Failures(closed, CloseOutcome(registry, close))
    ensures forall n, e :: Failed(n, e) in failures <==> n in registry && close(registry[n]) == Some(e)
  {
    closed, failures := [], [];
    var pending := registry.Keys;
    while pending != {}
      invariant pending <= registry.Keys
      invariant Distinct(closed)
      invariant forall n :: n in closed <==> n in registry && n !in pending
      invariant failures == Failures(closed, CloseOutcome(registry, close))
      decreases |pending|
    {
      var name :| name in pending;
      assert name !in closed;
      pending := pending - {name};
      var err := close(registry[name]);
      FailuresAppendOne(closed, name, CloseOutcome(registry, close));
      if err.Some? {
        failures := failures + [Failed(name, err.value)];
      }
      closed := closed + [name];
    }
    forall n, e ensures Failed(n, e) in failures <==> n in registry && close(registry[n]) == Some(e) {
      FailuresExact(closed, CloseOutcome(registry, close), n, e);
    }
  }

  /** A warning carries the type of some enabled entry that is not built. */
  predicate WarnsOfUnimplemented(storages: map<string, StorageConfig>, w: Warning)
  {
    exists n :: n in UnimplementedNames(storages) && w == UnimplementedStorageType(storages[n].storageType)
  }

  /** The warnings of BuildRegistry, read through its ghost names: each one
      carries the type of some unimplemented entry, and each unimplemented
      entry's type is carried by some warning. */
  lemma WarningsName(storages: map<string, StorageConfig>, skipped: seq<string>, warnings: seq<Warning>)
    requires |skipped| == |warnings|
    requires forall n :: n in skipped <==> n in UnimplementedNames(storages)
    requires forall i :: 0 <= i < |warnings| ==>
      skipped[i] in storages && warnings[i] == UnimplementedStorageType(storages[skipped[i]].storageType)
    ensures forall i :: 0 <= i < |warnings| ==> WarnsOfUnimplemented(storages, warnings[i])
    ensures forall n :: n in UnimplementedNames(storages) ==>
      UnimplementedStorageType(storages[n].storageType) in warnings
  {
    forall n | n in UnimplementedNames(storages)
      ensures UnimplementedStorageType(storages[n].storageType) in warnings
    {
      var i :| 0 <= i < |skipped| && skipped[i] == n;
      assert warnings[i] == UnimplementedStorageType(storages[n].storageType);
    }
    forall i | 0 <= i < |warnings|
      ensures WarnsOfUnimplemented(storages, warnings[i])
    {
      assert skipped[i] in skipped;
    }
  }

  /** Why Run ends the process. */
  datatype Reason = NoActiveStorages | ListenFailed(err: Error)

  /** How Run ends: by a fatal log line, or by a graceful stop once the
      context is cancelled. Either way the warnings have been logged. */
  datatype Outcome =
    | Fatal(warnings: seq<Warning>, reason: Reason)
    | Stopped(warnings: seq<Warning>, registry: map<string, LogStorage>,
              closed: seq<string>, closeFailures: seq<Failed<string>>)

  /** Run: build the registry; without a storage the start-up is fatal; then
      the UDP adapter is created on the configured log address (`listen` is
      the error that returns, if any), which is fatal too; otherwise the
      gateway runs until cancellation and then closes every storage.
      `skipped` lists the entries warned about, in warning order. */
  method Run(cfg: Config, listen: Option<Error>, close: CloseFn)
    returns (outcome: Outcome, ghost skipped: seq<string>)
    ensures |outcome.warnings| == |UnimplementedNames(cfg.storages)|
    ensures |skipped| == |outcome.warnings| && Distinct(skipped)
    ensures forall n :: n in skipped <==> n in UnimplementedNames(cfg.storages)
    ensures forall i :: 0 <= i < |outcome.warnings| ==>
      skipped[i] in cfg.storages
      && outcome.warnings[i] == UnimplementedStorageType(cfg.storages[skipped[i]].storageType)
    ensures forall i :: 0 <= i < |outcome.warnings| ==> WarnsOfUnimplemented(cfg.storages, outcome.warnings[i])
    ensures forall n :: n in UnimplementedNames(cfg.storages) ==>
      UnimplementedStorageType(cfg.storages[n].storageType) in outcome.warnings
    ensures outcome == Fatal(outcome.warnings, NoActiveStorages) <==> ConsoleNames(cfg.storages) == {}
    ensures outcome.Fatal? && outcome.reason.ListenFailed? <==> ConsoleNames(cfg.storages) != {} && listen.Some?
    ensures outcome.Fatal? && outcome.reason.ListenFailed? ==> outcome.reason.err == listen.value
    ensures outcome.Stopped? ==>
      outcome.registry.Keys == ConsoleNames(cfg.storages) && Injective(outcome.registry)
      && Distinct(outcome.closed) && (forall n :: n in outcome.closed <==> n in outcome.registry)
      && outcome.closeFailures == Failures(outcome.closed, CloseOutcome(outcome.registry, close))
      && (forall n, e :: Failed(n, e) in outcome.closeFailures <==>
            n in outcome.registry && close(outcome.registry[n]) == Some(e))
  {
    var registry, warnings;
    registry, warnings, skipped := BuildRegistry(cfg.storages);
    DistinctCardinality(skipped, UnimplementedNames(cfg.storages));
    WarningsName(cfg.storages, skipped, warnings);
    if |registry| == 0 {
      assert registry.Keys == {};
      return Fatal(warnings, NoActiveStorages), skipped;
    }
    assert registry.Keys != {};
    if listen.Some? {
      return Fatal(warnings, ListenFailed(listen.value)), skipped;
    }
    // the service, the listener and the info server run until the context is done
    var closed, failures := CloseAll(registry, close);
    outcome := Stopped(warnings, registry, closed, failures);
  }
}
