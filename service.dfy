/** The log service of internal/core/service/service.go: every ingested
    record is handed to every configured storage as a batch of one. */
module Service {
  import opened Wrappers
  import opened Domain
  import opened Ports

  class LogService {
    const storages: seq<LogStorage>

    /** NewLogService: keeps the storage list it is given, as given. */
    constructor (storages: seq<LogStorage>)
      ensures this.storages == storages
    {
      this.storages := storages;
    }

    /** Ingest issues one Store call per configured storage, each with the
        same one-element batch holding `msg`. A Store error is logged and the
        remaining storages are still called; Ingest itself reports nothing.
        `store` is what each backend answers. The calls are listed in the
        order the loop launches them; in the source each runs in its own
        goroutine, so that order is not an order of completion. */
    method Ingest(msg: LogMessage, store: StoreFn) returns (calls: seq<StoreCall>, logged: seq<Failed<StoreCall>>)
      ensures |calls| == |storages|
      ensures forall i :: 0 <= i < |calls| ==> calls[i] == StoreCall(storages[i], [msg])
      ensures logged == Failures(calls, store)
    {
      var batch := [msg];
      calls, logged := [], [];
      for i := 0 to |storages|
        invariant |calls| == i
        invariant forall j :: 0 <= j < i ==> calls[j] == StoreCall(storages[j], batch)
        invariant logged == Failures(calls, store)
      {
        var call := StoreCall(storages[i], batch);
        var err := store(call);
        if err.Some? {
          logged := logged + [Failed(call, err.value)];
        }
        assert (calls + [call])[..i] == calls;
        calls := calls + [call];
      }
    }
  }

  /** Consequences of Ingest's contract for one call: every storage receives
      the identical batch `[msg]` of length one, every configured storage is
      called, and a failure is logged exactly for the calls whose backend
      answered with an error, without hiding any other storage's call. */
  lemma {:induction false} IngestFanOut(storages: seq<LogStorage>, msg: LogMessage, store: StoreFn,
                                        calls: seq<StoreCall>, logged: seq<Failed<StoreCall>>)
    requires |calls| == |storages|
    requires forall i :: 0 <= i < |calls| ==> calls[i] == StoreCall(storages[i], [msg])
    requires logged == Failures(calls, store)
    ensures forall c :: c in calls ==> c.batch == [msg] && |c.batch| == 1 && c.storage in storages
    ensures forall s :: s in storages ==> StoreCall(s, [msg]) in calls
    ensures forall c, e :: Failed(c, e) in logged <==> c in calls && store(c) == Some(e)
  {
    forall c | c in calls ensures c.batch == [msg] && c.storage in storages {
      var i :| 0 <= i < |calls| && calls[i] == c;
      assert storages[i] == c.storage;
    }
    forall s | s in storages ensures StoreCall(s, [msg]) in calls {
      var i :| 0 <= i < |storages| && storages[i] == s;
      assert calls[i] == StoreCall(s, [msg]);
    }
    forall c, e ensures Failed(c, e) in logged <==> c in calls && store(c) == Some(e) {
      FailuresExact(calls, store, c, e);
    }
  }
}
