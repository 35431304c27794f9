/** The two ports of the core (internal/core/ports/ports.go).

    LogIngester, `Ingest(ctx, msg)`, is modelled by the sequence of messages a
    caller passes to it (see Udp.Start). LogStorage is a handle plus the
    answers its methods give: the answer of a `Store` or `Close` call is a
    parameter of whoever makes the call, since it comes from the backend. */
module Ports {
  import opened Wrappers
  import opened Domain

  datatype Error = Error(text: string)

  /** A storage object behind the LogStorage interface. The repository has one
      implementation, the console storage. `instance` is the model's own
      numbering of the storages a start-up path builds: the console storage
      is an empty struct, and Go does not promise that pointers to separate
      empty structs differ, so the numbers do not stand for object identity. */
  datatype LogStorage = ConsoleStorage(instance: nat)

  /** One `Store(ctx, messages)` call on the interface. */
  datatype StoreCall = StoreCall(storage: LogStorage, batch: seq<LogMessage>)

  /** What the backend answers to a Store call: nil (None) or an error. */
  type StoreFn = StoreCall -> Option<Error>

  /** What the backend answers to `Close()`. */
  type CloseFn = LogStorage -> Option<Error>

  /** A logged failure: the call's subject and the error it returned. */
  datatype Failed<K> = Failed(subject: K, err: Error)

  /** The failures logged by a loop that makes one call per key, in order,
      logs every error and goes on with the next key. */
  function Failures<K>(keys: seq<K>, outcome: K -> Option<Error>): (r: seq<Failed<K>>)
    ensures |r| <= |keys|
  {
    if keys == [] then []
    else
      var last := keys[|keys| - 1];
      Failures(keys[..|keys| - 1], outcome)
        + match outcome(last)
          case None => []
          case Some(e) => [Failed(last, e)]
  }

  /** One more call adds its own failure, if any, at the end. */
  lemma FailuresAppendOne<K>(keys: seq<K>, k: K, outcome: K -> Option<Error>)
    ensures Failures(keys + [k], outcome)
         == Failures(keys, outcome) + if outcome(k).Some? then [Failed(k, outcome(k).value)] else []
  {
    assert (keys + [k])[..|keys|] == keys;
  }

  /** A failure is logged exactly for the keys whose call returned an error,
      with that error; a successful call logs nothing. */
  lemma {:induction false} FailuresExact<K>(keys: seq<K>, outcome: K -> Option<Error>, k: K, e: Error)
    ensures Failed(k, e) in Failures(keys, outcome) <==> k in keys && outcome(k) == Some(e)
  {
    if keys != [] {
      var init := keys[..|keys| - 1];
      FailuresExact(init, outcome, k, e);
      assert keys == init + [keys[|keys| - 1]];
    }
  }

  /** Nothing is logged precisely when every call succeeded. */
  lemma {:induction false} FailuresEmpty<K>(keys: seq<K>, outcome: K -> Option<Error>)
    ensures Failures(keys, outcome) == [] <==> forall k :: k in keys ==> outcome(k) == None
  {
    if keys != [] {
      var init := keys[..|keys| - 1];
      var last := keys[|keys| - 1];
      FailuresEmpty(init, outcome);
      assert keys == init + [last];
      if outcome(last).Some? {
        FailuresExact(keys, outcome, last, outcome(last).value);
      }
    }
  }
}
