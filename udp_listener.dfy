/** The UDP receive loop of internal/adapters/input/udp/listener.go, over a
    finite sequence of the events the loop observes. The socket and the JSON
    decoder are abstract: the events say what each read returned, and the
    decoder is a parameter. */
module Udp {
  import opened Wrappers
  import opened Domain

  newtype byte = x: int | 0 <= x < 256

  /** Size of the buffer each datagram is read into. */
  const ReadBufferSize := 65535

  /** What one iteration of the loop observes. */
  datatype Event =
    | Cancelled                  // the context is done when the iteration starts
    | ReadTimeout                // the one-second read deadline expired
    | ReadError(err: string)     // any other read error
    | Datagram(data: seq<byte>)  // a datagram arrived

  /** json.Unmarshal into a LogMessage: the record, or the decoding error. */
  type Decoder = seq<byte> -> Result<LogMessage, string>

  /** What the loop logs before going on with the next iteration. */
  datatype Report =
    | ReadFailed(err: string)
    | Undecodable(err: string)
    | MissingApp(payload: seq<byte>)
    | MissingService(payload: seq<byte>)

  /** The bytes of a datagram that land in the buffer: a longer datagram is
      cut to the buffer's size. */
  function Payload(data: seq<byte>): (p: seq<byte>)
    ensures |p| == if |data| <= ReadBufferSize then |data| else ReadBufferSize
    ensures p == data[..|p|]
    ensures |data| <= ReadBufferSize ==> p == data
  {
    if |data| <= ReadBufferSize then data else data[..ReadBufferSize]
  }

  /** The admission checks on a decoded record, `app` first: None admits it,
      otherwise the report the loop logs when it drops it. */
  function Admission(msg: LogMessage, payload: seq<byte>): (r: Option<Report>)
    ensures r == None <==> msg.app != "" && msg.service != ""
    ensures msg.app == "" ==> r == Some(MissingApp(payload))
    ensures msg.app != "" && msg.service == "" ==> r == Some(MissingService(payload))
  {
    if msg.app == "" then Some(MissingApp(payload))
    else if msg.service == "" then Some(MissingService(payload))
    else None
  }

  /** What one iteration does with an event. */
  datatype Step =
    | Stop                 // return from the loop
    | Skip                 // go on silently
    | Log(report: Report)  // log and go on
    | Deliver(msg: LogMessage)  // pass to Ingest and go on

  /** The step one iteration takes on an event; `Receive` is the loop body
      that computes it. */
  function StepOf(e: Event, decode: Decoder): Step
  {
    match e
    case Cancelled => Stop
    case ReadTimeout => Skip
    case ReadError(err) => Log(ReadFailed(err))
    case Datagram(data) =>
      var payload := Payload(data);
      match decode(payload)
      case Failure(err) => Log(Undecodable(err))
      case Success(msg) =>
        match Admission(msg, payload)
        case Some(r) => Log(r)
        case None => Deliver(msg)
  }

  /** The Ingest call a step makes, if any. */
  function Delivered(step: Step): seq<LogMessage>
  {
    if step.Deliver? then [step.msg] else []
  }

  /** The report a step logs, if any. */
  function Logged(step: Step): seq<Report>
  {
    if step.Log? then [step.report] else []
  }

  /** The events before the first cancellation: the ones the loop handles. */
  function UntilCancel(events: seq<Event>): (r: seq<Event>)
    ensures forall j :: 0 <= j < |r| ==> !r[j].Cancelled?
    ensures r <= events
    ensures |r| < |events| ==> events[|r|].Cancelled?
  {
    if events == [] || events[0].Cancelled? then []
    else [events[0]] + UntilCancel(events[1..])
  }

  /** What the loop does with each of a stretch of events, in order. */
  function Steps(events: seq<Event>, decode: Decoder): (r: seq<Step>)
    ensures |r| == |events|
  {
    if events == [] then []
    else Steps(events[..|events| - 1], decode) + [StepOf(events[|events| - 1], decode)]
  }

  /** The Ingest calls a sequence of steps makes, in order. */
  function DeliveredAll(steps: seq<Step>): seq<LogMessage>
  {
    if steps == [] then []
    else DeliveredAll(steps[..|steps| - 1]) + Delivered(steps[|steps| - 1])
  }

  /** The reports a sequence of steps logs, in order. */
  function LoggedAll(steps: seq<Step>): seq<Report>
  {
    if steps == [] then []
    else LoggedAll(steps[..|steps| - 1]) + Logged(steps[|steps| - 1])
  }

  /** The Ingest calls the loop makes, in order, up to the first cancellation. */
  function Ingested(events: seq<Event>, decode: Decoder): seq<LogMessage>
  {
    DeliveredAll(Steps(UntilCancel(events), decode))
  }

  /** The reports the loop logs, in order, up to the first cancellation. */
  function Reports(events: seq<Event>, decode: Decoder): seq<Report>
  {
    LoggedAll(Steps(UntilCancel(events), decode))
  }

  /** Listener.Start: reads until the context is cancelled. Timeouts and read
      errors, undecodable payloads and records without `app` or `service` are
      skipped (all but the timeout with a report); every other record is
      passed to Ingest. The model's event sequence is finite, so the loop
      also ends when the events run out; `stopped` says whether it ended by
      cancellation. */
  method Start(events: seq<Event>, decode: Decoder)
    returns (ingested: seq<LogMessage>, reports: seq<Report>, stopped: bool)
    ensures ingested == Ingested(events, decode)
    ensures reports == Reports(events, decode)
    ensures stopped <==> exists j :: 0 <= j < |events| && events[j].Cancelled?
  {
    ingested, reports := [], [];
    ghost var steps: seq<Step> := [];
    var i := 0;
    // the `select` at the top of each iteration: stop once the context is done
    while i < |events| && !events[i].Cancelled?
      invariant 0 <= i <= |events|
      invariant forall j :: 0 <= j < i ==> !events[j].Cancelled?
      invariant steps == Steps(events[..i], decode)
      invariant ingested == DeliveredAll(steps)
      invariant reports == LoggedAll(steps)
    {
      var step := Receive(events[i], decode);
      StepsExtend(events, i, decode);
      assert (steps + [step])[..i] == steps;
      steps := steps + [step];
      match step {
        case Log(report) =>
          reports := reports + [report];
        case Deliver(msg) =>
          ingested := ingested + [msg];
        case Skip =>
      }
      i := i + 1;
    }
    stopped := i < |events|;
    UntilCancelAt(events, i);
  }

  /** One pass through the `default` branch of the loop: the read's outcome,
      then decoding, then the `app` check, then the `service` check. The
      result says what the iteration does: go on silently, log a report, or
      pass a record to Ingest. `StepOf` is its specification: the lemmas about
      the loop are stated over `StepOf`, and this method is proved to agree
      with it on every event. */
  method Receive(e: Event, decode: Decoder) returns (step: Step)
    requires !e.Cancelled?
    ensures step == StepOf(e, decode)
    ensures !step.Stop?
  {
    if e.ReadTimeout? {
      // the deadline expired: read again
      step := Skip;
    } else if e.ReadError? {
      step := Log(ReadFailed(e.err));
    } else {
      var payload := Payload(e.data);
      var decoded := decode(payload);
      if decoded.Failure? {
        step := Log(Undecodable(decoded.error));
      } else if decoded.value.app == "" {
        step := Log(MissingApp(payload));
      } else if decoded.value.service == "" {
        step := Log(MissingService(payload));
      } else {
        step := Deliver(decoded.value);
      }
    }
  }

  /** One more handled event adds its own step. */
  lemma StepsExtend(events: seq<Event>, i: nat, decode: Decoder)
    requires i < |events|
    ensures Steps(events[..i + 1], decode) == Steps(events[..i], decode) + [StepOf(events[i], decode)]
  {
    assert events[..i + 1][..i] == events[..i];
  }

  /** The handled events are the ones before the first cancellation. */
  lemma {:induction false} UntilCancelAt(events: seq<Event>, i: nat)
    requires i <= |events|
    requires forall j :: 0 <= j < i ==> !events[j].Cancelled?
    requires i < |events| ==> events[i].Cancelled?
    ensures UntilCancel(events) == events[..i]
  {
    if i == 0 {
      assert events[..0] == [];
    } else {
      assert !events[0].Cancelled?;
      var rest := events[1..];
      forall j | 0 <= j < i - 1 ensures !rest[j].Cancelled? {
        assert rest[j] == events[j + 1];
      }
      UntilCancelAt(rest, i - 1);
      assert events[..i] == [events[0]] + rest[..i - 1];
    }
  }

  /** Cancellation-free events at the front pass straight through. */
  lemma {:induction false} UntilCancelAppend(a: seq<Event>, b: seq<Event>)
    requires forall j :: 0 <= j < |a| ==> !a[j].Cancelled?
    ensures UntilCancel(a + b) == a + UntilCancel(b)
  {
    if a != [] {
      assert (a + b)[0] == a[0] && (a + b)[1..] == a[1..] + b;
      UntilCancelAppend(a[1..], b);
    } else {
      assert a + b == b;
    }
  }

  lemma {:induction false} StepsAppend(a: seq<Event>, b: seq<Event>, decode: Decoder)
    ensures Steps(a + b, decode) == Steps(a, decode) + Steps(b, decode)
    decreases |b|
  {
    if b == [] {
      assert a + b == a;
    } else {
      var b' := b[..|b| - 1];
      assert (a + b)[..|a + b| - 1] == a + b';
      StepsAppend(a, b', decode);
    }
  }

  lemma {:induction false} DeliveredAllAppend(s: seq<Step>, t: seq<Step>)
    ensures DeliveredAll(s + t) == DeliveredAll(s) + DeliveredAll(t)
    decreases |t|
  {
    if t == [] {
      assert s + t == s;
    } else {
      var t' := t[..|t| - 1];
      assert (s + t)[..|s + t| - 1] == s + t';
      DeliveredAllAppend(s, t');
    }
  }

  lemma {:induction false} LoggedAllAppend(s: seq<Step>, t: seq<Step>)
    ensures LoggedAll(s + t) == LoggedAll(s) + LoggedAll(t)
    decreases |t|
  {
    if t == [] {
      assert s + t == s;
    } else {
      var t' := t[..|t| - 1];
      assert (s + t)[..|s + t| - 1] == s + t';
      LoggedAllAppend(s, t');
    }
  }

  // ---------------------------------------------------------------------
  // An independent description of the ingested sequence: the decoded records
  // that arrived before the first cancellation, filtered by the admission
  // checks.

  /** The records the decoder accepts, in arrival order. */
  function Decoded(events: seq<Event>, decode: Decoder): seq<LogMessage>
  {
    if events == [] then []
    else
      var last := events[|events| - 1];
      Decoded(events[..|events| - 1], decode)
        + if last.Datagram? && decode(Payload(last.data)).Success? then [decode(Payload(last.data)).value] else []
  }

  /** The records with both `app` and `service` set, in order. */
  function WithAppAndService(msgs: seq<LogMessage>): seq<LogMessage>
  {
    if msgs == [] then []
    else
      var last := msgs[|msgs| - 1];
      WithAppAndService(msgs[..|msgs| - 1]) + if last.app != "" && last.service != "" then [last] else []
  }

  lemma {:induction false} WithAppAndServiceAppend(a: seq<LogMessage>, b: seq<LogMessage>)
    ensures WithAppAndService(a + b) == WithAppAndService(a) + WithAppAndService(b)
    decreases |b|
  {
    if b == [] {
      assert a + b == a;
    } else {
      var b' := b[..|b| - 1];
      assert (a + b)[..|a + b| - 1] == a + b';
      WithAppAndServiceAppend(a, b');
    }
  }

  lemma {:induction false} DeliveredAllIsFilter(events: seq<Event>, decode: Decoder)
    ensures DeliveredAll(Steps(events, decode)) == WithAppAndService(Decoded(events, decode))
  {
    if events != [] {
      var init, last := events[..|events| - 1], events[|events| - 1];
      DeliveredAllIsFilter(init, decode);
      var steps := Steps(events, decode);
      assert steps[..|steps| - 1] == Steps(init, decode);
      var d := if last.Datagram? && decode(Payload(last.data)).Success? then [decode(Payload(last.data)).value] else [];
      WithAppAndServiceAppend(Decoded(init, decode), d);
      if d != [] {
        assert WithAppAndService(d) == WithAppAndService([]) + (if d[0].app != "" && d[0].service != "" then [d[0]] else []);
      }
    }
  }

  /** The Ingest call sequence is the arrival-order filter of the valid
      decoded records received before cancellation. */
  lemma IngestedIsFilter(events: seq<Event>, decode: Decoder)
    ensures Ingested(events, decode) == WithAppAndService(Decoded(UntilCancel(events), decode))
  {
    DeliveredAllIsFilter(UntilCancel(events), decode);
  }

  /** Every record passed to Ingest has a non-empty `app` and `service`. */
  lemma IngestedAreAdmitted(events: seq<Event>, decode: Decoder)
    ensures forall m :: m in Ingested(events, decode) ==> m.app != "" && m.service != ""
  {
    IngestedIsFilter(events, decode);
    WithAppAndServiceHaveBoth(Decoded(UntilCancel(events), decode));
  }

  lemma {:induction false} WithAppAndServiceHaveBoth(msgs: seq<LogMessage>)
    ensures forall m :: m in WithAppAndService(msgs) ==> m.app != "" && m.service != ""
  {
    if msgs != [] {
      WithAppAndServiceHaveBoth(msgs[..|msgs| - 1]);
    }
  }

  /** No cancellation among the events. */
  predicate CancelFree(events: seq<Event>)
  {
    forall j :: 0 <= j < |events| ==> !events[j].Cancelled?
  }

  lemma CancelFreeWhole(a: seq<Event>)
    requires CancelFree(a)
    ensures UntilCancel(a) == a
  {
    UntilCancelAt(a, |a|);
    assert a[..|a|] == a;
  }

  /** The steps taken over a stretch without cancellation are the steps of
      each part: what one event does never depends on, or affects, another. */
  lemma StepsSplit(a: seq<Event>, b: seq<Event>, decode: Decoder)
    requires CancelFree(a)
    ensures Steps(UntilCancel(a + b), decode) == Steps(a, decode) + Steps(UntilCancel(b), decode)
  {
    UntilCancelAppend(a, b);
    StepsAppend(a, UntilCancel(b), decode);
  }

  /** Ingest calls over a stretch without cancellation are those of each part. */
  lemma IngestedSplit(a: seq<Event>, b: seq<Event>, decode: Decoder)
    requires CancelFree(a)
    ensures Ingested(a + b, decode) == Ingested(a, decode) + Ingested(b, decode)
  {
    StepsSplit(a, b, decode);
    CancelFreeWhole(a);
    DeliveredAllAppend(Steps(a, decode), Steps(UntilCancel(b), decode));
  }

  /** Reports over a stretch without cancellation are those of each part. */
  lemma ReportsSplit(a: seq<Event>, b: seq<Event>, decode: Decoder)
    requires CancelFree(a)
    ensures Reports(a + b, decode) == Reports(a, decode) + Reports(b, decode)
  {
    StepsSplit(a, b, decode);
    CancelFreeWhole(a);
    LoggedAllAppend(Steps(a, decode), Steps(UntilCancel(b), decode));
  }

  /** Nothing after a cancellation reaches Ingest or the log. */
  lemma CancelStops(a: seq<Event>, b: seq<Event>, decode: Decoder)
    requires CancelFree(a)
    ensures Ingested(a + [Cancelled] + b, decode) == Ingested(a, decode)
    ensures Reports(a + [Cancelled] + b, decode) == Reports(a, decode)
  {
    assert a + [Cancelled] + b == a + ([Cancelled] + b);
    assert UntilCancel([Cancelled] + b) == [];
    IngestedSplit(a, [Cancelled] + b, decode);
    ReportsSplit(a, [Cancelled] + b, decode);
  }

  /** The steps taken around one event that is not a cancellation. */
  lemma StepsAround(a: seq<Event>, e: Event, b: seq<Event>, decode: Decoder)
    requires CancelFree(a) && !e.Cancelled?
    ensures Steps(UntilCancel(a + [e] + b), decode) == Steps(a, decode) + [StepOf(e, decode)] + Steps(UntilCancel(b), decode)
  {
    assert a + [e] + b == (a + [e]) + b;
    assert CancelFree(a + [e]) by {
      forall j | 0 <= j < |a + [e]| ensures !(a + [e])[j].Cancelled? {
        if j < |a| {
          assert (a + [e])[j] == a[j];
        }
      }
    }
    StepsSplit(a + [e], b, decode);
    StepsAppend(a, [e], decode);
    assert [e][..0] == [];
  }

  lemma DeliveredAllAround(s: seq<Step>, step: Step, t: seq<Step>)
    ensures DeliveredAll(s + [step] + t) == DeliveredAll(s) + Delivered(step) + DeliveredAll(t)
  {
    DeliveredAllAppend(s + [step], t);
    assert (s + [step])[..|s|] == s;
  }

  lemma LoggedAllAround(s: seq<Step>, step: Step, t: seq<Step>)
    ensures LoggedAll(s + [step] + t) == LoggedAll(s) + Logged(step) + LoggedAll(t)
  {
    LoggedAllAppend(s + [step], t);
    assert (s + [step])[..|s|] == s;
  }

  /** Each event that is not a cancellation makes its own Ingest call, if
      any, at its place in arrival order, and the loop goes on after it. */
  lemma EventIngested(a: seq<Event>, e: Event, b: seq<Event>, decode: Decoder)
    requires CancelFree(a) && !e.Cancelled?
    ensures Ingested(a + [e] + b, decode) == Ingested(a, decode) + Delivered(StepOf(e, decode)) + Ingested(b, decode)
  {
    StepsAround(a, e, b, decode);
    CancelFreeWhole(a);
    DeliveredAllAround(Steps(a, decode), StepOf(e, decode), Steps(UntilCancel(b), decode));
  }

  /** Each event that is not a cancellation logs its own report, if any, at
      its place in arrival order, and the loop goes on after it. */
  lemma EventReported(a: seq<Event>, e: Event, b: seq<Event>, decode: Decoder)
    requires CancelFree(a) && !e.Cancelled?
    ensures Reports(a + [e] + b, decode) == Reports(a, decode) + Logged(StepOf(e, decode)) + Reports(b, decode)
  {
    StepsAround(a, e, b, decode);
    CancelFreeWhole(a);
    LoggedAllAround(Steps(a, decode), StepOf(e, decode), Steps(UntilCancel(b), decode));
  }

  /** A datagram whose record decodes and passes both checks is passed to
      Ingest exactly once, unmodified, at its place in arrival order. */
  lemma DeliveredOnce(a: seq<Event>, data: seq<byte>, b: seq<Event>, decode: Decoder, msg: LogMessage)
    requires CancelFree(a)
    requires decode(Payload(data)) == Success(msg) && msg.app != "" && msg.service != ""
    ensures Ingested(a + [Datagram(data)] + b, decode) == Ingested(a, decode) + [msg] + Ingested(b, decode)
  {
    EventIngested(a, Datagram(data), b, decode);
  }

  /** ... and is not logged. */
  lemma DeliveredUnreported(a: seq<Event>, data: seq<byte>, b: seq<Event>, decode: Decoder, msg: LogMessage)
    requires CancelFree(a)
    requires decode(Payload(data)) == Success(msg) && msg.app != "" && msg.service != ""
    ensures Reports(a + [Datagram(data)] + b, decode) == Reports(a, decode) + Reports(b, decode)
  {
    EventReported(a, Datagram(data), b, decode);
  }

  /** Any other event that is not a cancellation (a timeout, a read error,
      an undecodable payload, a record missing `app` or `service`) adds no
      Ingest call, and the loop goes on with the events after it. */
  lemma DroppedNotIngested(a: seq<Event>, e: Event, b: seq<Event>, decode: Decoder)
    requires CancelFree(a) && !e.Cancelled? && !StepOf(e, decode).Deliver?
    ensures Ingested(a + [e] + b, decode) == Ingested(a, decode) + Ingested(b, decode)
  {
    EventIngested(a, e, b, decode);
  }

  /** A read timeout is not logged. */
  lemma TimeoutUnreported(a: seq<Event>, b: seq<Event>, decode: Decoder)
    requires CancelFree(a)
    ensures Reports(a + [ReadTimeout] + b, decode) == Reports(a, decode) + Reports(b, decode)
  {
    EventReported(a, ReadTimeout, b, decode);
  }

  /** Any other read error is logged once, at its place. */
  lemma ReadErrorReported(a: seq<Event>, err: string, b: seq<Event>, decode: Decoder)
    requires CancelFree(a)
    ensures Reports(a + [ReadError(err)] + b, decode) == Reports(a, decode) + [ReadFailed(err)] + Reports(b, decode)
  {
    EventReported(a, ReadError(err), b, decode);
  }

  /** A payload that does not decode is logged once, with the decoding error. */
  lemma UndecodableReported(a: seq<Event>, data: seq<byte>, b: seq<Event>, decode: Decoder, err: string)
    requires CancelFree(a) && decode(Payload(data)) == Failure(err)
    ensures Reports(a + [Datagram(data)] + b, decode) == Reports(a, decode) + [Undecodable(err)] + Reports(b, decode)
  {
    assert Logged(StepOf(Datagram(data), decode)) == [Undecodable(err)];
    EventReported(a, Datagram(data), b, decode);
  }

  /** A record without `app` is logged once as missing `app`, whether or not
      `service` is set. */
  lemma MissingAppReported(a: seq<Event>, data: seq<byte>, b: seq<Event>, decode: Decoder, msg: LogMessage)
    requires CancelFree(a) && decode(Payload(data)) == Success(msg) && msg.app == ""
    ensures Reports(a + [Datagram(data)] + b, decode) == Reports(a, decode) + [MissingApp(Payload(data))] + Reports(b, decode)
  {
    EventReported(a, Datagram(data), b, decode);
  }

  /** A record with `app` but without `service` is logged once as missing
      `service`. */
  lemma MissingServiceReported(a: seq<Event>, data: seq<byte>, b: seq<Event>, decode: Decoder, msg: LogMessage)
    requires CancelFree(a) && decode(Payload(data)) == Success(msg) && msg.app != "" && msg.service == ""
    ensures Reports(a + [Datagram(data)] + b, decode) == Reports(a, decode) + [MissingService(Payload(data))] + Reports(b, decode)
  {
    EventReported(a, Datagram(data), b, decode);
  }
}
