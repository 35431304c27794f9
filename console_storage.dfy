/** The console storage of internal/adapters/output/console/storage.go: each
    stored record is flattened into one JSON object and written as a line.
    The model stops at the object: its JSON text and the write to standard
    output are not modelled, so a stored line is the flattened map itself. */
module Console {
  import opened Wrappers
  import opened Domain
  import opened Ports

  /** The keys the header of a record is written under. */
  const ReservedKeys: set<string> := {"time", "level", "app", "service", "message"}

  /** Formatting of the record's time as RFC 3339 with nanoseconds. */
  type TimeFormatter = Time -> string

  /** The object written for one record: the record's `fields`, with the five
      header entries written over them. A field whose key is a header key is
      therefore lost; every other field is kept as it is. */
  function Flatten(msg: LogMessage, formatTime: TimeFormatter): (flat: map<string, Value>)
    ensures flat.Keys == msg.fields.Keys + ReservedKeys
    ensures flat["time"] == Text(formatTime(msg.time))
    ensures flat["level"] == Text(msg.level)
    ensures flat["app"] == Text(msg.app)
    ensures flat["service"] == Text(msg.service)
    ensures flat["message"] == Text(msg.message)
    ensures forall k :: k in msg.fields && k !in ReservedKeys ==> flat[k] == msg.fields[k]
  {
    msg.fields["time" := Text(formatTime(msg.time))]["level" := Text(msg.level)]["app" := Text(msg.app)]
      ["service" := Text(msg.service)]["message" := Text(msg.message)]
  }

  /** Two records with the same header and the same non-reserved fields are
      written as the same object, whatever their reserved-key fields held. */
  lemma FlattenIgnoresShadowed(m1: LogMessage, m2: LogMessage, formatTime: TimeFormatter)
    requires m1.time == m2.time && m1.level == m2.level && m1.app == m2.app
    requires m1.service == m2.service && m1.message == m2.message
    requires forall k :: k !in ReservedKeys ==> (k in m1.fields <==> k in m2.fields)
    requires forall k :: k in m1.fields && k !in ReservedKeys ==> m1.fields[k] == m2.fields[k]
    ensures Flatten(m1, formatTime) == Flatten(m2, formatTime)
  {
    var f1, f2 := Flatten(m1, formatTime), Flatten(m2, formatTime);
    forall k | k in f1 ensures k in f2 && f1[k] == f2[k] {
      if k !in ReservedKeys {
        assert k in m1.fields;
      }
    }
    forall k | k in f2 ensures k in f1 {
      if k !in ReservedKeys {
        assert k in m2.fields;
      }
    }
  }

  /** The inner loop of Store: copy the fields one key at a time, in map
      order, then write the header. */
  method FlatMap(msg: LogMessage, formatTime: TimeFormatter) returns (flat: map<string, Value>)
    ensures flat == Flatten(msg, formatTime)
  {
    flat := map[];
    var pending := msg.fields.Keys;
    while pending != {}
      invariant pending <= msg.fields.Keys
      invariant flat.Keys == msg.fields.Keys - pending
      invariant forall k :: k in flat ==> flat[k] == msg.fields[k]
      decreases |pending|
    {
      var k :| k in pending;
      flat := flat[k := msg.fields[k]];
      pending := pending - {k};
    }
    assert flat == msg.fields;
    flat := flat["time" := Text(formatTime(msg.time))];
    flat := flat["level" := Text(msg.level)];
    flat := flat["app" := Text(msg.app)];
    flat := flat["service" := Text(msg.service)];
    flat := flat["message" := Text(msg.message)];
  }

  /** Storage.Store: one line per record, in the batch's order; it never
      fails, whatever the batch holds. */
  method Store(messages: seq<LogMessage>, formatTime: TimeFormatter)
    returns (lines: seq<map<string, Value>>, err: Option<Error>)
    ensures err == None
    ensures |lines| == |messages|
    ensures forall i :: 0 <= i < |messages| ==> lines[i] == Flatten(messages[i], formatTime)
  {
    lines := [];
    for i := 0 to |messages|
      invariant |lines| == i
      invariant forall j :: 0 <= j < i ==> lines[j] == Flatten(messages[j], formatTime)
    {
      var flat := FlatMap(messages[i], formatTime);
      lines := lines + [flat];
    }
    err := None;
  }

  /** Storage.Close: nothing to release; it never fails. */
  method Close() returns (err: Option<Error>)
    ensures err == None
  {
    err := None;
  }
}
