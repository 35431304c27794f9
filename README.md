# loggate in Dafny

loggate is a log-shipping gateway. It receives JSON log records over UDP,
drops the ones without an `app` or `service`, and hands each remaining
record to every configured storage backend. This project models the
version of the gateway whose source is cited below:

- the UDP receive loop (`Listener.Start`), including its admission checks;
- the log service's fan-out of every record to every storage, as a batch of one (`LogService.Ingest`);
- the console storage, which flattens each record into one JSON object;
- the two start-up and shutdown paths:
  - `internal/app/app.go` skips storages of unknown type with a warning;
  - `cmd/loggate/main.go` treats an unknown type as fatal;
  - both refuse to start without an enabled storage, and both close every storage on shutdown.

The project has nine modules, one file each:

- `Wrappers`: Option and Result.
- `Domain`: the log record.
- `Ports`: the storage interface.
  - The answer a backend gives to `Store` or `Close` is a function parameter.
  - `Failures` is the shared description of a loop that logs each error and goes on.
- `Config`: the configuration entries and the two selections both start-up paths make from them:
  - enabled entries of type `console`;
  - enabled entries of any other type.
- `Service`, `Udp`, `Console`, `App` and `Loggate`: the five core files.

Effects are modelled as values that the methods return:

- the Store and Close calls made;
- the messages passed to `Ingest`;
- the lines logged;
- the objects written.

The model does not execute anything on a network.

## Model

| member | source | states |
|---|---|---|
| Ports.Failures | internal/core/service/service.go:25-29 | no more failures are logged than calls are made |
| Ports.FailuresExact | internal/core/service/service.go:25-29 | a failure (k, e) is logged exactly when k was called and answered e |
| Ports.FailuresEmpty | internal/app/app.go:67-71 | nothing is logged exactly when every call succeeded |
| Config.SelectionPartition | internal/app/app.go:24-40 | the console entries and the unimplemented entries split the enabled entries between them; disabled entries belong to neither; together they are no more than the configured entries |
| Service.LogService.constructor | internal/core/service/service.go:16-18 | NewLogService keeps the storage list it is given |
| Service.LogService.Ingest | internal/core/service/service.go:20-31 | one Store call per configured storage, in list order, each with the one-element batch [msg]; Store errors are logged and the loop goes on |
| Service.IngestFanOut | internal/core/service/service.go:20-31 | every storage receives exactly the batch [msg] of length one; no storage is skipped; a failure is logged exactly for the calls that returned an error |
| Udp.Payload | internal/adapters/input/udp/listener.go:42-61 | the decoded bytes are the whole datagram when it fits the 65535-byte buffer, and exactly its first 65535 bytes otherwise |
| Udp.Admission | internal/adapters/input/udp/listener.go:66-73 | a record is admitted exactly when app and service are both non-empty; a missing app is reported before a missing service |
| Udp.UntilCancel | internal/adapters/input/udp/listener.go:44-48 | the handled events are a prefix of the events with no cancellation in it, ended by the first cancellation if there is one |
| Udp.Start | internal/adapters/input/udp/listener.go:35-78 | the records passed to Ingest and the reports logged are those of the events before the first cancellation, in order; the loop tells whether it ended by cancellation |
| Udp.Receive | internal/adapters/input/udp/listener.go:49-75 | one iteration checks the read result first, then decoding, then app, then service, and never stops the loop |
| Udp.IngestedIsFilter | internal/adapters/input/udp/listener.go:60-75 | the Ingest sequence equals the arrival-order filter, by the admission checks, of the records decoded before cancellation |
| Udp.IngestedAreAdmitted | internal/adapters/input/udp/listener.go:66-75 | every record passed to Ingest has a non-empty app and service |
| Udp.StepsSplit | internal/adapters/input/udp/listener.go:44-77 | over events without cancellation, the steps of a concatenation are the steps of each part |
| Udp.IngestedSplit | internal/adapters/input/udp/listener.go:44-77 | over events without cancellation, the Ingest calls of a concatenation are those of each part |
| Udp.ReportsSplit | internal/adapters/input/udp/listener.go:44-77 | over events without cancellation, the reports of a concatenation are those of each part |
| Udp.CancelStops | internal/adapters/input/udp/listener.go:45-48 | nothing after a cancellation reaches Ingest or the log |
| Udp.EventIngested | internal/adapters/input/udp/listener.go:44-77 | each non-cancel event adds its own Ingest call, if any, at its place in arrival order |
| Udp.EventReported | internal/adapters/input/udp/listener.go:44-77 | each non-cancel event adds its own report, if any, at its place in arrival order |
| Udp.DeliveredOnce | internal/adapters/input/udp/listener.go:75 | a record that decodes and passes both checks is passed to Ingest exactly once, unmodified, in arrival order |
| Udp.DeliveredUnreported | internal/adapters/input/udp/listener.go:66-75 | such a record logs nothing |
| Udp.DroppedNotIngested | internal/adapters/input/udp/listener.go:52-73 | a timeout, read error, undecodable payload or record missing app or service makes no Ingest call, and the loop goes on |
| Udp.TimeoutUnreported | internal/adapters/input/udp/listener.go:53-55 | a read timeout is silent |
| Udp.ReadErrorReported | internal/adapters/input/udp/listener.go:56-57 | any other read error is logged once |
| Udp.UndecodableReported | internal/adapters/input/udp/listener.go:61-63 | a payload that does not decode is logged once, with the decoding error |
| Udp.MissingAppReported | internal/adapters/input/udp/listener.go:66-69 | a record without app is logged once as missing app, whether or not service is set |
| Udp.MissingServiceReported | internal/adapters/input/udp/listener.go:70-73 | a record with app but without service is logged once as missing service |
| Console.Flatten | internal/adapters/output/console/storage.go:19-28 | the object has the record's field keys plus the five header keys; the header keys hold time, level, app, service and message; every other field keeps its value |
| Console.FlattenIgnoresShadowed | internal/adapters/output/console/storage.go:19-28 | the object depends only on the header and the non-header fields; a field under a header key is lost |
| Console.FlatMap | internal/adapters/output/console/storage.go:19-28 | the copy loop over the fields, followed by the header writes, builds exactly the flattened object, whatever order the map is iterated in |
| Console.Store | internal/adapters/output/console/storage.go:17-34 | one object per record, in batch order; never fails |
| Console.Close | internal/adapters/output/console/storage.go:36 | never fails |
| App.BuildRegistry | internal/app/app.go:22-40 | the registry holds exactly the enabled console entries, each under its own name; exactly one warning per enabled entry of another type, carrying its type; disabled entries are ignored |
| App.CloseAll | internal/app/app.go:67-71 | every registered storage is closed exactly once; a failure is logged, with the storage's name, exactly for the storages whose Close returned an error |
| App.Run | internal/app/app.go:16-74 | fatal without a console storage, checked before the listener; fatal in the same way when the listener cannot be created; otherwise a graceful stop that closes every registered storage once; in every case exactly one warning is logged per enabled entry of unknown type, carrying that entry's type; on a graceful stop the close failures are exactly those of the close loop, one per failing Close, with the storage's name |
| Loggate.CollectStorages | cmd/loggate/main.go:39-61 | fatal with an unknown type exactly when some enabled entry is not a console entry, and the reported type is that of such an entry; otherwise fatal exactly when no entry is enabled; otherwise one storage per enabled console entry |
| Loggate.CloseAll | cmd/loggate/main.go:87-91 | Close is called on exactly the collected storages, once each, in list order; a failure is logged exactly for those whose Close returned an error |
| Loggate.Run | cmd/loggate/main.go:39-91 | fatal exactly when there is an unknown type, no storage, or a listener error, checked in that order; an unknown type reported is that of a configured enabled entry; otherwise one storage per console entry is collected and Close is called on each of them in list order on shutdown |

## Left out

- The routing and batching engine (rules, per-destination buffers, workers, flush triggers, drain on shutdown) is not part of this model. The service in internal/core/service/service.go, which this model follows, has none of it: it fans each record out to every storage as a batch of one.
- Service.LogService.Ingest: the Store calls run in separate goroutines in the source. The model lists them in launch order and treats each backend answer as fixed. It does not model any interleaving, the order in which failures are logged, or a call that never returns.
- internal/app/app.go:47 calls NewLogService with four arguments; the service.go in this model takes one. The service built on that path is not modelled. The info server (internal/adapters/input/server/server.go) and the goroutines started there are not part of this model either.
- cmd/loggate/main.go:67 reads `cfg.Server.ListenAddress`, which internal/config/config.go does not define.
- On both start-up paths, the outcome of creating the UDP listener is a parameter (`listen`). This covers address resolution and binding, listener.go:21-33.
- The network:
  - Each read is an event: a datagram, a one-second read timeout, another read error, or cancellation observed at the top of an iteration.
  - A datagram longer than the 65535-byte buffer is cut to the buffer, which is what a UDP read on Linux does.
  - The sender's address, which the missing-field warnings include, is not modelled.
  - The deferred connection close and the informational start and stop log lines are not modelled.
- Udp.Start: the source loop runs until cancellation. The model runs over a finite sequence of events and also reports whether the sequence ran out before any cancellation.
- JSON:
  - Decoding is a parameter returning a record or an error.
  - The console's `json.Marshal` and `fmt.Println` are not modelled, so a stored line is the flattened map.
  - A marshalling error, which the source ignores, is not modelled.
  - Time formatting (RFC 3339 with nanoseconds) is a parameter.
  - JSON numbers keep their literal text; their float64 value is not modelled.
- Go map iteration order is unspecified. The loops over maps pick any remaining key, and their contracts hold for every order. `App.BuildRegistry` returns the order of the warned entries, and `Loggate.CollectStorages` the order of the console entries behind its storages, as ghost values only; neither returns the whole visiting order.
- Object identity of storages is not modelled. The console storage is an empty struct, and Go does not promise that two `&Storage{}` pointers differ. The model numbers the storages each start-up path builds, so `App.Injective` in `App.BuildRegistry` and `App.Run`, and `Config.Distinct` of the storage list in `Loggate.CollectStorages` and `Loggate.Run`, speak of the model's numbers, not of distinct Go objects.
- Configuration loading, `MustGetConfig`, nil pointers inside the configuration, the logger package, the signal wait before shutdown, the Prometheus placeholder and the load generator (cmd/loggen) are not part of this model.
