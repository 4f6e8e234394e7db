# Service registration and credential rotation, modelled in Dafny

This project models `service/register.go` of etcd-discovery. `Register` keeps a
host's liveness key alive in etcd. Meanwhile it watches the service's shared infos
record for new credentials and hands each new pair to the caller. It has three
pieces of sequential logic, and each becomes one module here:

- **Set-up** (`Setup`, `setup.dfy`). This reconciles the caller's `Host` with
  the optional shared `Infos` record. It fills in the default host name, builds
  an `Infos` record from the host's credentials when none is given, merges the
  public hostname, copies the credentials and public hostname back onto the
  host, and builds the keys `/services/<service>/<name>` and
  `/services_infos/<service>`.
- **Registrar loop** (`Registrar`, `registrar.dfy`). The goroutine's `select`
  loop becomes a step function over an explicit event: `Stop(deleteOk)`,
  `Creds(pair)` or `Tick(outcomes)`. A `Tick` carries the outcome of each write
  attempt of one heartbeat: failures followed by one success. The store is an
  appended log of `Set`/`Delete` requests. The caller's channel is the list of
  pairs published so far. `Start` covers everything before the loop:
  registering the service (retried with no delay until it succeeds), publishing
  the starting pair, and one liveness write whose result is discarded.
- **Watcher** (`Watcher`, `watcher.dfy`). `watch` becomes a state machine over
  a cursor. Each step consumes one event. The event is either the stop signal,
  noting whether it cancels a poll in flight, or one long-poll outcome: a
  transport error, or a change whose value may fail to decode.
- `Wiring` (`wiring.dfy`) connects the three. The successful service
  registration seeds the watcher's cursor. What the watcher emits is the
  stream of `Creds` events the loop consumes.
- `Records` (`records.dfy`) holds the records themselves. `Host`, `Infos` and
  `Credentials` keep only the fields this file reads or writes. `Index` is the
  unsigned 64-bit modification index.

JSON encoding is not modelled. `json.Marshal` becomes the parameters
`encodeHost`/`encodeInfos`, and `json.Unmarshal` becomes a parameter
`decode: string -> Option<Infos>` that can fail.

Credential rotation does not reach the liveness key. The host is serialised
once, before the loop (`hostValue`, lines 45-46), and every heartbeat writes
that string (lines 86 and 93). `Wiring.HeartbeatUsesStartupValue` and
`Wiring.RotationNotInLiveness` state this as proven behaviour.

The watcher assigns the index the store returns without checking it
(line 132). `Watcher.CursorMonotone` therefore assumes the store keeps its
watch contract (`Watcher.Honest`): each change it returns is newer than the
index it was asked about.

## Model

| member | source | states |
|---|---|---|
| Setup.Normalise | service/register.go:18-48 | an empty host name becomes the machine hostname and a non-empty one is kept; without a supplied infos record the credentials come from the host, otherwise from the record; the infos public hostname keeps its own non-empty value and otherwise takes the host's; afterwards host and infos agree on public hostname and credentials, the infos name is the service, and the keys are `/services/<service>/<name>` and `/services_infos/<service>` |
| Setup.HostKey | service/register.go:44 | the liveness key is the hosts directory `/services/`, the service, one '/', then the host name, each recoverable from its position |
| Setup.ServiceKey | service/register.go:48 | the infos key is the directory `/services_infos/` followed by the service name |
| Setup.NormaliseIdempotent | service/register.go:19-37 | reconciling the already reconciled host and infos again gives the same records and keys |
| Setup.KeysDisjoint | service/register.go:44-48 | a host key never equals a service key |
| Setup.HostKeyInjective | service/register.go:44 | two hosts of one service with different names have different liveness keys |
| Setup.HostKeyDetermines | service/register.go:44 | for service names without '/', a liveness key determines both the service and the host name |
| Registrar.LivenessWrite | service/register.go:143-150 | the host write is a `Set` of the liveness key with the pre-serialised host value and a TTL of 5 seconds, so the key expires unless it is written again |
| Registrar.RegisterService | service/register.go:55-58 | the registration loop writes the infos record without TTL once per attempt until one succeeds, and returns the modification index of that success; these are the requests and the seed `Start` uses |
| Registrar.Start | service/register.go:44-67 | before the loop: the records are the reconciled ones; the heartbeat value is the serialised reconciled host; the requests are those of the service registration loop (one TTL-less infos write per attempt) followed by one liveness write with TTL 5, whose result is not used; the starting pair is published once; the cursor seed is the index the registration loop returns; nothing is logged |
| Registrar.Step | service/register.go:69-99 | a stopped loop ignores every event; a running loop hands a stop, a credential event or a tick to its handler; every step only appends to the request log, the log and the published pairs, and keeps the liveness key and value |
| Registrar.Run | service/register.go:69-99 | over any sequence of events, requests, log entries and published pairs are only appended, never rewritten, and the liveness key and its pre-serialised value never change |
| Registrar.OnStop | service/register.go:71-78 | a stop appends exactly one non-recursive delete of the liveness key, logs a removal failure only when the delete fails, never retries, stops the loop and signals the watcher; records and published pairs are unchanged |
| Registrar.OnCreds | service/register.go:79-84 | a credential event sets both host and infos credentials to the pair and appends it to the published pairs; it issues no store request, logs nothing, leaves the heartbeat value and all other fields alone, and the loop keeps running |
| Registrar.Heartbeat | service/register.go:85-97 | the retry loop issues one liveness write per attempt, all with the pre-serialised value and TTL 5, and its log is exactly the retry log of its failures: one loss per failed attempt and one recovery only when the success came after a failure |
| Registrar.RetryLogsMeaning | service/register.go:89-96 | the log of a finished retry holds one loss entry per failed attempt, and a recovery entry exactly when at least one attempt failed, as its last entry |
| Registrar.OnTick | service/register.go:85-97 | a tick appends one liveness write (same key, same pre-serialised value, TTL 5) per attempt, the same requests the heartbeat loop computes; it appends exactly the retry log of its failures (as many loss entries as failed attempts, and a final recovery entry exactly when there was at least one failure) and nothing else; records, published pairs and the running state are unchanged |
| Registrar.StoppedIsInert | service/register.go:76-78 | once the loop has returned, no event changes anything: no write, log or published pair |
| Registrar.NothingAfterStop | service/register.go:69-78 | the events after the first stop signal have no effect: the run ends in the state the stop produced |
| Registrar.ExactlyOneDelete | service/register.go:71-78 | from a running loop, a run issues exactly one delete if it contains a stop signal and none otherwise, and the loop has stopped exactly when a stop signal came |
| Registrar.LivenessValueFixed | service/register.go:69-99 | over any run, the liveness key and heartbeat value never change, earlier requests are kept, and every new request is either the liveness write with the pre-serialised value or the delete of the liveness key |
| Registrar.PublishedAreCredsBeforeStop | service/register.go:69-99 | over any run of a running loop, the published pairs grow by exactly the pairs delivered before the first stop signal, in order; ticks and the stop publish nothing, and nothing is published after the stop |
| Registrar.RecordsHoldLastPair | service/register.go:79-83 | after any run of a running loop, host and infos both hold the last pair delivered before the stop signal, and with no such pair the records are unchanged |
| Registrar.CredsBeforeStopPrefix | service/register.go:69-79 | the pairs the loop handles are a prefix of the pairs delivered to it, and all of them when no stop signal comes |
| Registrar.RotationsPublishOnly | service/register.go:79-84 | a sequence of credential events publishes exactly those pairs in order, writes and logs nothing, keeps the loop running, and leaves both records holding the last pair |
| Watcher.Init | service/register.go:105-108 | the watcher starts at the seed index, not stopped, having issued no poll, emitted nothing and logged nothing, and in the state the cursor monotonicity lemma assumes |
| Watcher.Step | service/register.go:109-114 | a stopped watcher ignores every event; otherwise the stop signal goes to the cancel handler and a poll outcome to the outcome handler; the key never changes, and the watcher is stopped after a step exactly when it was stopped before or the event was the stop signal |
| Watcher.OnCancel | service/register.go:111-113 | the stop signal stops the watcher with its cursor and emitted pairs unchanged; a poll in flight was issued at the cursor and fails with the cancellation, adding one lost-watch entry; with no poll in flight nothing is requested or logged |
| Watcher.OnOutcome | service/register.go:116-137 | each poll is issued at the current cursor; a watch error or a decode error keeps the cursor and emits nothing, logging once; an accepted change moves the cursor to the change's modification index and emits exactly its (user, password) pair |
| Watcher.Run | service/register.go:109-140 | over any sequence of events the watcher keeps watching the same key, polls, emitted pairs and log entries are only appended, never rewritten, and a stopped watcher stays stopped |
| Watcher.StoppedIsInert | service/register.go:111-113 | a stopped watcher issues no poll and emits nothing more |
| Watcher.RunMatchesReference | service/register.go:105-141 | over any run, the cursor is the index of the last accepted change (or the seed); exactly the accepted pairs are emitted, in order; one poll is issued per outcome before the stop, the k-th asking after the last index accepted among the k outcomes before it, plus, when a stop cancels a poll in flight, one at the final cursor; the log holds, in order, a lost-watch entry per transport error and a decode entry per undecodable change, then a lost-watch entry for a cancelled poll; and the watcher is stopped exactly when a stop signal came |
| Watcher.CursorMonotone | service/register.go:119-132 | if the store only returns changes newer than the requested index, the cursor never decreases, polls resume at non-decreasing indices, and any emitted pair strictly advances the cursor |
| Wiring.PipelinePublishes | service/register.go:55-84 | the watcher watches the service key from the registration's index and emits exactly the pairs it accepted; when the loop receives those pairs in order, interleaved with any ticks and stop signal, the caller receives the starting pair followed by the accepted pairs that arrive before the stop (all of them when no stop comes), and the host ends up with the last pair the caller received |
| Wiring.HeartbeatUsesStartupValue | service/register.go:44-97 | after start-up, every store write of any run is the liveness write of the host as reconciled and serialised before the loop |
| Wiring.RotationNotInLiveness | service/register.go:79-93 | after a rotation to a different pair, the next heartbeat still writes the start-up serialisation, which (for an encoding that tells hosts apart) differs from the serialisation of the host the loop now holds |

## Left out

- The etcd client (`KAPI().Set/Delete/Watcher`, `Client().Endpoints()`) is an external store. Its results are event inputs, and its requests go into an operation log.
- `json.Marshal` and `json.Unmarshal` are function parameters. The JSON format is not modelled.
- Goroutines, channel buffering and blocking, `select` nondeterminism and context cancellation are not modelled. Each component is a sequential step function over an explicit event sequence, so "at most one long poll in flight" holds by construction and is not proved.
- `time.Ticker` and `time.Sleep` are not modelled. A tick is an event, the one-second pause between retries is not recorded, and TTL expiry is not reasoned about in time.
- The records are the caller's shared objects, and that sharing is not modelled. `Register` takes pointers and updates the caller's `Host` and `Infos` in place. It does so before returning (lines 20 and 29-37) and again from the goroutine after returning (lines 80-83), concurrently with the caller. The model keeps the records by value in the loop's state.
- Log messages keep only their kind. The message text, the error and the endpoint list are dropped.
- A heartbeat or service registration that never succeeds runs forever in the source. The model only represents finished retries (`Registrar.Completes`, `Registrar.ServiceCompletes`).
- The `Host`, `Infos` and `Credentials` definitions and the `hostname` global are not part of this model. The records keep only the fields used here, and `hostname` is a parameter.
- The ticker is created before service registration starts (line 53). Its first tick can only be handled once the loop runs, so the model does not record its creation.
