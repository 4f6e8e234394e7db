/**
 The control loop of `Register`. The goroutine that owns the host descriptor
 is modelled as a deterministic step function over one event at a time; the
 store is an operation log the loop appends to, and the caller's credentials
 channel is the list of pairs published so far.
 */
module Registrar {
  import opened Records
  import opened Setup

  datatype LogEntry = LostRegistration | RecoverRegistration | FailToRemove

  datatype Phase = Active | Stopped

  /**
   The loop's state. `hostValue` is the host descriptor serialised once,
   before the loop starts; `watcherStopSent` records that the ticker was
   stopped and the watcher was told to stop.
   */
  datatype State = State(
    reg: Registration,
    hostValue: string,
    published: seq<Credentials>,
    ops: seq<StoreOp>,
    logs: seq<LogEntry>,
    phase: Phase,
    watcherStopSent: bool)

  /**
   One event the loop reacts to. `Stop(deleteOk)` is the stop signal with the
   outcome of the delete it triggers; `Creds(c)` is a pair delivered by the
   watcher; `Tick(outcomes)` is one heartbeat with the outcome of each write
   attempt it made.
   */
  datatype Event = Stop(deleteOk: bool) | Creds(creds: Credentials) | Tick(outcomes: seq<bool>)

  /**
   A retry loop only returns once a write succeeds: the outcomes of a finished
   retry are some failures followed by one success.
   */
  predicate Completes(outcomes: seq<bool>) {
    && |outcomes| > 0
    && outcomes[|outcomes| - 1]
    && forall k :: 0 <= k < |outcomes| - 1 ==> !outcomes[k]
  }

  predicate WellFormed(ev: Event) {
    ev.Tick? ==> Completes(ev.outcomes)
  }

  predicate AllWellFormed(evs: seq<Event>) {
    forall k :: 0 <= k < |evs| ==> WellFormed(evs[k])
  }

  lemma AllWellFormedTail(evs: seq<Event>)
    requires AllWellFormed(evs) && |evs| > 0
    ensures WellFormed(evs[0]) && AllWellFormed(evs[1..])
  {
    assert forall k :: 0 <= k < |evs| - 1 ==> evs[1..][k] == evs[k + 1];
  }

  /**
   The write `hostRegistration` issues: the liveness key with the given value,
   expiring after the heartbeat duration unless it is written again.
   */
  function LivenessWrite(hostKey: string, hostValue: string): (op: StoreOp)
    ensures op.Set? && op.key == hostKey && op.value == hostValue
    ensures op.ttl == Some(HeartbeatDuration) && HeartbeatDuration == 5
  {
    Set(hostKey, hostValue, Some(HeartbeatDuration))
  }

  /** The requests of a retry loop that made `n` attempts of the same write. */
  function Attempts(op: StoreOp, n: nat): seq<StoreOp> {
    seq(n, _ => op)
  }

  /** The log of a retry loop that failed `failures` times before succeeding. */
  function RetryLogs(failures: nat): seq<LogEntry> {
    seq(failures, _ => LostRegistration) + (if failures == 0 then [] else [RecoverRegistration])
  }

  /**
   A retry log holds one loss per failed attempt and a recovery exactly when
   some attempt failed, and the recovery comes last.
   */
  lemma RetryLogsMeaning(failures: nat)
    ensures Count(RetryLogs(failures), LostRegistration) == failures
    ensures RecoverRegistration in RetryLogs(failures) <==> failures > 0
    ensures failures > 0 ==> RetryLogs(failures)[|RetryLogs(failures)| - 1] == RecoverRegistration
  {
    var lost := seq(failures, _ => LostRegistration);
    var tail := if failures == 0 then [] else [RecoverRegistration];
    CountConstant(failures, LostRegistration, LostRegistration);
    CountAppend(lost, tail, LostRegistration);
    assert RecoverRegistration !in lost;
  }

  function Count<T(==)>(s: seq<T>, x: T): nat
    decreases |s|
  {
    if |s| == 0 then 0 else Count(s[1..], x) + (if s[0] == x then 1 else 0)
  }

  lemma {:induction false} CountConstant<T>(n: nat, x: T, y: T)
    ensures Count(seq(n, _ => x), y) == (if x == y then n else 0)
    decreases n
  {
    if n > 0 {
      assert seq(n, _ => x)[1..] == seq(n - 1, _ => x);
      CountConstant(n - 1, x, y);
    }
  }

  /**
   The heartbeat retry loop: write once, and while the last write failed,
   log the loss, wait and write again, logging a recovery on the first
   success after a failure.
   */
  method Heartbeat(hostKey: string, hostValue: string, outcomes: seq<bool>)
    returns (ops: seq<StoreOp>, logs: seq<LogEntry>)
    requires Completes(outcomes)
    ensures ops == Attempts(LivenessWrite(hostKey, hostValue), |outcomes|)
    ensures logs == RetryLogs(|outcomes| - 1)
  {
    var i := 0;
    ops := [LivenessWrite(hostKey, hostValue)];
    logs := [];
    var ok := outcomes[0];
    while !ok
      invariant 0 <= i < |outcomes|
      invariant ok == outcomes[i]
      invariant |ops| == i + 1
      invariant forall k :: 0 <= k < |ops| ==> ops[k] == LivenessWrite(hostKey, hostValue)
      invariant logs == seq(i, _ => LostRegistration) + (if ok && i > 0 then [RecoverRegistration] else [])
      decreases |outcomes| - i
    {
      logs := logs + [LostRegistration];
      i := i + 1;
      ops := ops + [LivenessWrite(hostKey, hostValue)];
      ok := outcomes[i];
      if ok {
        logs := logs + [RecoverRegistration];
      }
    }
  }

  /** The stop signal: one non-recursive delete of the liveness key, no retry. */
  function OnStop(s: State, deleteOk: bool): (r: State)
    requires s.phase == Active
    ensures r.ops == s.ops + [Delete(s.reg.hostKey, false)]
    ensures r.logs == s.logs + (if deleteOk then [] else [FailToRemove])
    ensures r.phase == Stopped && r.watcherStopSent
    ensures r.published == s.published && r.reg == s.reg && r.hostValue == s.hostValue
  {
    var logs := if deleteOk then s.logs else s.logs + [FailToRemove];
    s.(ops := s.ops + [Delete(s.reg.hostKey, false)], logs := logs,
       phase := Stopped, watcherStopSent := true)
  }

  /** A pair from the watcher: held by both records and republished, nothing written. */
  function OnCreds(s: State, c: Credentials): (r: State)
    requires s.phase == Active
    ensures r.reg.host.Creds() == c && r.reg.infos.Creds() == c
    ensures Agree(s.reg.host, s.reg.infos) ==> Agree(r.reg.host, r.reg.infos)
    ensures r.reg.host.name == s.reg.host.name && r.reg.infos.name == s.reg.infos.name
    ensures r.reg.host.publicHostname == s.reg.host.publicHostname
    ensures r.reg.infos.publicHostname == s.reg.infos.publicHostname
    ensures r.reg.hostKey == s.reg.hostKey && r.reg.serviceKey == s.reg.serviceKey
    ensures r.published == s.published + [c]
    ensures r.ops == s.ops && r.logs == s.logs && r.hostValue == s.hostValue
    ensures r.phase == Active && r.watcherStopSent == s.watcherStopSent
  {
    var reg := s.reg.(host := s.reg.host.WithCreds(c), infos := s.reg.infos.WithCreds(c));
    s.(reg := reg, published := s.published + [c])
  }

  /** A heartbeat: the liveness key rewritten with the value serialised before the loop. */
  function OnTick(s: State, outcomes: seq<bool>): (r: State)
    requires s.phase == Active
    requires Completes(outcomes)
    ensures |r.ops| == |s.ops| + |outcomes| && r.ops[..|s.ops|] == s.ops
    ensures forall k :: |s.ops| <= k < |r.ops| ==> r.ops[k] == LivenessWrite(s.reg.hostKey, s.hostValue)
    ensures |r.logs| >= |s.logs| && r.logs[..|s.logs|] == s.logs
    ensures Count(r.logs[|s.logs|..], LostRegistration) == |outcomes| - 1
    ensures RecoverRegistration in r.logs[|s.logs|..] <==> |outcomes| > 1
    ensures r.logs == s.logs + RetryLogs(|outcomes| - 1)
    ensures r.reg == s.reg && r.hostValue == s.hostValue && r.published == s.published
    ensures r.phase == Active && r.watcherStopSent == s.watcherStopSent
  {
    var logs := RetryLogs(|outcomes| - 1);
    RetryLogsMeaning(|outcomes| - 1);
    assert (s.logs + logs)[|s.logs|..] == logs;
    s.(ops := s.ops + Attempts(LivenessWrite(s.reg.hostKey, s.hostValue), |outcomes|),
       logs := s.logs + logs)
  }

  lemma {:induction false} CountAppend<T>(a: seq<T>, b: seq<T>, x: T)
    ensures Count(a + b, x) == Count(a, x) + Count(b, x)
    decreases |a|
  {
    if |a| == 0 {
      assert a + b == b;
    } else {
      assert (a + b)[1..] == a[1..] + b;
      CountAppend(a[1..], b, x);
    }
  }

  /** The request, log and published histories of `r` extend those of `s`. */
  predicate Extends(s: State, r: State) {
    && |r.ops| >= |s.ops| && r.ops[..|s.ops|] == s.ops
    && |r.logs| >= |s.logs| && r.logs[..|s.logs|] == s.logs
    && |r.published| >= |s.published| && r.published[..|s.published|] == s.published
  }

  /**
   One turn of the loop: the `select` hands the event to its handler. Once
   stopped the loop has returned and no event has an effect.
   */
  function Step(s: State, ev: Event): (r: State)
    requires WellFormed(ev)
    ensures s.phase == Stopped ==> r == s
    ensures s.phase == Active && ev.Stop? ==> r == OnStop(s, ev.deleteOk)
    ensures s.phase == Active && ev.Creds? ==> r == OnCreds(s, ev.creds)
    ensures s.phase == Active && ev.Tick? ==> r == OnTick(s, ev.outcomes)
    ensures Extends(s, r)
    ensures r.hostValue == s.hostValue && r.reg.hostKey == s.reg.hostKey
  {
    if s.phase == Stopped then s
    else
      match ev
      case Stop(ok) => OnStop(s, ok)
      case Creds(c) => OnCreds(s, c)
      case Tick(outcomes) => OnTick(s, outcomes)
  }

  /**
   The loop over a sequence of events. History is never rewritten: requests,
   log entries and published pairs are only ever appended, and the liveness
   key and its value stay fixed.
   */
  function Run(s: State, evs: seq<Event>): (r: State)
    requires AllWellFormed(evs)
    ensures Extends(s, r)
    ensures r.hostValue == s.hostValue && r.reg.hostKey == s.reg.hostKey
    decreases |evs|
  {
    if |evs| == 0 then s
    else
      AllWellFormedTail(evs);
      var s' := Step(s, evs[0]);
      var r := Run(s', evs[1..]);
      assert r.ops[..|s.ops|] == r.ops[..|s'.ops|][..|s.ops|];
      assert r.logs[..|s.logs|] == r.logs[..|s'.logs|][..|s.logs|];
      assert r.published[..|s.published|] == r.published[..|s'.published|][..|s.published|];
      r
  }

  /** The outcomes of a finished service registration: failures, then one index. */
  predicate ServiceCompletes(outcomes: seq<Option<Index>>) {
    && |outcomes| > 0
    && outcomes[|outcomes| - 1].Some?
    && forall k :: 0 <= k < |outcomes| - 1 ==> outcomes[k].None?
  }

  /** The index returned by the one successful service registration. */
  function ServiceIndex(outcomes: seq<Option<Index>>): Index
    requires ServiceCompletes(outcomes)
  {
    outcomes[|outcomes| - 1].value
  }

  /**
   The service registration loop: write the infos record without TTL until a
   write succeeds, with no delay and no log, and keep the index it returns.
   */
  method RegisterService(serviceKey: string, serviceValue: string, outcomes: seq<Option<Index>>)
    returns (id: Index, ops: seq<StoreOp>)
    requires ServiceCompletes(outcomes)
    ensures id == ServiceIndex(outcomes)
    ensures ops == Attempts(Set(serviceKey, serviceValue, None), |outcomes|)
  {
    var i := 0;
    ops := [Set(serviceKey, serviceValue, None)];
    var result := outcomes[0];
    while result.None?
      invariant 0 <= i < |outcomes|
      invariant result == outcomes[i]
      invariant |ops| == i + 1
      invariant forall k :: 0 <= k < |ops| ==> ops[k] == Set(serviceKey, serviceValue, None)
      decreases |outcomes| - i
    {
      i := i + 1;
      ops := ops + [Set(serviceKey, serviceValue, None)];
      result := outcomes[i];
    }
    id := result.value;
  }

  /** The loop's starting state and the index that seeds the watcher's cursor. */
  datatype Started = Started(state: State, seed: Index)

  /**
   Everything `Register` does before its loop: reconcile the records,
   serialise both, register the service (the requests and index
   `RegisterService` computes), publish the starting pair, and write the
   liveness key once. The outcome of that last write is discarded, so it is
   not an input here.
   */
  function Start(service: string, host: Host, given: Option<Infos>, hostname: string,
                 encodeHost: Host -> string, encodeInfos: Infos -> string,
                 serviceOutcomes: seq<Option<Index>>): (r: Started)
    requires ServiceCompletes(serviceOutcomes)
    ensures r.seed == ServiceIndex(serviceOutcomes)
    ensures r.state.reg == Normalise(service, host, given, hostname)
    ensures r.state.hostValue == encodeHost(r.state.reg.host)
    ensures r.state.published == [r.state.reg.infos.Creds()]
    ensures r.state.ops == Attempts(Set(r.state.reg.serviceKey, encodeInfos(r.state.reg.infos), None), |serviceOutcomes|)
                           + [LivenessWrite(r.state.reg.hostKey, r.state.hostValue)]
    ensures r.state.logs == []
    ensures r.state.phase == Active && !r.state.watcherStopSent
  {
    var reg := Normalise(service, host, given, hostname);
    var hostValue := encodeHost(reg.host);
    var serviceOps := Attempts(Set(reg.serviceKey, encodeInfos(reg.infos), None), |serviceOutcomes|);
    var ops := serviceOps + [LivenessWrite(reg.hostKey, hostValue)];
    Started(State(reg, hostValue, [reg.infos.Creds()], ops, [], Active, false),
            ServiceIndex(serviceOutcomes))
  }

  // ---------------------------------------------------------------------
  // Properties of whole runs
  // ---------------------------------------------------------------------

  lemma {:induction false} RunAppend(s: State, a: seq<Event>, b: seq<Event>)
    requires AllWellFormed(a) && AllWellFormed(b)
    ensures AllWellFormed(a + b)
    ensures Run(s, a + b) == Run(Run(s, a), b)
    decreases |a|
  {
    if |a| == 0 {
      assert a + b == b;
    } else {
      assert (a + b)[0] == a[0];
      assert (a + b)[1..] == a[1..] + b;
      RunAppend(Step(s, a[0]), a[1..], b);
    }
  }

  /** After the loop has returned, no event writes, logs or publishes anything. */
  lemma {:induction false} StoppedIsInert(s: State, evs: seq<Event>)
    requires AllWellFormed(evs)
    requires s.phase == Stopped
    ensures Run(s, evs) == s
    decreases |evs|
  {
    if |evs| != 0 {
      AllWellFormedTail(evs);
      StoppedIsInert(Step(s, evs[0]), evs[1..]);
    }
  }

  /** Everything after the first stop signal is ignored. */
  lemma NothingAfterStop(s: State, before: seq<Event>, ok: bool, after: seq<Event>)
    requires AllWellFormed(before) && AllWellFormed(after)
    ensures AllWellFormed(before + [Stop(ok)] + after)
    ensures Run(s, before + [Stop(ok)] + after) == Step(Run(s, before), Stop(ok))
  {
    RunAppend(s, before, [Stop(ok)]);
    RunAppend(s, before + [Stop(ok)], after);
    StoppedIsInert(Run(s, before + [Stop(ok)]), after);
  }

  /**
   From an active loop, a run issues exactly one delete if it contains a stop
   signal and none otherwise.
   */
  lemma {:induction false} ExactlyOneDelete(s: State, evs: seq<Event>)
    requires AllWellFormed(evs)
    requires s.phase == Active
    ensures Deletes(Run(s, evs).ops) == Deletes(s.ops) + (if exists k :: 0 <= k < |evs| && evs[k].Stop? then 1 else 0)
    ensures Run(s, evs).phase == Stopped <==> exists k :: 0 <= k < |evs| && evs[k].Stop?
    decreases |evs|
  {
    if |evs| != 0 {
      AllWellFormedTail(evs);
      var s' := Step(s, evs[0]);
      match evs[0]
      case Stop(ok) =>
        DeletesAppend(s.ops, [Delete(s.reg.hostKey, false)]);
        assert Deletes([Delete(s.reg.hostKey, false)]) == 1;
        StoppedIsInert(s', evs[1..]);
      case Creds(c) =>
        ExactlyOneDelete(s', evs[1..]);
        NoStopInTail(evs);
      case Tick(outcomes) =>
        TickDeletesNothing(s, outcomes);
        ExactlyOneDelete(s', evs[1..]);
        NoStopInTail(evs);
    }
  }

  lemma TickDeletesNothing(s: State, outcomes: seq<bool>)
    requires s.phase == Active && Completes(outcomes)
    ensures Deletes(OnTick(s, outcomes).ops) == Deletes(s.ops)
  {
    var added := Attempts(LivenessWrite(s.reg.hostKey, s.hostValue), |outcomes|);
    assert OnTick(s, outcomes).ops == s.ops + added;
    NoDeletesInWrites(added, s.reg.hostKey, s.hostValue);
    DeletesAppend(s.ops, added);
  }

  lemma NoStopInTail(evs: seq<Event>)
    requires |evs| > 0 && !evs[0].Stop?
    ensures (exists k :: 0 <= k < |evs| && evs[k].Stop?) <==> (exists k :: 0 <= k < |evs| - 1 && evs[1..][k].Stop?)
  {
    if exists k :: 0 <= k < |evs| && evs[k].Stop? {
      var k :| 0 <= k < |evs| && evs[k].Stop?;
      assert evs[1..][k - 1].Stop?;
    }
  }

  lemma {:induction false} NoDeletesInWrites(ops: seq<StoreOp>, hostKey: string, hostValue: string)
    requires forall k :: 0 <= k < |ops| ==> ops[k] == LivenessWrite(hostKey, hostValue)
    ensures Deletes(ops) == 0
    decreases |ops|
  {
    if |ops| != 0 {
      NoDeletesInWrites(ops[..|ops| - 1], hostKey, hostValue);
    }
  }

  /**
   Every write the loop issues is the liveness write with the value serialised
   before the loop, whatever credential pairs arrived in between; the only
   other request it can issue is the delete of the liveness key.
   */
  lemma {:induction false} LivenessValueFixed(s: State, evs: seq<Event>)
    requires AllWellFormed(evs)
    ensures var r := Run(s, evs);
      && r.hostValue == s.hostValue && r.reg.hostKey == s.reg.hostKey
      && |r.ops| >= |s.ops| && r.ops[..|s.ops|] == s.ops
      && forall k :: |s.ops| <= k < |r.ops| ==>
           r.ops[k] == LivenessWrite(s.reg.hostKey, s.hostValue) || r.ops[k] == Delete(s.reg.hostKey, false)
    decreases |evs|
  {
    if |evs| != 0 {
      AllWellFormedTail(evs);
      var s' := Step(s, evs[0]);
      LivenessValueFixed(s', evs[1..]);
      var r := Run(s, evs);
      assert r == Run(s', evs[1..]);
      assert r.ops[..|s'.ops|] == s'.ops;
      forall k | |s.ops| <= k < |r.ops|
        ensures r.ops[k] == LivenessWrite(s.reg.hostKey, s.hostValue) || r.ops[k] == Delete(s.reg.hostKey, false)
      {
        if k < |s'.ops| {
          assert r.ops[k] == s'.ops[k];
        }
      }
      assert r.ops[..|s.ops|] == s'.ops[..|s.ops|];
    }
  }

  function CredsEvents(cs: seq<Credentials>): (evs: seq<Event>)
    ensures |evs| == |cs|
    ensures forall k :: 0 <= k < |cs| ==> evs[k] == Creds(cs[k])
  {
    seq(|cs|, k requires 0 <= k < |cs| => Creds(cs[k]))
  }

  /**
   Credential pairs from the watcher are republished in order and leave the
   store untouched; the records end up holding the last pair.
   */
  lemma {:induction false} RotationsPublishOnly(s: State, cs: seq<Credentials>)
    requires s.phase == Active
    ensures AllWellFormed(CredsEvents(cs))
    ensures var r := Run(s, CredsEvents(cs));
      && r.published == s.published + cs
      && r.ops == s.ops && r.logs == s.logs && r.phase == Active
      && r.hostValue == s.hostValue
      && (|cs| > 0 ==> r.reg.host.Creds() == cs[|cs| - 1] && r.reg.infos.Creds() == cs[|cs| - 1])
    decreases |cs|
  {
    if |cs| != 0 {
      var evs := CredsEvents(cs);
      var s' := Step(s, evs[0]);
      assert Run(s, evs) == Run(s', evs[1..]);
      assert evs[1..] == CredsEvents(cs[1..]);
      RotationsPublishOnly(s', cs[1..]);
      assert cs == [cs[0]] + cs[1..];
      AppendAssoc(s.published, [cs[0]], cs[1..]);
    }
  }

  /** Every pair the events deliver, in order, whether or not the loop still runs. */
  function CredsOf(evs: seq<Event>): seq<Credentials>
    decreases |evs|
  {
    if |evs| == 0 then []
    else (if evs[0].Creds? then [evs[0].creds] else []) + CredsOf(evs[1..])
  }

  /** The pairs delivered before the first stop signal. */
  function CredsBeforeStop(evs: seq<Event>): seq<Credentials>
    decreases |evs|
  {
    if |evs| == 0 || evs[0].Stop? then []
    else (if evs[0].Creds? then [evs[0].creds] else []) + CredsBeforeStop(evs[1..])
  }

  lemma CredsBeforeStopCons(evs: seq<Event>)
    requires |evs| > 0 && !evs[0].Stop?
    ensures evs[0].Creds? ==> CredsBeforeStop(evs) == [evs[0].creds] + CredsBeforeStop(evs[1..])
    ensures evs[0].Tick? ==> CredsBeforeStop(evs) == CredsBeforeStop(evs[1..])
  {
    if evs[0].Tick? {
      assert [] + CredsBeforeStop(evs[1..]) == CredsBeforeStop(evs[1..]);
    }
  }

  /**
   The pairs handled before a stop are a prefix of all pairs delivered, and
   all of them when no stop signal comes.
   */
  lemma {:induction false} CredsBeforeStopPrefix(evs: seq<Event>)
    ensures |CredsBeforeStop(evs)| <= |CredsOf(evs)|
    ensures CredsBeforeStop(evs) == CredsOf(evs)[..|CredsBeforeStop(evs)|]
    ensures (forall k :: 0 <= k < |evs| ==> !evs[k].Stop?) ==> CredsBeforeStop(evs) == CredsOf(evs)
    decreases |evs|
  {
    if |evs| != 0 && !evs[0].Stop? {
      var head: seq<Credentials> := if evs[0].Creds? then [evs[0].creds] else [];
      CredsBeforeStopPrefix(evs[1..]);
      var before := CredsBeforeStop(evs[1..]);
      assert (head + CredsOf(evs[1..]))[..|head| + |before|] == head + CredsOf(evs[1..])[..|before|];
      if forall k :: 0 <= k < |evs| ==> !evs[k].Stop? {
        assert forall k :: 0 <= k < |evs| - 1 ==> !evs[1..][k].Stop? by {
          forall k | 0 <= k < |evs| - 1 ensures !evs[1..][k].Stop? {
            assert evs[1..][k] == evs[k + 1];
          }
        }
      }
    }
  }

  /**
   Over any run of a running loop, the caller receives exactly the pairs that
   arrive before the stop signal, in order.
   */
  lemma {:induction false} PublishedAreCredsBeforeStop(s: State, evs: seq<Event>)
    requires AllWellFormed(evs)
    requires s.phase == Active
    ensures Run(s, evs).published == s.published + CredsBeforeStop(evs)
    decreases |evs|
  {
    if |evs| != 0 {
      AllWellFormedTail(evs);
      if evs[0].Stop? {
        PublishedAtStop(s, evs);
      } else {
        StepPublishes(s, evs[0]);
        PublishedAreCredsBeforeStop(Step(s, evs[0]), evs[1..]);
        PublishedAfterStep(s, evs);
      }
    }
  }

  /** A step other than the stop signal keeps the loop running and publishes only a delivered pair. */
  lemma StepPublishes(s: State, ev: Event)
    requires WellFormed(ev) && s.phase == Active && !ev.Stop?
    ensures Step(s, ev).phase == Active
    ensures Step(s, ev).published == s.published + (if ev.Creds? then [ev.creds] else [])
  {
    if ev.Tick? {
      assert s.published + [] == s.published;
    }
  }

  lemma PublishedAtStop(s: State, evs: seq<Event>)
    requires AllWellFormed(evs) && s.phase == Active
    requires |evs| > 0 && evs[0].Stop?
    ensures Run(s, evs).published == s.published + CredsBeforeStop(evs)
  {
    AllWellFormedTail(evs);
    var s' := Step(s, evs[0]);
    assert Run(s, evs) == Run(s', evs[1..]);
    StoppedIsInert(s', evs[1..]);
    assert s.published + [] == s.published;
  }

  lemma PublishedAfterStep(s: State, evs: seq<Event>)
    requires AllWellFormed(evs) && s.phase == Active
    requires |evs| > 0 && !evs[0].Stop? && AllWellFormed(evs[1..])
    requires Run(Step(s, evs[0]), evs[1..]).published == Step(s, evs[0]).published + CredsBeforeStop(evs[1..])
    ensures Run(s, evs).published == s.published + CredsBeforeStop(evs)
  {
    var own: seq<Credentials> := if evs[0].Creds? then [evs[0].creds] else [];
    AllWellFormedTail(evs);
    StepPublishes(s, evs[0]);
    assert Run(s, evs) == Run(Step(s, evs[0]), evs[1..]);
    CredsBeforeStopCons(evs);
    assert CredsBeforeStop(evs) == own + CredsBeforeStop(evs[1..]);
    AppendAssoc(s.published, own, CredsBeforeStop(evs[1..]));
  }

  /**
   `after` holds the last pair of `cs` in both records, or is `before` when
   `cs` is empty.
   */
  predicate HoldsLastPair(before: Registration, after: Registration, cs: seq<Credentials>) {
    && (|cs| == 0 ==> after == before)
    && (|cs| > 0 ==> after.host.Creds() == cs[|cs| - 1] && after.infos.Creds() == cs[|cs| - 1])
  }

  /**
   After any run of a running loop, host and infos hold the last pair that
   arrived before the stop signal; with none, the records are unchanged.
   */
  lemma {:induction false} RecordsHoldLastPair(s: State, evs: seq<Event>)
    requires AllWellFormed(evs)
    requires s.phase == Active
    ensures var r := Run(s, evs);
      var cs := CredsBeforeStop(evs);
      && (|cs| == 0 ==> r.reg == s.reg)
      && (|cs| > 0 ==> r.reg.host.Creds() == cs[|cs| - 1] && r.reg.infos.Creds() == cs[|cs| - 1])
    decreases |evs|
  {
    if |evs| != 0 {
      AllWellFormedTail(evs);
      if evs[0].Stop? {
        var s' := Step(s, evs[0]);
        assert Run(s, evs) == Run(s', evs[1..]);
        StoppedIsInert(s', evs[1..]);
      } else {
        StepPublishes(s, evs[0]);
        RecordsHoldLastPair(Step(s, evs[0]), evs[1..]);
        RecordsAfterStep(s, evs);
      }
    }
  }

  lemma RecordsAfterStep(s: State, evs: seq<Event>)
    requires AllWellFormed(evs) && s.phase == Active
    requires |evs| > 0 && !evs[0].Stop? && AllWellFormed(evs[1..])
    requires HoldsLastPair(Step(s, evs[0]).reg, Run(Step(s, evs[0]), evs[1..]).reg, CredsBeforeStop(evs[1..]))
    ensures HoldsLastPair(s.reg, Run(s, evs).reg, CredsBeforeStop(evs))
  {
    AllWellFormedTail(evs);
    var s' := Step(s, evs[0]);
    assert Run(s, evs) == Run(s', evs[1..]);
    CredsBeforeStopCons(evs);
  }
}
