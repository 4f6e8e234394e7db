/**
 How the pieces of `Register` fit together: the start-up phase seeds the
 watcher's cursor and fixes the heartbeat value, and the watcher's output is
 the stream of credential events the registrar loop consumes.
 */
module Wiring {
  import opened Records
  import opened Setup
  import Registrar
  import Watcher

  ghost predicate Injective(encode: Host -> string) {
    forall a, b :: encode(a) == encode(b) ==> a == b
  }

  /**
   The watcher started by `Register` watches the service key from the index
   of the one successful service registration. The loop receives the pairs
   the watcher accepted, in order, interleaved with ticks and the stop
   signal. The caller then receives the starting pair followed by those
   accepted pairs that arrive before the stop signal: a prefix of what the
   watcher accepted, and all of it when no stop signal comes. The host ends
   up with the last pair the caller received.
   */
  lemma PipelinePublishes(service: string, host: Host, given: Option<Infos>, hostname: string,
                          encodeHost: Host -> string, encodeInfos: Infos -> string,
                          serviceOutcomes: seq<Option<Index>>,
                          decode: string -> Option<Infos>, watchEvents: seq<Watcher.Event>,
                          loopEvents: seq<Registrar.Event>)
    requires Registrar.ServiceCompletes(serviceOutcomes)
    requires Registrar.AllWellFormed(loopEvents)
    requires Registrar.CredsOf(loopEvents) == Watcher.Successes(decode, Watcher.Live(watchEvents))
    ensures var st := Registrar.Start(service, host, given, hostname, encodeHost, encodeInfos,
                                      serviceOutcomes);
      var w := Watcher.Run(decode, Watcher.Init(st.state.reg.serviceKey, st.seed), watchEvents);
      var accepted := Watcher.Successes(decode, Watcher.Live(watchEvents));
      var received := Registrar.CredsBeforeStop(loopEvents);
      var r := Registrar.Run(st.state, loopEvents);
      && w.key == ServiceKey(service)
      && w.emitted == accepted
      && r.published == [Normalise(service, host, given, hostname).infos.Creds()] + received
      && |received| <= |accepted| && received == accepted[..|received|]
      && ((forall k :: 0 <= k < |loopEvents| ==> !loopEvents[k].Stop?) ==> received == accepted)
      && r.reg.host.Creds() == r.published[|r.published| - 1]
  {
    var st := Registrar.Start(service, host, given, hostname, encodeHost, encodeInfos,
                              serviceOutcomes);
    var w0 := Watcher.Init(st.state.reg.serviceKey, st.seed);
    Watcher.RunMatchesReference(decode, w0, watchEvents);
    assert [] + Watcher.Successes(decode, Watcher.Live(watchEvents))
        == Watcher.Successes(decode, Watcher.Live(watchEvents));
    Registrar.CredsBeforeStopPrefix(loopEvents);
    Registrar.PublishedAreCredsBeforeStop(st.state, loopEvents);
    Registrar.RecordsHoldLastPair(st.state, loopEvents);
  }

  /**
   Whatever events follow start-up, every write of the liveness key carries
   the host descriptor as it was serialised before the loop.
   */
  lemma HeartbeatUsesStartupValue(service: string, host: Host, given: Option<Infos>, hostname: string,
                                  encodeHost: Host -> string, encodeInfos: Infos -> string,
                                  serviceOutcomes: seq<Option<Index>>,
                                  evs: seq<Registrar.Event>)
    requires Registrar.ServiceCompletes(serviceOutcomes)
    requires Registrar.AllWellFormed(evs)
    ensures var st := Registrar.Start(service, host, given, hostname, encodeHost, encodeInfos,
                                      serviceOutcomes);
      var reg := Normalise(service, host, given, hostname);
      var r := Registrar.Run(st.state, evs);
      forall k :: |serviceOutcomes| <= k < |r.ops| && r.ops[k].Set? ==>
        r.ops[k] == Registrar.LivenessWrite(HostKey(service, reg.host.name), encodeHost(reg.host))
  {
    var st := Registrar.Start(service, host, given, hostname, encodeHost, encodeInfos,
                              serviceOutcomes);
    Registrar.LivenessValueFixed(st.state, evs);
  }

  /**
   A rotation does not reach the liveness key: after a pair that differs from
   the starting one, the next heartbeat still writes the old serialisation,
   which (for an encoding that tells hosts apart) is not the descriptor the
   loop now holds.
   */
  lemma RotationNotInLiveness(service: string, host: Host, given: Option<Infos>, hostname: string,
                              encodeHost: Host -> string, encodeInfos: Infos -> string,
                              serviceOutcomes: seq<Option<Index>>,
                              c: Credentials, outcomes: seq<bool>)
    requires Registrar.ServiceCompletes(serviceOutcomes)
    requires Registrar.Completes(outcomes)
    requires Injective(encodeHost)
    requires c != Normalise(service, host, given, hostname).host.Creds()
    ensures var st := Registrar.Start(service, host, given, hostname, encodeHost, encodeInfos,
                                      serviceOutcomes);
      var rotated := Registrar.Step(st.state, Registrar.Creds(c));
      var r := Registrar.Step(rotated, Registrar.Tick(outcomes));
      && r.reg.host.Creds() == c
      && r.ops[|r.ops| - 1].value == encodeHost(st.state.reg.host)
      && r.ops[|r.ops| - 1].value != encodeHost(r.reg.host)
  {
  }
}
