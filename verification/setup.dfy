/**
 The set-up half of `Register`: reconciling the caller's host descriptor with
 the optional shared infos record, and building the two store keys.
 */
module Setup {
  import opened Records

  /** Directory holding one liveness key per host of a service. */
  const HostsDir: string := "/services/"

  /** Directory holding one shared infos record per service. */
  const InfosDir: string := "/services_infos/"

  /** The liveness key of one host: the hosts directory, the service, '/', the host name. */
  function HostKey(service: string, name: string): (k: string)
    ensures |k| == |HostsDir| + |service| + 1 + |name|
    ensures k[..|HostsDir|] == HostsDir
    ensures k[|HostsDir|..|HostsDir| + |service|] == service
    ensures k[|HostsDir| + |service|] == '/'
    ensures k[|HostsDir| + |service| + 1..] == name
  {
    HostsDir + service + "/" + name
  }

  /** The key of a service's shared record: the infos directory followed by the service. */
  function ServiceKey(service: string): (k: string)
    ensures |k| == |InfosDir| + |service|
    ensures k[..|InfosDir|] == InfosDir
    ensures k[|InfosDir|..] == service
  {
    InfosDir + service
  }

  /** The reconciled records and the keys they are stored under. */
  datatype Registration = Registration(host: Host, infos: Infos, hostKey: string, serviceKey: string)

  /** The host and the infos record carry the same public hostname and credentials. */
  predicate Agree(host: Host, infos: Infos) {
    && host.publicHostname == infos.publicHostname
    && host.Creds() == infos.Creds()
  }

  /** An unnamed host takes the machine's hostname. */
  function WithDefaultName(host: Host, hostname: string): Host {
    if |host.name| == 0 then host.(name := hostname) else host
  }

  /** The infos record the caller supplied, or a fresh one holding the host's credentials. */
  function InitialInfos(host: Host, given: Option<Infos>): Infos {
    match given
    case Some(infos) => infos
    case None => Infos("", "", host.user, host.password)
  }

  /** The infos record adopts the host's public hostname only when it has none of its own. */
  function MergePublicHostname(infos: Infos, host: Host): Infos {
    if |infos.publicHostname| == 0 && |host.publicHostname| != 0 then
      infos.(publicHostname := host.publicHostname)
    else
      infos
  }

  /** The whole reconciliation, step by step in the order the set-up code performs it. */
  function Normalise(service: string, host: Host, given: Option<Infos>, hostname: string): (r: Registration)
    ensures r.host.name == (if |host.name| == 0 then hostname else host.name)
    ensures given.None? ==> r.infos.Creds() == host.Creds()
    ensures given.Some? ==> r.infos.Creds() == given.value.Creds()
    ensures r.infos.publicHostname ==
      (if given.Some? && |given.value.publicHostname| != 0 then given.value.publicHostname
       else host.publicHostname)
    ensures r.infos.name == service
    ensures Agree(r.host, r.infos)
    ensures r.hostKey == HostKey(service, r.host.name)
    ensures r.serviceKey == ServiceKey(service)
  {
    var named := WithDefaultName(host, hostname);
    var infos := MergePublicHostname(InitialInfos(named, given), named).(name := service);
    var synced := named.(publicHostname := infos.publicHostname).WithCreds(infos.Creds());
    Registration(synced, infos, HostKey(service, synced.name), ServiceKey(service))
  }

  /** Registering again with the reconciled records changes nothing. */
  lemma NormaliseIdempotent(service: string, host: Host, given: Option<Infos>, hostname: string)
    ensures var r := Normalise(service, host, given, hostname);
      Normalise(service, r.host, Some(r.infos), hostname) == r
  {
  }

  /** A host key and a service key never name the same store entry. */
  lemma KeysDisjoint(service: string, name: string, other: string)
    ensures HostKey(service, name) != ServiceKey(other)
  {
    assert HostKey(service, name)[9] == '/';
    assert ServiceKey(other)[9] == '_';
  }

  /** Within one service, distinct host names give distinct liveness keys. */
  lemma HostKeyInjective(service: string, a: string, b: string)
    requires HostKey(service, a) == HostKey(service, b)
    ensures a == b
  {
  }

  /** Service names without '/' can never be confused through their host keys. */
  lemma HostKeyDetermines(s1: string, n1: string, s2: string, n2: string)
    requires '/' !in s1 && '/' !in s2
    requires HostKey(s1, n1) == HostKey(s2, n2)
    ensures s1 == s2 && n1 == n2
  {
  }
}
