// The Open Screen discovery backend (client/openscreen/mdns_service.cpp):
// endpoint conversion, the state mapping, the fatal-error flag, the
// interface filter and the start-up of one watcher per service type.

module OpenScreenService {
  import opened Wrappers
  import opened Addresses
  import opened ServiceInfos
  import opened Registry
  import opened TransportMdns

  /** A resolved DNS-SD instance as the discovery library reports it. */
  datatype Endpoint = Endpoint(
    instanceId: string,
    serviceId: string,
    addresses: seq<IPAddress>,
    port: Port,
    txt: seq<TxtRecord>)

  // ---------------------------------------------------------------------
  // Address partition
  // ---------------------------------------------------------------------

  /** The last IPv4 address of the list, if there is one. */
  function LastV4(addresses: seq<IPAddress>): Option<IPv4Address>
  {
    if addresses == [] then None
    else
      var last := addresses[|addresses| - 1];
      if last.V4? then Some(last.v4) else LastV4(addresses[..|addresses| - 1])
  }

  /** None exactly when no address is IPv4; otherwise an IPv4 address of the list with none after it. */
  lemma {:induction false} LastV4Spec(addresses: seq<IPAddress>)
    ensures LastV4(addresses).None? <==> forall i :: 0 <= i < |addresses| ==> !addresses[i].V4?
    ensures LastV4(addresses).Some? ==>
              exists i :: 0 <= i < |addresses| && addresses[i] == V4(LastV4(addresses).value)
                          && forall j :: i < j < |addresses| ==> !addresses[j].V4?
    decreases |addresses|
  {
    if addresses != [] && !addresses[|addresses| - 1].V4? {
      var front := addresses[..|addresses| - 1];
      LastV4Spec(front);
      if LastV4(front).Some? {
        var k :| 0 <= k < |front| && front[k] == V4(LastV4(front).value)
                 && forall j :: k < j < |front| ==> !front[j].V4?;
        assert addresses[k] == front[k];
      } else {
        assert forall i :: 0 <= i < |front| ==> front[i] == addresses[i];
      }
    }
  }

  /** The IPv6 addresses of the list, as a set. */
  function V6Set(addresses: seq<IPAddress>): (r: set<IPv6Address>)
    ensures forall a :: a in r <==> V6(a) in addresses
  {
    set x | x in addresses && x.V6? :: x.v6
  }

  /** Appending addresses of which none is IPv4 keeps the last IPv4 address. */
  lemma LastV4IgnoresTrailingV6(addresses: seq<IPAddress>, more: seq<IPAddress>)
    requires forall i :: 0 <= i < |more| ==> !more[i].V4?
    ensures LastV4(addresses + more) == LastV4(addresses)
    decreases |more|
  {
    if more != [] {
      var xs := addresses + more;
      assert xs[..|xs| - 1] == addresses + more[..|more| - 1];
      LastV4IgnoresTrailingV6(addresses, more[..|more| - 1]);
    } else {
      assert addresses + more == addresses;
    }
  }

  /** A later IPv4 address replaces an earlier one. */
  lemma LastV4TakesLater(addresses: seq<IPAddress>, a: IPv4Address)
    ensures LastV4(addresses + [V4(a)]) == Some(a)
  {
  }

  /**
   * The conversion loop of `OnOpenScreenServiceReceiverResult`: each IPv4
   * address overwrites the previous one, each IPv6 address joins the set.
   */
  method PartitionAddresses(addresses: seq<IPAddress>) returns (ipv4: Option<IPv4Address>, ipv6: set<IPv6Address>)
    ensures ipv4 == LastV4(addresses)
    ensures ipv6 == V6Set(addresses)
  {
    ipv4 := None;
    ipv6 := {};
    var i := 0;
    while i < |addresses|
      invariant 0 <= i <= |addresses|
      invariant ipv4 == LastV4(addresses[..i])
      invariant ipv6 == V6Set(addresses[..i])
    {
      assert addresses[..i + 1][..i] == addresses[..i];
      match addresses[i] {
        case V4(a) =>
          ipv4 := Some(a);
        case V6(a) =>
          ipv6 := ipv6 + {a};
      }
      i := i + 1;
    }
    assert addresses[..i] == addresses;
  }

  /** The record built from an endpoint; the TXT parser is a parameter. */
  function EndpointRecord(e: Endpoint, parseTxt: seq<TxtRecord> -> map<string, string>): (si: ServiceInfo)
    ensures si.instance == e.instanceId && si.service == e.serviceId && si.port == e.port
    ensures si.attributes == parseTxt(e.txt)
    ensures si.v4Address == LastV4(e.addresses) && si.v6Addresses == V6Set(e.addresses)
  {
    Make(e.instanceId, e.serviceId, LastV4(e.addresses), V6Set(e.addresses), e.port, e.txt, parseTxt)
  }

  /** Reordering or repeating IPv6 addresses gives the same record. */
  lemma EndpointRecordV6Order(e: Endpoint, f: Endpoint, parseTxt: seq<TxtRecord> -> map<string, string>)
    requires e.(addresses := []) == f.(addresses := [])
    requires LastV4(e.addresses) == LastV4(f.addresses)
    requires forall x :: x in e.addresses && x.V6? <==> x in f.addresses && x.V6?
    ensures EndpointRecord(e, parseTxt) == EndpointRecord(f, parseTxt)
  {
    assert V6Set(e.addresses) == V6Set(f.addresses);
  }

  // ---------------------------------------------------------------------
  // State mapping
  // ---------------------------------------------------------------------

  datatype ServicesUpdatedState = EndpointCreated | EndpointUpdated | EndpointDeleted

  function ToServiceInfoState(s: ServicesUpdatedState): (st: ServiceInfoState)
  {
    match s
    case EndpointCreated => Created
    case EndpointUpdated => Updated
    case EndpointDeleted => Deleted
  }

  /** The state mapping is a bijection: each registry state comes from exactly one endpoint state. */
  lemma StateMappingBijective(a: ServicesUpdatedState, b: ServicesUpdatedState, st: ServiceInfoState)
    ensures ToServiceInfoState(a) == ToServiceInfoState(b) ==> a == b
    ensures exists s :: ToServiceInfoState(s) == st
  {
    match st
    case Created => assert ToServiceInfoState(EndpointCreated) == st;
    case Updated => assert ToServiceInfoState(EndpointUpdated) == st;
    case Deleted => assert ToServiceInfoState(EndpointDeleted) == st;
  }

  /**
   * `OnOpenScreenServiceReceiverResult`: convert the endpoint and forward it,
   * with the mapped state, to the transport once.
   */
  method OnOpenScreenServiceReceiverResult(t: MdnsTransport, e: Endpoint, state: ServicesUpdatedState,
                                           parseTxt: seq<TxtRecord> -> map<string, string>)
    requires t.Valid()
    modifies t, t.registry
    ensures t.Valid()
    ensures Effects(t.registry.services, t.connects, t.notifications)
         == Dispatch(t.policy, t.knownHosts.hosts,
                     Effects(old(t.registry.services), old(t.connects), old(t.notifications)),
                     EndpointRecord(e, parseTxt), ToServiceInfoState(state))
  {
    var ipv4, ipv6 := PartitionAddresses(e.addresses);
    var si := Make(e.instanceId, e.serviceId, ipv4, ipv6, e.port, e.txt, parseTxt);
    var st: ServiceInfoState;
    match state {
      case EndpointCreated => st := Created;
      case EndpointUpdated => st := Updated;
      case EndpointDeleted => st := Deleted;
    }
    t.OnServiceReceiverResult(si, st);
  }

  // ---------------------------------------------------------------------
  // Fatal errors
  // ---------------------------------------------------------------------

  /** `DiscoveryReportingClient`: a fatal error sets a flag that nothing clears. */
  class DiscoveryReportingClient {
    var gotFatal: bool

    constructor()
      ensures !gotFatal
    {
      gotFatal := false;
    }

    method OnFatalError()
      modifies this
      ensures gotFatal
    {
      gotFatal := true;
    }

    method OnRecoverableError()
      modifies this
      ensures gotFatal == old(gotFatal)
    {
    }

    method GotFatalError() returns (fatal: bool)
      ensures fatal == gotFatal
    {
      fatal := gotFatal;
    }
  }

  /** Once a fatal error is seen, later recoverable errors leave the flag set. */
  method FatalIsSticky() returns (fatal: bool)
    ensures fatal
  {
    var client := new DiscoveryReportingClient();
    client.OnRecoverableError();
    client.OnFatalError();
    client.OnRecoverableError();
    fatal := client.GotFatalError();
  }

  // ---------------------------------------------------------------------
  // Interface selection
  // ---------------------------------------------------------------------

  datatype InterfaceInfo = InterfaceInfo(name: string, v4: Option<IPv4Address>, v6: Option<IPv6Address>)

  datatype Config = Config(enablePublication: bool, networkInfo: seq<InterfaceInfo>)

  predicate HasAddress(i: InterfaceInfo) { i.v4.Some? || i.v6.Some? }

  /** The interfaces that have an address, in their original order. */
  function WithAddress(interfaces: seq<InterfaceInfo>): (r: seq<InterfaceInfo>)
    ensures |r| <= |interfaces|
    ensures forall i :: i in r <==> i in interfaces && HasAddress(i)
  {
    if interfaces == [] then []
    else if HasAddress(interfaces[0]) then [interfaces[0]] + WithAddress(interfaces[1..])
    else WithAddress(interfaces[1..])
  }

  /** `GetConfigForAllInterfaces`: listen-only, on the interfaces with an address; none when no interface has one. */
  function ConfigFor(interfaces: seq<InterfaceInfo>): (c: Option<Config>)
    ensures c.None? <==> forall i :: i in interfaces ==> !HasAddress(i)
    ensures c.Some? ==> !c.value.enablePublication && c.value.networkInfo != []
  {
    var chosen := WithAddress(interfaces);
    if chosen == [] then None
    else
      assert chosen[0] in chosen;
      Some(Config(false, chosen))
  }

  method GetConfigForAllInterfaces(interfaces: seq<InterfaceInfo>) returns (config: Option<Config>)
    ensures config == ConfigFor(interfaces)
  {
    var networkInfo: seq<InterfaceInfo> := [];
    var i := 0;
    while i < |interfaces|
      invariant 0 <= i <= |interfaces|
      invariant WithAddress(interfaces) == networkInfo + WithAddress(interfaces[i..])
    {
      assert interfaces[i..][1..] == interfaces[i + 1..];
      if HasAddress(interfaces[i]) {
        networkInfo := networkInfo + [interfaces[i]];
      }
      i := i + 1;
    }
    assert interfaces[i..] == [];
    assert networkInfo + [] == networkInfo;
    assert WithAddress(interfaces) == networkInfo;
    if networkInfo == [] {
      return None;
    }
    return Some(Config(false, networkInfo));
  }

  // ---------------------------------------------------------------------
  // Watchers
  // ---------------------------------------------------------------------

  datatype Watcher = Watcher(serviceType: string, running: bool)

  /**
   * The index of the watcher after whose start the fatal flag is first seen:
   * the first one when the flag was already set, else the first whose start
   * raises a fatal error.
   */
  function FirstFatal(fatal: bool, raises: seq<bool>): (r: Option<nat>)
    ensures r.Some? ==> r.value < |raises| && (fatal || raises[r.value])
    ensures r.Some? ==> forall j :: 0 < j < r.value ==> !raises[j]
    ensures r.Some? && r.value > 0 ==> !fatal && !raises[0]
    ensures r.None? <==> |raises| == 0 || (!fatal && forall j :: 0 <= j < |raises| ==> !raises[j])
  {
    if |raises| == 0 then None
    else if fatal || raises[0] then Some(0)
    else
      match FirstFatal(false, raises[1..])
      case None => None
      case Some(k) => Some(k + 1)
  }

  /**
   * The watchers start-up leaves: one per service type in order, all running,
   * or, after a fatal error, the ones created up to it, all stopped.
   */
  function StartedWatchers(types: seq<string>, fatal: bool, raises: seq<bool>): (ws: seq<Watcher>)
    requires |raises| == |types|
    ensures |ws| <= |types|
    ensures forall i :: 0 <= i < |ws| ==> ws[i].serviceType == types[i]
  {
    match FirstFatal(fatal, raises)
    case None => seq(|types|, i requires 0 <= i < |types| => Watcher(types[i], true))
    case Some(k) => seq(k + 1, i requires 0 <= i < k + 1 => Watcher(types[i], false))
  }

  /** Without a fatal error every service type gets a running watcher. */
  lemma WatchersAllRunning(types: seq<string>, raises: seq<bool>)
    requires |raises| == |types|
    requires forall j :: 0 <= j < |raises| ==> !raises[j]
    ensures |StartedWatchers(types, false, raises)| == |types|
    ensures forall i :: 0 <= i < |types| ==> StartedWatchers(types, false, raises)[i].running
  {
  }

  /** After a fatal error no watcher runs and no later service type gets one. */
  lemma WatchersStopAfterFatal(types: seq<string>, fatal: bool, raises: seq<bool>, k: nat)
    requires |raises| == |types| && k < |types|
    requires fatal || raises[k]
    ensures |StartedWatchers(types, fatal, raises)| <= k + 1
    ensures forall i :: 0 <= i < |StartedWatchers(types, fatal, raises)| ==> !StartedWatchers(types, fatal, raises)[i].running
  {
  }

  /** `g_state`: the discovery backend once started. */
  class MdnsService {
    var started: bool
    var config: Option<Config>
    var watchers: seq<Watcher>
    var reporting: DiscoveryReportingClient

    constructor()
      ensures !started && config.None? && watchers == []
    {
      started := false;
      config := None;
      watchers := [];
      reporting := new DiscoveryReportingClient();
    }

    function IsOpenScreenStarted(): bool
      reads this
    {
      started
    }

    /** Stops every running watcher, as the fatal branch of the start-up does. */
    method StopAll()
      modifies this
      ensures |watchers| == |old(watchers)|
      ensures forall i :: 0 <= i < |watchers| ==> watchers[i] == old(watchers)[i].(running := false)
      ensures started == old(started) && config == old(config) && reporting == old(reporting)
    {
      var i := 0;
      while i < |watchers|
        invariant 0 <= i <= |watchers| && |watchers| == |old(watchers)|
        invariant forall j :: 0 <= j < i ==> watchers[j] == old(watchers)[j].(running := false)
        invariant forall j :: i <= j < |watchers| ==> watchers[j] == old(watchers)[j]
        invariant started == old(started) && config == old(config) && reporting == old(reporting)
      {
        if watchers[i].running {
          watchers := watchers[i := watchers[i].(running := false)];
        }
        i := i + 1;
      }
    }

    /**
     * `StartOpenScreenDiscovery` with its posted task run to completion. The
     * network interfaces, whether creating the service reports a fatal
     * error, and which watcher starts report one, are parameters.
     */
    method StartOpenScreenDiscovery(interfaces: seq<InterfaceInfo>, types: seq<string>,
                                    fatalOnCreate: bool, raises: seq<bool>)
      requires !started && |raises| == |types|
      modifies this
      ensures started && IsOpenScreenStarted()
      ensures config == ConfigFor(interfaces)
      ensures config.None? ==> watchers == []
      ensures config.Some? ==> watchers == StartedWatchers(types, fatalOnCreate, raises)
    {
      started := true;
      watchers := [];
      reporting := new DiscoveryReportingClient();
      config := GetConfigForAllInterfaces(interfaces);
      if config.None? {
        return;
      }
      if fatalOnCreate {
        reporting.OnFatalError();
      }
      RegisterWatchers(types, fatalOnCreate, raises);
    }

    /**
     * The registration loop of the posted task: a watcher per service type is
     * started and kept; once the fatal flag is seen, every watcher is stopped
     * and no further one is created.
     */
    method RegisterWatchers(types: seq<string>, fatalOnCreate: bool, raises: seq<bool>)
      requires |raises| == |types| && watchers == [] && reporting.gotFatal == fatalOnCreate
      modifies this, reporting
      ensures watchers == StartedWatchers(types, fatalOnCreate, raises)
      ensures started == old(started) && config == old(config) && reporting == old(reporting)
    {
      var i := 0;
      while i < |types|
        invariant 0 <= i <= |types|
        invariant started == old(started) && config == old(config) && reporting == old(reporting)
        invariant reporting.gotFatal == fatalOnCreate && (i > 0 ==> !fatalOnCreate)
        invariant FirstFatal(fatalOnCreate, raises[..i]).None?
        invariant watchers == seq(i, j requires 0 <= j < i => Watcher(types[j], true))
      {
        watchers := watchers + [Watcher(types[i], true)];
        if raises[i] {
          reporting.OnFatalError();
        }
        var fatal := reporting.GotFatalError();
        if fatal {
          StopAll();
          assert FirstFatal(fatalOnCreate, raises) == Some(i) by {
            FirstFatalPrefix(fatalOnCreate, raises, i);
          }
          return;
        }
        i := i + 1;
      }
      assert raises[..i] == raises;
    }
  }

  /** With no fatal error in the first `i` starts, the first fatal one is found at `i` when it fires there. */
  lemma {:induction false} FirstFatalPrefix(fatal: bool, raises: seq<bool>, i: nat)
    requires i < |raises|
    requires FirstFatal(fatal, raises[..i]).None?
    requires fatal || raises[i]
    ensures FirstFatal(fatal, raises) == Some(i)
    decreases i
  {
    if i > 0 {
      assert raises[..i][1..] == raises[1..][..i - 1];
      FirstFatalPrefix(false, raises[1..], i - 1);
    }
  }
}
