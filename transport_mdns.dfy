// Event dispatch, auto-connect gating, name resolution and the listing of
// discovered services (client/transport_mdns.cpp).

module TransportMdns {
  import opened Wrappers
  import opened Text
  import opened ServiceInfos
  import opened Registry
  import opened MdnsUtils

  /**
   * What adb_mdns.h decides and names: whether a service may be
   * auto-connected, the index of a service name, the index of the secure
   * connect service, and the TLS-connect and pairing service names.
   */
  datatype Policy = Policy(
    shouldAutoConnect: (string, string) -> bool,
    indexByName: string -> Option<int>,
    secureConnectIndex: int,
    tlsService: string,
    pairService: string)

  // ---------------------------------------------------------------------
  // Connect decisions
  // ---------------------------------------------------------------------

  /** The connect requests a decision makes: none, or one to the given target. */
  function Requests(target: Option<string>): (rs: seq<string>)
    ensures |rs| <= 1
    ensures rs == [] <==> target.None?
  {
    match target
    case None => []
    case Some(t) => [t]
  }

  /**
   * `AttemptAutoConnect`: the target it asks to connect to, if any. The
   * service must be allowed, have an IPv4 address and an index, and, for
   * the secure connect service, the instance must be a known host.
   */
  function AutoConnectTarget(p: Policy, known: set<string>, info: ServiceInfo): (target: Option<string>)
    ensures target.Some? ==> target.value == FqName(info)
  {
    if !p.shouldAutoConnect(info.service, info.instance) then None
    else if info.v4Address.None? then None
    else
      match p.indexByName(info.service)
      case None => None
      case Some(index) =>
        if index == p.secureConnectIndex && info.instance !in known then None
        else Some(FqName(info))
  }

  /** Auto-connect asks for a connection exactly when every gate passes. */
  lemma AutoConnectGates(p: Policy, known: set<string>, info: ServiceInfo)
    ensures AutoConnectTarget(p, known, info).Some? <==>
      && p.shouldAutoConnect(info.service, info.instance)
      && info.v4Address.Some?
      && p.indexByName(info.service).Some?
      && (p.indexByName(info.service).value == p.secureConnectIndex ==> info.instance in known)
  {
  }

  /** Adding known hosts can only enable auto-connect, never disable it. */
  lemma AutoConnectMonotone(p: Policy, known: set<string>, more: set<string>, info: ServiceInfo)
    requires known <= more
    ensures AutoConnectTarget(p, known, info).Some? ==> AutoConnectTarget(p, more, info).Some?
  {
  }

  /** `ConnectAdbSecureDevice`: a request to the record's name exactly when its instance is a known host. */
  function SecureConnectTarget(known: set<string>, info: ServiceInfo): (target: Option<string>)
    ensures target.Some? <==> info.instance in known
    ensures target.Some? ==> target.value == FqName(info)
  {
    if info.instance !in known then None else Some(FqName(info))
  }

  /** `adb_secure_connect_by_service_name`: look the instance up under the TLS service, then connect securely. */
  function SecureConnectByName(p: Policy, m: Services, known: set<string>, instance: string): Option<string>
  {
    match Find(m, p.tlsService, instance)
    case None => None
    case Some(info) => SecureConnectTarget(known, info)
  }

  /**
   * A secure connect by name targets the TLS-service entry of that instance,
   * and only when the stored record's instance is a known host.
   */
  lemma SecureConnectByNameTargets(p: Policy, m: Services, known: set<string>, instance: string)
    requires Keyed(m)
    ensures SecureConnectByName(p, m, known, instance).Some? <==>
      Find(m, p.tlsService, instance).Some? && Find(m, p.tlsService, instance).value.instance in known
    ensures SecureConnectByName(p, m, known, instance).Some? ==>
      SecureConnectByName(p, m, known, instance).value == instance + "." + p.tlsService
  {
    FindKeyed(m, p.tlsService, instance);
  }

  // ---------------------------------------------------------------------
  // Event dispatch
  // ---------------------------------------------------------------------

  /** The state `OnServiceReceiverResult` acts on: the registry, the connect requests, the tracker notifications. */
  datatype Effects = Effects(services: Services, connects: seq<string>, notifications: nat)

  function Dispatch(p: Policy, known: set<string>, e: Effects, info: ServiceInfo, state: ServiceInfoState): Effects
  {
    match state
    case Created =>
      Effects(Create(e.services, info), e.connects + Requests(AutoConnectTarget(p, known, info)), e.notifications + 1)
    case Updated =>
      var (m, updated) := Update(e.services, info);
      if updated then Effects(m, e.connects + Requests(AutoConnectTarget(p, known, info)), e.notifications + 1)
      else Effects(m, e.connects, e.notifications)
    case Deleted =>
      Effects(Delete(e.services, info), e.connects, e.notifications + 1)
  }

  /** A Created event stores the record, always evaluates auto-connect, and notifies the trackers. */
  lemma DispatchCreated(p: Policy, known: set<string>, e: Effects, info: ServiceInfo)
    ensures var r := Dispatch(p, known, e, info, Created);
      && Find(r.services, info.service, info.instance) == Some(info)
      && r.connects == e.connects + Requests(AutoConnectTarget(p, known, info))
      && r.notifications == e.notifications + 1
  {
    FindAfterCreate(e.services, info, info);
  }

  /**
   * An Updated event evaluates auto-connect and notifies the trackers if and
   * only if the registry's contents changed.
   */
  lemma DispatchUpdated(p: Policy, known: set<string>, e: Effects, info: ServiceInfo)
    ensures var r := Dispatch(p, known, e, info, Updated);
      && r.services == Update(e.services, info).0
      && (r.notifications == e.notifications + 1 <==> r.services != e.services)
      && (r.services == e.services ==> r.connects == e.connects && r.notifications == e.notifications)
      && (r.services != e.services ==> r.connects == e.connects + Requests(AutoConnectTarget(p, known, info)))
  {
    UpdateFlagIffChanged(e.services, info);
  }

  /** A Deleted event erases the record, never requests a connection, and still notifies the trackers. */
  lemma DispatchDeleted(p: Policy, known: set<string>, e: Effects, info: ServiceInfo)
    ensures var r := Dispatch(p, known, e, info, Deleted);
      && Find(r.services, info.service, info.instance).None?
      && r.connects == e.connects
      && r.notifications == e.notifications + 1
  {
    DeleteByNameOnly(e.services, info, info);
  }

  /** Any event makes at most one request, to the record's own name, after the earlier ones. */
  lemma DispatchRequestsAtMostOne(p: Policy, known: set<string>, e: Effects, info: ServiceInfo, state: ServiceInfoState)
    ensures var r := Dispatch(p, known, e, info, state);
      && e.connects <= r.connects
      && |r.connects| <= |e.connects| + 1
      && (|r.connects| == |e.connects| + 1 ==> r.connects[|e.connects|] == FqName(info))
  {
  }

  /** Every event keeps each registry entry under its own name. */
  lemma DispatchKeeps(p: Policy, known: set<string>, e: Effects, info: ServiceInfo, state: ServiceInfoState)
    requires Keyed(e.services)
    ensures Keyed(Dispatch(p, known, e, info, state).services)
  {
    match state
    case Created => CreateKeeps(e.services, info);
    case Updated => UpdateKeeps(e.services, info);
    case Deleted => DeleteKeeps(e.services, info);
  }

  // ---------------------------------------------------------------------
  // Name resolution
  // ---------------------------------------------------------------------

  /** `mdns_get_connect_service_info`: parse the name, then look up instance under "service.transport". */
  function ConnectServiceInfo(m: Services, name: string): Option<ServiceInfo>
    requires name != ""
  {
    match ParseInstanceName(name)
    case None => None
    case Some(i) => Find(m, i.serviceName + "." + i.transportType, i.instanceName)
  }

  /** `mdns_get_pairing_service_info`: parse the name, then look up its instance under the pairing service. */
  function PairingServiceInfo(p: Policy, m: Services, name: string): Option<ServiceInfo>
    requires name != ""
  {
    match ParseInstanceName(name)
    case None => None
    case Some(i) => Find(m, p.pairService, i.instanceName)
  }

  /** A name that does not parse resolves to nothing, for connecting and for pairing. */
  lemma ResolveUnparsable(p: Policy, m: Services, name: string)
    requires name != "" && ParseInstanceName(name).None?
    ensures ConnectServiceInfo(m, name).None? && PairingServiceInfo(p, m, name).None?
  {
  }

  /**
   * A well-formed name, with any of the four endings, resolves to the entry
   * stored under that very name; the pairing lookup uses its instance.
   */
  lemma ResolveRendered(p: Policy, m: Services, i: MdnsInstance, suffix: string)
    requires WellFormed(i) && IsDomainSuffix(suffix)
    ensures Render(i) + suffix != ""
    ensures ConnectServiceInfo(m, Render(i) + suffix) == Find(m, i.serviceName + "." + i.transportType, i.instanceName)
    ensures PairingServiceInfo(p, m, Render(i) + suffix) == Find(m, p.pairService, i.instanceName)
    ensures Keyed(m) && ConnectServiceInfo(m, Render(i) + suffix).Some? ==>
      FqName(ConnectServiceInfo(m, Render(i) + suffix).value) == Render(i)
  {
    ParseInstanceNameRendered(i, suffix);
    assert i.instanceName + "." + (i.serviceName + "." + i.transportType) == Render(i);
  }

  /** A stored record is found again through the text of its own name. */
  lemma ResolveStored(m: Services, info: ServiceInfo, i: MdnsInstance, suffix: string)
    requires Keyed(m) && FqName(info) in m && m[FqName(info)] == info
    requires WellFormed(i) && IsDomainSuffix(suffix)
    requires info.instance == i.instanceName && info.service == i.serviceName + "." + i.transportType
    ensures Render(i) + suffix != ""
    ensures ConnectServiceInfo(m, Render(i) + suffix) == Some(info)
  {
    var policy := Policy((s, n) => false, s => None, 0, "", "");
    ResolveRendered(policy, m, i, suffix);
  }

  /** A name with no transport label is looked up as an instance of the service ".". */
  lemma ResolveBareName(m: Services)
    ensures ConnectServiceInfo(m, "my.name") == Find(m, ".", "my.name")
  {
    NameTwoLabels();
    assert "" + "." + "" == ".";
  }

  // ---------------------------------------------------------------------
  // Listing
  // ---------------------------------------------------------------------

  /** One listing line without its newline: instance, service and "v4:port", separated by tabs. */
  function LineBody(si: ServiceInfo): string
  {
    si.instance + "\t" + si.service + "\t" + V4AddressString(si) + ":" + Decimal(si.port)
  }

  /** `mdns_list_discovered_services` over the records in traversal order. */
  function Listing(order: seq<ServiceInfo>): string
  {
    if order == [] then "" else LineBody(order[0]) + "\n" + Listing(order[1..])
  }

  lemma {:induction false} ListingSnoc(order: seq<ServiceInfo>, si: ServiceInfo)
    ensures Listing(order + [si]) == Listing(order) + LineBody(si) + "\n"
    decreases |order|
  {
    if order == [] {
      assert Listing([si]) == LineBody(si) + "\n" + Listing([]);
    } else {
      var xs := order + [si];
      assert xs[0] == order[0] && xs[1..] == order[1..] + [si];
      ListingSnoc(order[1..], si);
      Assoc4(LineBody(order[0]) + "\n", Listing(order[1..]), LineBody(si), "\n");
    }
  }

  lemma Assoc4(a: string, b: string, c: string, d: string)
    ensures a + (b + c + d) == a + b + c + d
  {
  }

  lemma ListingPrefix(order: seq<ServiceInfo>, i: nat)
    requires i < |order|
    ensures Listing(order[..i + 1]) == Listing(order[..i]) + LineBody(order[i]) + "\n"
  {
    assert order[..i + 1] == order[..i] + [order[i]];
    ListingSnoc(order[..i], order[i]);
  }

  /** No newline in the dotted-decimal address or the port. */
  lemma NoNewlineInAddressAndPort(si: ServiceInfo)
    ensures '\n' !in V4AddressString(si) + ":" + Decimal(si.port)
    ensures '\t' !in V4AddressString(si) + ":" + Decimal(si.port)
  {
    var s := V4AddressString(si);
    if si.v4Address.Some? {
      var b := si.v4Address.value.bytes;
      assert AllDigits(Decimal(b[0])) && AllDigits(Decimal(b[1])) && AllDigits(Decimal(b[2])) && AllDigits(Decimal(b[3]));
      assert forall i :: 0 <= i < |s| ==> IsDigit(s[i]) || s[i] == '.';
    }
    assert AllDigits(Decimal(si.port));
  }

  /** A line splits at its tabs into instance, service and "v4:port". */
  lemma LineFields(si: ServiceInfo)
    requires '\t' !in si.instance && '\t' !in si.service
    ensures Split(LineBody(si), '\t') == [si.instance, si.service, V4AddressString(si) + ":" + Decimal(si.port)]
  {
    var tail := V4AddressString(si) + ":" + Decimal(si.port);
    NoNewlineInAddressAndPort(si);
    assert LineBody(si) == si.instance + ['\t'] + (si.service + ['\t'] + tail);
    SplitPrefix(si.instance, si.service + ['\t'] + tail, '\t');
    SplitPrefix(si.service, tail, '\t');
    SplitOfNoSep(tail, '\t');
  }

  /**
   * The listing has one newline-terminated line per record, in order, when
   * no instance or service name holds a newline.
   */
  lemma {:induction false} ListingLines(order: seq<ServiceInfo>)
    requires forall k :: 0 <= k < |order| ==> '\n' !in order[k].instance && '\n' !in order[k].service
    ensures Split(Listing(order), '\n') == seq(|order|, k requires 0 <= k < |order| => LineBody(order[k])) + [""]
    decreases |order|
  {
    if order == [] {
      assert Split("", '\n') == [""];
    } else {
      var si := order[0];
      NoNewlineInAddressAndPort(si);
      var body := LineBody(si);
      assert '\n' !in body;
      ListingLines(order[1..]);
      assert Listing(order) == body + ['\n'] + Listing(order[1..]);
      SplitPrefix(body, Listing(order[1..]), '\n');
    }
  }

  /** The traversal callback of `mdns_list_discovered_services`, appending one line per record. */
  method FormatListing(visited: seq<ServiceInfo>) returns (result: string)
    ensures result == Listing(visited)
  {
    result := "";
    var i := 0;
    while i < |visited|
      invariant 0 <= i <= |visited|
      invariant result == Listing(visited[..i])
    {
      ListingPrefix(visited, i);
      result := result + LineBody(visited[i]) + "\n";
      i := i + 1;
    }
    assert visited[..i] == visited;
  }

  // ---------------------------------------------------------------------
  // Discovery start-up and status
  // ---------------------------------------------------------------------

  /** `init_mdns_transport_discovery`: discovery starts unless ADB_MDNS_OPENSCREEN is exactly "0". */
  function StartsDiscovery(env: Option<string>): (start: bool)
    ensures !start <==> env == Some("0")
  {
    !(env.Some? && env.value == "0")
  }

  /** `mdns_check`: the status text for a started or a stopped discovery. */
  function MdnsCheck(started: bool): (status: string)
    ensures started <==> status == "mdns daemon version [Openscreen discovery 0.0.0]"
    ensures !started ==> |status| >= 6 && status[..6] == "ERROR:"
  {
    if !started then "ERROR: mdns discovery disabled"
    else "mdns daemon version [Openscreen discovery 0.0.0]"
  }

  // ---------------------------------------------------------------------
  // The objects
  // ---------------------------------------------------------------------

  /** The known-hosts keystore, as a set of host names. */
  class KnownWifiHostsFile {
    var hosts: set<string>

    constructor()
      ensures hosts == {}
    {
      hosts := {};
    }

    method AddKnownHost(host: string)
      modifies this
      ensures hosts == old(hosts) + {host}
    {
      hosts := hosts + {host};
    }

    method IsKnownHost(host: string) returns (known: bool)
      ensures known <==> host in hosts
    {
      known := host in hosts;
    }
  }

  /** A freshly cleared keystore does not know a host until it is added. */
  method AddKnownHostCase() returns (before: bool, after: bool)
    ensures !before && after
  {
    var file := new KnownWifiHostsFile();
    var host := "adb-14141FDF600081-TnSdi9";
    before := file.IsKnownHost(host);
    file.AddKnownHost(host);
    after := file.IsKnownHost(host);
  }

  /**
   * The host side of mDNS discovery: the registry, the keystore, the
   * policy, and the connect requests and tracker notifications so far.
   */
  class MdnsTransport {
    const registry: DiscoveredServices
    const knownHosts: KnownWifiHostsFile
    const policy: Policy
    ghost var connects: seq<string>
    ghost var notifications: nat

    ghost predicate Valid()
      reads this, registry
    {
      registry.Valid()
    }

    constructor(p: Policy, r: DiscoveredServices, k: KnownWifiHostsFile)
      requires r.Valid()
      ensures Valid()
      ensures registry == r && knownHosts == k && policy == p
      ensures connects == [] && notifications == 0
    {
      registry := r;
      knownHosts := k;
      policy := p;
      connects := [];
      notifications := 0;
    }

    /** `RequestConnectToDevice`: the spawned connect is recorded as its target. */
    method RequestConnectToDevice(info: ServiceInfo)
      modifies this
      ensures connects == old(connects) + [FqName(info)]
      ensures notifications == old(notifications)
    {
      connects := connects + [FqName(info)];
    }

    method AttemptAutoConnect(info: ServiceInfo)
      modifies this
      ensures connects == old(connects) + Requests(AutoConnectTarget(policy, knownHosts.hosts, info))
      ensures notifications == old(notifications)
    {
      if !policy.shouldAutoConnect(info.service, info.instance) {
        return;
      }
      if info.v4Address.None? {
        return;
      }
      var index := policy.indexByName(info.service);
      if index.None? {
        return;
      }
      if index.value == policy.secureConnectIndex {
        var known := knownHosts.IsKnownHost(info.instance);
        if !known {
          return;
        }
      }
      RequestConnectToDevice(info);
    }

    method ConnectAdbSecureDevice(info: ServiceInfo) returns (ok: bool)
      modifies this
      ensures ok <==> info.instance in knownHosts.hosts
      ensures connects == old(connects) + Requests(SecureConnectTarget(knownHosts.hosts, info))
      ensures notifications == old(notifications)
    {
      var known := knownHosts.IsKnownHost(info.instance);
      if !known {
        return false;
      }
      RequestConnectToDevice(info);
      return true;
    }

    method SecureConnectByServiceName(instance: string) returns (ok: bool)
      modifies this
      ensures ok <==> SecureConnectByName(policy, registry.services, knownHosts.hosts, instance).Some?
      ensures connects == old(connects) + Requests(SecureConnectByName(policy, registry.services, knownHosts.hosts, instance))
      ensures notifications == old(notifications)
    {
      var info := registry.FindInstance(policy.tlsService, instance);
      if info.Some? {
        ok := ConnectAdbSecureDevice(info.value);
        return;
      }
      return false;
    }

    /** `update_mdns_trackers`, counted. */
    method UpdateMdnsTrackers()
      modifies this
      ensures notifications == old(notifications) + 1
      ensures connects == old(connects)
    {
      notifications := notifications + 1;
    }

    method OnServiceReceiverResult(info: ServiceInfo, state: ServiceInfoState)
      requires Valid()
      modifies this, registry
      ensures Valid()
      ensures Effects(registry.services, connects, notifications)
           == Dispatch(policy, knownHosts.hosts, Effects(old(registry.services), old(connects), old(notifications)), info, state)
    {
      var updated := true;
      match state {
        case Created =>
          registry.ServiceCreated(info);
          AttemptAutoConnect(info);
        case Updated =>
          updated := registry.ServiceUpdated(info);
          if updated {
            AttemptAutoConnect(info);
          }
        case Deleted =>
          registry.ServiceDeleted(info);
      }
      if updated {
        UpdateMdnsTrackers();
      }
    }

    method GetConnectServiceInfo(name: string) returns (r: Option<ServiceInfo>)
      requires name != ""
      ensures r == ConnectServiceInfo(registry.services, name)
    {
      var instance := ParseInstanceName(name);
      if instance.None? {
        return None;
      }
      var fqService := instance.value.serviceName + "." + instance.value.transportType;
      r := registry.FindInstance(fqService, instance.value.instanceName);
    }

    method GetPairingServiceInfo(name: string) returns (r: Option<ServiceInfo>)
      requires name != ""
      ensures r == PairingServiceInfo(policy, registry.services, name)
    {
      var instance := ParseInstanceName(name);
      if instance.None? {
        return None;
      }
      r := registry.FindInstance(policy.pairService, instance.value.instanceName);
    }

    /**
     * `mdns_list_discovered_services`: the listing of the records in the
     * order the registry visits them, and that order.
     */
    method ListDiscoveredServices() returns (result: string, ghost order: seq<ServiceInfo>)
      requires Valid()
      ensures forall i, j :: 0 <= i < j < |order| ==> order[i] != order[j]
      ensures forall v :: v in order <==> v in registry.services.Values
      ensures result == Listing(order)
    {
      var visited := registry.ForAllServices();
      order := visited;
      result := FormatListing(visited);
    }
  }
}
