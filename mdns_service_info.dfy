// The older endpoint conversion (client/openscreen/mdns_service_info.cpp):
// the first IPv4 and the first IPv6 address of the endpoint are kept.

module OpenScreenServiceInfo {
  import opened Wrappers
  import opened Addresses
  import opened ServiceInfos
  import opened OpenScreenService

  /** `mdns::ServiceInfo` of this path: a port and at most one address of each family. */
  datatype EndpointInfo = EndpointInfo(port: Port, v4Address: Option<IPv4Address>, v6Address: Option<IPv6Address>)

  /** The first IPv4 address of the list, if there is one. */
  function FirstV4(addresses: seq<IPAddress>): (r: Option<IPv4Address>)
    ensures r.None? <==> forall i :: 0 <= i < |addresses| ==> !addresses[i].V4?
    ensures r.Some? ==> exists i :: 0 <= i < |addresses| && addresses[i] == V4(r.value)
                                    && forall j :: 0 <= j < i ==> !addresses[j].V4?
  {
    if addresses == [] then None
    else if addresses[0].V4? then Some(addresses[0].v4)
    else
      var r := FirstV4(addresses[1..]);
      assert r.Some? ==> exists i :: 1 <= i < |addresses| && addresses[i] == V4(r.value)
                                     && forall j :: 0 <= j < i ==> !addresses[j].V4? by {
        if r.Some? {
          var k :| 0 <= k < |addresses[1..]| && addresses[1..][k] == V4(r.value)
                   && forall j :: 0 <= j < k ==> !addresses[1..][j].V4?;
          assert addresses[k + 1] == V4(r.value);
        }
      }
      r
  }

  /** The first IPv6 address of the list, if there is one. */
  function FirstV6(addresses: seq<IPAddress>): (r: Option<IPv6Address>)
    ensures r.None? <==> forall i :: 0 <= i < |addresses| ==> !addresses[i].V6?
    ensures r.Some? ==> exists i :: 0 <= i < |addresses| && addresses[i] == V6(r.value)
                                    && forall j :: 0 <= j < i ==> !addresses[j].V6?
  {
    if addresses == [] then None
    else if addresses[0].V6? then Some(addresses[0].v6)
    else
      var r := FirstV6(addresses[1..]);
      assert r.Some? ==> exists i :: 1 <= i < |addresses| && addresses[i] == V6(r.value)
                                     && forall j :: 0 <= j < i ==> !addresses[j].V6? by {
        if r.Some? {
          var k :| 0 <= k < |addresses[1..]| && addresses[1..][k] == V6(r.value)
                   && forall j :: 0 <= j < k ==> !addresses[1..][j].V6?;
          assert addresses[k + 1] == V6(r.value);
        }
      }
      r
  }

  /** Addresses after the first of each family are ignored. */
  lemma {:induction false} FirstIgnoresLater(addresses: seq<IPAddress>, more: seq<IPAddress>)
    ensures FirstV4(addresses).Some? ==> FirstV4(addresses + more) == FirstV4(addresses)
    ensures FirstV6(addresses).Some? ==> FirstV6(addresses + more) == FirstV6(addresses)
    decreases |addresses|
  {
    if addresses != [] {
      assert (addresses + more)[1..] == addresses[1..] + more;
      FirstIgnoresLater(addresses[1..], more);
    }
  }

  /** With a single IPv4 address in the list, this path and the newer one agree on it. */
  lemma {:induction false} FirstAndLastAgreeOnSingleV4(addresses: seq<IPAddress>, k: nat)
    requires k < |addresses| && addresses[k].V4?
    requires forall j :: 0 <= j < |addresses| && j != k ==> !addresses[j].V4?
    ensures FirstV4(addresses) == LastV4(addresses) == Some(addresses[k].v4)
  {
    LastV4Spec(addresses);
  }

  /**
   * `DnsSdInstanceEndpointToServiceInfo`: the port is copied and the first
   * address of each family kept. The source aborts on an endpoint without
   * addresses, so one is required.
   */
  method DnsSdInstanceEndpointToServiceInfo(e: Endpoint) returns (info: EndpointInfo)
    requires |e.addresses| > 0
    ensures info.port == e.port
    ensures info.v4Address == FirstV4(e.addresses)
    ensures info.v6Address == FirstV6(e.addresses)
    ensures info.v4Address.Some? || info.v6Address.Some?
  {
    info := EndpointInfo(e.port, None, None);
    var i := 0;
    while i < |e.addresses|
      invariant 0 <= i <= |e.addresses|
      invariant info.port == e.port
      invariant info.v4Address == FirstV4(e.addresses[..i])
      invariant info.v6Address == FirstV6(e.addresses[..i])
    {
      var address := e.addresses[i];
      FirstIgnoresLater(e.addresses[..i], [address]);
      assert e.addresses[..i + 1] == e.addresses[..i] + [address];
      if info.v4Address.None? && address.V4? {
        info := info.(v4Address := Some(address.v4));
      } else if info.v6Address.None? && address.V6? {
        info := info.(v6Address := Some(address.v6));
      }
      i := i + 1;
    }
    assert e.addresses[..i] == e.addresses;
    assert e.addresses[0].V4? || e.addresses[0].V6?;
  }
}
