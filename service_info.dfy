// The record the host keeps for each discovered device (client/discovered_services.h).

module ServiceInfos {
  import opened Wrappers
  import opened Text
  import opened Addresses

  /** A 16-bit port number, as `uint16_t`. */
  type Port = x: int | 0 <= x < 0x1_0000

  /** A TXT record entry is a byte string. */
  type TxtRecord = seq<Byte>

  /**
   * One discovered service instance. The IPv6 addresses form a set, so an
   * address reported twice is stored once.
   */
  datatype ServiceInfo = ServiceInfo(
    instance: string,
    service: string,
    v4Address: Option<IPv4Address>,
    v6Addresses: set<IPv6Address>,
    port: Port,
    attributes: map<string, string>)

  /** What a discovery backend reports about a service instance. */
  datatype ServiceInfoState = Created | Updated | Deleted

  /** The record a default-constructed `ServiceInfo` would hold, with its port taken as 0. */
  const Empty := ServiceInfo("", "", None, {}, 0, map[])

  /**
   * The field-copying constructor. The multi-record TXT parser is not part
   * of this model, so it is a parameter: attributes are whatever it makes
   * of the TXT records.
   */
  function Make(instance: string, service: string, v4: Option<IPv4Address>, v6: set<IPv6Address>,
                port: Port, txt: seq<TxtRecord>, parseTxt: seq<TxtRecord> -> map<string, string>): (si: ServiceInfo)
    ensures si.instance == instance && si.service == service
    ensures si.v4Address == v4 && si.v6Addresses == v6 && si.port == port
    ensures si.attributes == parseTxt(txt)
  {
    ServiceInfo(instance, service, v4, v6, port, parseTxt(txt))
  }

  /** The registry key of a record: instance and service joined by a dot. */
  function FqName(si: ServiceInfo): (k: string)
    ensures |k| == |si.instance| + 1 + |si.service|
    ensures k[..|si.instance|] == si.instance && k[|si.instance|] == '.' && k[|si.instance| + 1..] == si.service
  {
    si.instance + "." + si.service
  }

  /** `v4_address_string`: empty without an IPv4 address, its dotted-decimal form otherwise. */
  function V4AddressString(si: ServiceInfo): (s: string)
    ensures s == "" <==> si.v4Address.None?
    ensures si.v4Address.Some? ==>
      Split(s, '.') == V4Fields(si.v4Address.value) && 7 <= |s| <= 15
  {
    match si.v4Address
    case None => ""
    case Some(a) =>
      V4TextFields(a);
      V4TextLength(a);
      V4Text(a)
  }

  /** Two records with the same IPv4 address render it the same way, and only they do. */
  lemma V4AddressStringInjective(a: ServiceInfo, b: ServiceInfo)
    requires V4AddressString(a) == V4AddressString(b)
    ensures a.v4Address == b.v4Address
  {
    if a.v4Address.Some? && b.v4Address.Some? {
      V4TextInjective(a.v4Address.value, b.v4Address.value);
    }
  }

  /** Adding an address to a record's set that is already there changes nothing. */
  lemma V6AddressesCollapse(si: ServiceInfo, a: IPv6Address)
    requires a in si.v6Addresses
    ensures si.(v6Addresses := si.v6Addresses + {a}) == si
    ensures |si.v6Addresses + {a}| == |si.v6Addresses|
  {
    assert si.v6Addresses + {a} == si.v6Addresses;
  }
}
