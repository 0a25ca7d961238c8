// The mDNS discovery registry (client/discovered_services.cpp): a map from
// "instance.service" to the latest record seen for that instance.

module Registry {
  import opened Wrappers
  import opened Addresses
  import opened ServiceInfos

  type Services = map<string, ServiceInfo>

  /** Every entry is stored under its own fully qualified name. */
  ghost predicate Keyed(m: Services)
  {
    forall k :: k in m ==> k == FqName(m[k])
  }

  // ---------------------------------------------------------------------
  // The update merge
  // ---------------------------------------------------------------------

  /**
   * The record `ServiceUpdated` leaves in place of `cur`: identity fields
   * stay, IPv4 is taken only when the update has one, IPv6 addresses
   * accumulate, port and attributes are replaced.
   */
  function Merged(cur: ServiceInfo, info: ServiceInfo): (r: ServiceInfo)
    ensures r.instance == cur.instance && r.service == cur.service
    ensures info.v4Address.Some? ==> r.v4Address == info.v4Address
    ensures info.v4Address.None? ==> r.v4Address == cur.v4Address
    ensures cur.v6Addresses <= r.v6Addresses && info.v6Addresses <= r.v6Addresses
    ensures forall a :: a in r.v6Addresses ==> a in cur.v6Addresses || a in info.v6Addresses
    ensures r.port == info.port && r.attributes == info.attributes
  {
    ServiceInfo(cur.instance, cur.service,
                if info.v4Address.Some? && info.v4Address != cur.v4Address then info.v4Address else cur.v4Address,
                cur.v6Addresses + info.v6Addresses,
                info.port, info.attributes)
  }

  /**
   * Whether an update reports a change: a new, different IPv4 address, an
   * IPv6 address not yet known, another port or other attributes.
   */
  predicate Changed(cur: ServiceInfo, info: ServiceInfo)
  {
    (info.v4Address.Some? && info.v4Address != cur.v4Address)
    || !(info.v6Addresses <= cur.v6Addresses)
    || info.port != cur.port
    || info.attributes != cur.attributes
  }

  /** The change flag is exactly "the merged record differs from the stored one". */
  lemma ChangedIffMergeDiffers(cur: ServiceInfo, info: ServiceInfo)
    ensures Changed(cur, info) <==> Merged(cur, info) != cur
  {
    var r := Merged(cur, info);
    if !(info.v6Addresses <= cur.v6Addresses) {
      var a :| a in info.v6Addresses && a !in cur.v6Addresses;
      assert a in r.v6Addresses;
    }
    if !Changed(cur, info) {
      assert r.v6Addresses == cur.v6Addresses;
    }
  }

  /** Merging the same update twice is merging it once, and the second merge reports no change. */
  lemma MergeIdempotent(cur: ServiceInfo, info: ServiceInfo)
    ensures Merged(Merged(cur, info), info) == Merged(cur, info)
    ensures !Changed(Merged(cur, info), info)
  {
    var r := Merged(cur, info);
    assert r.v6Addresses + info.v6Addresses == r.v6Addresses;
  }

  // ---------------------------------------------------------------------
  // The registry operations on values
  // ---------------------------------------------------------------------

  /** `ServiceCreated`: store the record under its name, replacing what was there. */
  function Create(m: Services, info: ServiceInfo): (r: Services)
    ensures FqName(info) in r && r[FqName(info)] == info
    ensures r.Keys == m.Keys + {FqName(info)}
    ensures forall k :: k in m && k != FqName(info) ==> r[k] == m[k]
  {
    m[FqName(info) := info]
  }

  /** `ServiceUpdated`: the new map and whether anything changed. */
  function Update(m: Services, info: ServiceInfo): (Services, bool)
  {
    var key := FqName(info);
    if key !in m then (m[key := info], true)
    else (m[key := Merged(m[key], info)], Changed(m[key], info))
  }

  /** `ServiceDeleted`: erase the record's name. */
  function Delete(m: Services, info: ServiceInfo): (r: Services)
    ensures FqName(info) !in r
    ensures r.Keys == m.Keys - {FqName(info)}
    ensures forall k :: k in r ==> r[k] == m[k]
  {
    m - {FqName(info)}
  }

  /** `FindInstance`: the record stored under "instance.service", if any. */
  function Find(m: Services, service: string, instance: string): Option<ServiceInfo>
  {
    var key := instance + "." + service;
    if key in m then Some(m[key]) else None
  }

  /** The records `ForEachServiceNamed` hands to its callback. */
  function Named(m: Services, service: string): set<ServiceInfo>
  {
    set k | k in m && m[k].service == service :: m[k]
  }

  // ---------------------------------------------------------------------
  // Properties of the operations
  // ---------------------------------------------------------------------

  lemma CreateKeeps(m: Services, info: ServiceInfo)
    requires Keyed(m)
    ensures Keyed(Create(m, info))
  {
  }

  /** A created record can be found by its service and instance, and creating again overwrites it. */
  lemma FindAfterCreate(m: Services, info: ServiceInfo, again: ServiceInfo)
    requires FqName(again) == FqName(info)
    ensures Find(Create(m, info), info.service, info.instance) == Some(info)
    ensures Find(Create(Create(m, info), again), info.service, info.instance) == Some(again)
  {
  }

  /** Under [Keyed], what is found is a record whose own name is the one looked up. */
  lemma FindKeyed(m: Services, service: string, instance: string)
    requires Keyed(m)
    ensures Find(m, service, instance).Some? ==> FqName(Find(m, service, instance).value) == instance + "." + service
  {
  }

  /** An update of a name not stored inserts the record and reports a change. */
  lemma UpdateAbsent(m: Services, info: ServiceInfo)
    requires FqName(info) !in m
    ensures Update(m, info) == (Create(m, info), true)
  {
  }

  /** An update of a stored name leaves the merge there and reports whether it differs. */
  lemma UpdatePresent(m: Services, info: ServiceInfo)
    requires FqName(info) in m
    ensures Update(m, info).0 == m[FqName(info) := Merged(m[FqName(info)], info)]
    ensures Update(m, info).1 == Changed(m[FqName(info)], info)
  {
  }

  /** The change flag is true exactly when the registry's contents changed. */
  lemma UpdateFlagIffChanged(m: Services, info: ServiceInfo)
    ensures Update(m, info).1 <==> Update(m, info).0 != m
  {
    var key := FqName(info);
    if key !in m {
      assert key in Update(m, info).0;
    } else {
      ChangedIffMergeDiffers(m[key], info);
      if Update(m, info).0 == m {
        assert Update(m, info).0[key] == Merged(m[key], info);
      }
    }
  }

  /** An update never clears a stored IPv4 address, and an update without one keeps it. */
  lemma UpdateKeepsV4(m: Services, info: ServiceInfo)
    requires FqName(info) in m
    ensures info.v4Address.None? ==> Update(m, info).0[FqName(info)].v4Address == m[FqName(info)].v4Address
    ensures m[FqName(info)].v4Address.Some? ==> Update(m, info).0[FqName(info)].v4Address.Some?
  {
  }

  /** After an update the stored IPv6 set is the union of the old one and the update's. */
  lemma UpdateUnionsV6(m: Services, info: ServiceInfo)
    ensures FqName(info) in Update(m, info).0
    ensures Update(m, info).0[FqName(info)].v6Addresses
         == (if FqName(info) in m then m[FqName(info)].v6Addresses else {}) + info.v6Addresses
  {
  }

  /** An update touches only the record's own name. */
  lemma UpdateFrame(m: Services, info: ServiceInfo)
    ensures Update(m, info).0.Keys == m.Keys + {FqName(info)}
    ensures forall k :: k in m && k != FqName(info) ==> Update(m, info).0[k] == m[k]
  {
  }

  /** Re-applying an update is a no-op that reports no change. */
  lemma UpdateIdempotent(m: Services, info: ServiceInfo)
    ensures Update(Update(m, info).0, info) == (Update(m, info).0, false)
  {
    var key := FqName(info);
    if key in m {
      MergeIdempotent(m[key], info);
      var m1 := m[key := Merged(m[key], info)];
      assert m1[key] == Merged(m[key], info);
      assert m1[key := Merged(m1[key], info)] == m1;
    } else {
      assert info.v6Addresses + info.v6Addresses == info.v6Addresses;
      assert Merged(info, info) == info;
      assert m[key := info][key := info] == m[key := info];
    }
  }

  /** Updates keep every entry under its own name. */
  lemma UpdateKeeps(m: Services, info: ServiceInfo)
    requires Keyed(m)
    ensures Keyed(Update(m, info).0)
  {
  }

  /** Deletion looks only at the record's name; deleting an absent name changes nothing. */
  lemma DeleteByNameOnly(m: Services, a: ServiceInfo, b: ServiceInfo)
    requires FqName(a) == FqName(b)
    ensures Delete(m, a) == Delete(m, b)
    ensures FqName(a) !in m ==> Delete(m, a) == m
    ensures Find(Delete(m, a), a.service, a.instance).None?
  {
  }

  lemma DeleteKeeps(m: Services, info: ServiceInfo)
    requires Keyed(m)
    ensures Keyed(Delete(m, info))
  {
  }

  /** Under [Keyed], two distinct names never hold the same record. */
  lemma KeyedInjective(m: Services, j: string, k: string)
    requires Keyed(m) && j in m && k in m && m[j] == m[k]
    ensures j == k
  {
  }

  // ---------------------------------------------------------------------
  // The cases of client/discovered_services_test.cpp
  // ---------------------------------------------------------------------

  const Loopback4 := IPv4Address([127, 0, 0, 1])
  const Loopback6 := IPv6Address([0, 0, 0, 0, 0, 0, 0, 0, 0, 0, 0, 0, 0, 0, 0, 1])

  lemma SimpleUpdate()
    ensures Find(Create(map[], Empty.(instance := "foo", service := "bar")), "bar", "foo")
         == Some(Empty.(instance := "foo", service := "bar"))
    ensures Update(Create(map[], Empty.(instance := "foo", service := "bar")),
                   Empty.(instance := "foo", service := "bar", v4Address := Some(Loopback4))).1
  {
    var s := Empty.(instance := "foo", service := "bar");
    FindAfterCreate(map[], s, s);
  }

  lemma NonUpdateV4()
    ensures !Update(Create(map[], Empty.(instance := "foo", service := "bar", v4Address := Some(Loopback4))),
                    Empty.(instance := "foo", service := "bar", v4Address := Some(Loopback4))).1
  {
  }

  lemma NonUpdateV6()
    ensures !Update(Create(map[], Empty.(instance := "foo", service := "bar", v6Addresses := {Loopback6})),
                    Empty.(instance := "foo", service := "bar", v6Addresses := {Loopback6})).1
  {
  }

  lemma NonUpdateV6WithDifferentSet()
    ensures var s := Empty.(instance := "foo", service := "bar", v6Addresses := {Loopback6});
            var m := Update(Create(map[], s), s);
            !m.1 && !Update(m.0, Empty.(instance := "foo", service := "bar")).1
  {
  }

  // ---------------------------------------------------------------------
  // The registry object
  // ---------------------------------------------------------------------

  /**
   * The field-by-field patch of a stored record in `ServiceUpdated`: the
   * IPv4 address when the update carries a different one, each IPv6 address
   * not yet known, then port and attributes; the flag records whether any
   * field changed.
   */
  method PatchRecord(cur: ServiceInfo, info: ServiceInfo) returns (current: ServiceInfo, updated: bool)
    ensures current == Merged(cur, info)
    ensures updated == Changed(cur, info)
  {
    current := cur;
    updated := false;
    if info.v4Address.Some? && info.v4Address != current.v4Address {
      current := current.(v4Address := info.v4Address);
      updated := true;
    }
    var v6, added := InsertAll(current.v6Addresses, info.v6Addresses);
    current := current.(v6Addresses := v6);
    updated := updated || added;
    if info.port != current.port {
      current := current.(port := info.port);
      updated := true;
    }
    if info.attributes != current.attributes {
      current := current.(attributes := info.attributes);
      updated := true;
    }
  }

  /** Inserts each address of `extra` into `known`, noting whether one was new. */
  method InsertAll(known: set<IPv6Address>, extra: set<IPv6Address>) returns (r: set<IPv6Address>, added: bool)
    ensures r == known + extra
    ensures added <==> !(extra <= known)
  {
    r := known;
    added := false;
    var pending := extra;
    while pending != {}
      invariant pending <= extra
      invariant r == known + (extra - pending)
      invariant added <==> exists x :: x in extra && x !in pending && x !in known
      decreases |pending|
    {
      var a :| a in pending;
      if a !in r {
        added := true;
        r := r + {a};
      }
      pending := pending - {a};
    }
    assert extra - pending == extra;
  }

  /** `mdns::DiscoveredServices`, with its lock left out: calls are sequential. */
  class DiscoveredServices {
    var services: Services

    ghost predicate Valid()
      reads this
    {
      Keyed(services)
    }

    constructor()
      ensures Valid() && services == map[]
    {
      services := map[];
    }

    method ServiceCreated(info: ServiceInfo)
      requires Valid()
      modifies this
      ensures Valid()
      ensures services == Create(old(services), info)
    {
      services := services[FqName(info) := info];
    }

    /** `ServiceUpdated`: a new record is stored; a known one is patched in place. */
    method ServiceUpdated(info: ServiceInfo) returns (updated: bool)
      requires Valid()
      modifies this
      ensures Valid()
      ensures (services, updated) == Update(old(services), info)
    {
      var key := FqName(info);
      if key !in services {
        services := services[key := info];
        return true;
      }
      var current;
      current, updated := PatchRecord(services[key], info);
      services := services[key := current];
    }

    method ServiceDeleted(info: ServiceInfo)
      requires Valid()
      modifies this
      ensures Valid()
      ensures services == Delete(old(services), info)
    {
      services := services - {FqName(info)};
    }

    method FindInstance(service: string, instance: string) returns (r: Option<ServiceInfo>)
      ensures r == Find(services, service, instance)
    {
      var key := instance + "." + service;
      if key in services {
        r := Some(services[key]);
      } else {
        r := None;
      }
    }

    /**
     * The records the callback of `ForEachServiceNamed` receives, in the
     * order of the traversal: each stored record of that service once.
     */
    method ForEachServiceNamed(service: string) returns (visited: seq<ServiceInfo>)
      requires Valid()
      ensures forall i, j :: 0 <= i < j < |visited| ==> visited[i] != visited[j]
      ensures forall v :: v in visited <==> v in Named(services, service)
    {
      visited := [];
      var keys := services.Keys;
      while keys != {}
        invariant keys <= services.Keys
        invariant forall i, j :: 0 <= i < j < |visited| ==> visited[i] != visited[j]
        invariant forall v :: v in visited ==> FqName(v) in services.Keys - keys
        invariant forall v :: v in visited <==> v in Named(services, service) && FqName(v) !in keys
        decreases |keys|
      {
        var k :| k in keys;
        if services[k].service == service {
          visited := visited + [services[k]];
        }
        keys := keys - {k};
      }
    }

    /** The records the callback of `ForAllServices` receives: each stored record once. */
    method ForAllServices() returns (visited: seq<ServiceInfo>)
      requires Valid()
      ensures forall i, j :: 0 <= i < j < |visited| ==> visited[i] != visited[j]
      ensures forall v :: v in visited <==> v in services.Values
    {
      visited := [];
      var keys := services.Keys;
      while keys != {}
        invariant keys <= services.Keys
        invariant forall i, j :: 0 <= i < j < |visited| ==> visited[i] != visited[j]
        invariant forall v :: v in visited ==> FqName(v) in services.Keys - keys
        invariant forall v :: v in visited <==> v in services.Values && FqName(v) !in keys
        decreases |keys|
      {
        var k :| k in keys;
        visited := visited + [services[k]];
        keys := keys - {k};
      }
    }
  }
}
