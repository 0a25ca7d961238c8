# adb mDNS discovery, modelled in Dafny

This project models how the adb host finds devices over mDNS, together with
the daemon-side pieces that decide what a device listens on and which
connections it accepts. The model covers:

- Addresses and `ServiceInfo` records (client/discovered_services.h). The
  host keeps one record per service instance, with the last IPv4 address,
  the set of IPv6 addresses, the port and the TXT attributes. The text forms
  of addresses and of `ip:port` are modelled as written.
- The `DiscoveredServices` registry (client/discovered_services.cpp). Records
  are keyed by fully qualified name. Created, Updated and Deleted events edit
  the registry. An Updated event patches the record and reports whether
  anything changed.
- The dispatch in client/transport_mdns.cpp. Each receiver event updates the
  registry, asks auto-connect to connect to a device that qualifies, and
  tells the trackers. Name resolution for secure connect and pairing, the
  service listing and the `mdns check` answer are also modelled.
- The instance-name and TXT parsers (client/mdns_utils.h). They are read off
  the rows of client/mdns_utils_test.cpp.
- The conversion of an Open Screen endpoint to a `ServiceInfo` and the start
  of discovery: the reporting client, the interface configuration and one
  watcher per service type (client/openscreen/mdns_service.cpp). The older
  conversion that keeps the first address of each family
  (client/openscreen/mdns_service_info.cpp) is modelled too.
- The daemon's choice of bind specs (daemon/listen_addrs.cpp): the
  `service.adb.tcp.port` / `persist.adb.tcp.port` / `ADBD_PORT` lookup, the
  `service.adb.listen_addrs` property, the feature flag and the fallback to
  port 5555.
- The daemon's socket server (daemon/transport_socket_server.cpp): the vsock
  checks, the bind retry loop and the accept loop that registers a transport
  per connection.
- The `tcp:` socket-spec parser and `get_host_socket_spec_port`, with the
  `is_socket_spec` / `is_local_socket_spec` tests. They are read off
  socket_spec_test.cpp.
- The hex4 frame decoder of `ProtoBinaryToText::OnStdoutReceived`, pinned
  down by client/commandline_test.cpp.

Pure parts are functions with lemmas. Parts of the source that change state
are classes whose methods ensure their new state in terms of specification
functions: the registry, the Open Screen state, the socket server and the
frame decoder. Properties, environment variables, flags, clocks and the
network come in as parameters.

Files, one module each:

- wrappers.dfy (`Wrappers`): `Option` and `Result`
- text.dfy (`Text`): decimal and hex text, split and join, find and rfind
- addresses.dfy (`Addresses`): IPv4/IPv6 addresses and their text
- service_info.dfy (`ServiceInfos`): `ServiceInfo` and its accessors
- discovered_services.dfy (`Registry`): `DiscoveredServices`
- transport_mdns.dfy (`TransportMdns`): receiver dispatch, auto-connect, name lookups
- mdns_service.dfy (`OpenScreenService`): endpoint conversion and discovery start
- mdns_service_info.dfy (`OpenScreenServiceInfo`): first-address conversion
- mdns_utils.dfy (`MdnsUtils`): instance-name and TXT parsing
- socket_spec.dfy (`SocketSpec`): the `tcp:` parser and the port lookup
- socket_spec_table.dfy (`SocketSpecTable`): the rows of socket_spec_test.cpp
- listen_addrs.dfy (`ListenAddrs`): the daemon's bind specs
- transport_socket_server.dfy (`TransportSocketServer`): vsock checks, bind retry, accept loop
- commandline.dfy (`Hex4Frames`): hex4 frame decoding

## Model

| member | source | states |
|---|---|---|
| Addresses.LexLess | client/discovered_services.h:38-40 | the lexicographic order on byte strings that a negative memcmp result means; its properties are stated by Addresses.MemcmpIsLexicographic, MemcmpAntisymmetric and MemcmpTransitive |
| Addresses.Memcmp | client/discovered_services.h:38-40 | the byte comparison returns -1, 0 or 1, and 0 exactly when the two byte strings are equal |
| Addresses.MemcmpIsLexicographic | client/discovered_services.h:62-64 | a negative comparison is exactly the lexicographic order: a common prefix followed by a smaller byte |
| Addresses.MemcmpAntisymmetric | client/discovered_services.h:62-64 | swapping the operands negates the comparison |
| Addresses.MemcmpTransitive | client/discovered_services.h:62-64 | "compares below" is transitive |
| Addresses.V4Equal | client/discovered_services.h:38-40 | IPv4 equality holds exactly when all four bytes agree, i.e. on equal addresses |
| Addresses.V4Text | client/discovered_services.h:105-106 | the dotted-decimal text of an IPv4 address; its contract is stated by Addresses.V4TextFields, V4TextLength and V4TextInjective |
| Addresses.V4TextFields | client/discovered_services.h:105-106 | the dotted text splits on '.' into exactly four fields, the decimal form of each byte in order |
| Addresses.V4TextLength | client/discovered_services.h:105-106 | dotted-decimal text is 7 to 15 characters long |
| Addresses.V4TextInjective | client/discovered_services.h:105-106 | two IPv4 addresses with the same text are the same address |
| Addresses.V6Less | client/discovered_services.h:62-64 | `<` on IPv6 addresses is the lexicographic order of their sixteen bytes |
| Addresses.V6Equal | client/discovered_services.h:66-68 | IPv6 equality is equality of the addresses |
| Addresses.V6LessTrichotomy | client/discovered_services.h:62-68 | `<` is irreflexive and asymmetric, and any two addresses are related by `<`, `==` or `>` |
| Addresses.V6LessTransitive | client/discovered_services.h:62-64 | `<` is transitive, so it is a strict total order |
| Addresses.Word | client/discovered_services.h:51 | group k is the big-endian 16-bit value of bytes 2k and 2k+1, so it is below 65536 |
| Addresses.Groups | client/discovered_services.h:50-57 | the text has exactly eight groups |
| Addresses.V6Text | client/discovered_services.h:46-59 | the text of an IPv6 address, eight "{:x}" groups joined by ':'; its contract is stated by Addresses.V6TextGroups, SplitV6Text, V6TextLength and V6TextInjective |
| Addresses.ToString | client/discovered_services.h:46-59 | the loop builds the eight lower-case hex groups joined by ':' (the V6Text definition) |
| Addresses.V6TextGroups | client/discovered_services.h:46-59 | the text splits on ':' into the eight groups; each group has 1 to 4 hex digits, no leading zero, and reads back as its 16-bit word |
| Addresses.SplitV6Text | client/discovered_services.h:46-59 | splitting the text of an address on ":" gives back its eight groups |
| Addresses.V6TextLength | client/discovered_services.h:46-59 | the text is 15 to 39 characters long, within the 39 characters the source reserves |
| Addresses.V6TextInjective | client/discovered_services.h:46-59 | two IPv6 addresses with the same text are equal: the text determines all sixteen bytes |
| Addresses.WordBytes | client/discovered_services.h:51 | a 16-bit word determines its high and low byte |
| Text.Decimal | client/discovered_services.h:105-106 | the "{}" text of a number is a non-empty run of digits; Text.DecimalRoundTrip, DecimalInjective and DecimalNoLeadingZero state that it reads back and has no leading zero |
| Text.DecimalRoundTrip | client/discovered_services.h:105-106 | "{}" decimal text reads back as the number it prints |
| Text.DecimalInjective | client/discovered_services.h:105-106 | different numbers print differently |
| Text.DecimalNoLeadingZero | client/discovered_services.h:105-106 | the text starts with '0' only for zero |
| Text.DecimalLength | client/discovered_services.h:105-106 | a byte prints as 1, 2 or 3 digits according to its size |
| Text.Hex | client/discovered_services.h:52 | the "{:x}" text of a number is a non-empty run of lower-case hex digits; Text.HexRoundTrip and HexNoLeadingZero state that it reads back and has no leading zero |
| Text.HexRoundTrip | client/discovered_services.h:52 | "{:x}" text reads back as the number it prints |
| Text.HexNoLeadingZero | client/discovered_services.h:52 | hex text starts with '0' only for zero |
| Text.HexLength16 | client/discovered_services.h:52 | a 16-bit value prints as 1 to 4 hex digits |
| Text.Hex4 | client/commandline_test.cpp:32-34 | "%04zx" yields exactly four lower-case hex digits |
| Text.Hex4RoundTrip | client/commandline_test.cpp:32-34 | the four-digit header reads back as the length it encodes |
| Text.Split | daemon/listen_addrs.cpp:69 | splitting always yields at least one piece |
| Text.SplitNoSep | daemon/listen_addrs.cpp:69 | no piece contains the separator |
| Text.Join | daemon/listen_addrs.cpp:69 | pieces joined by a separator, the inverse of Split stated by Text.JoinSplit and Text.SplitJoin |
| Text.JoinSplit | daemon/listen_addrs.cpp:69 | joining the pieces with the separator gives back the string |
| Text.SplitJoin | daemon/listen_addrs.cpp:69 | splitting a join of separator-free pieces gives back the pieces |
| Text.LastIndex | client/mdns_utils_test.cpp:24-172 | the last occurrence of a character (rfind): the character is there and not after it; None exactly when it is absent |
| Text.IndexOf | client/mdns_utils_test.cpp:174-212 | the first occurrence of a character (find): the character is there and not before it; None exactly when it is absent |
| ServiceInfos.Make | client/discovered_services.h:81-90 | the constructor copies each field and stores the parsed TXT records as attributes |
| ServiceInfos.FqName | client/discovered_services.cpp:24-26 | the key is the instance, a '.', then the service |
| ServiceInfos.V4AddressString | client/discovered_services.h:101-107 | empty exactly when there is no IPv4 address; otherwise four dot-separated decimal fields, 7 to 15 characters |
| ServiceInfos.V4AddressStringInjective | client/discovered_services.h:101-107 | equal strings mean equal IPv4 fields, absence included |
| ServiceInfos.V6AddressesCollapse | client/discovered_services.h:95 | the IPv6 set stores an address once: inserting a present one changes neither the record nor the size |
| MdnsUtils.ParseTxtKeyValue | client/mdns_utils_test.cpp:174-212 | succeeds exactly when the text has an '=' that is not its first character; the key is then non-empty and free of '=', and key, '=' and value give back the text |
| MdnsUtils.ParseTxtKeyValueRoundTrip | client/discovered_services.h:109-110 | the text "key=value" of a non-empty, '='-free key and any value parses back to that pair |
| MdnsUtils.TxtEmptyFails | client/mdns_utils_test.cpp:174-178 | the empty text is rejected |
| MdnsUtils.TxtJustSplitterFails | client/mdns_utils_test.cpp:180-184 | "=" is rejected |
| MdnsUtils.TxtNoKeyFails | client/mdns_utils_test.cpp:186-190 | "=value" is rejected |
| MdnsUtils.TxtNoSplitFails | client/mdns_utils_test.cpp:200-204 | "keyvalue" is rejected |
| MdnsUtils.TxtNoValue | client/mdns_utils_test.cpp:192-198 | "key=" gives key "key" and an empty value |
| MdnsUtils.TxtNormal | client/mdns_utils_test.cpp:206-212 | "key=value" gives key "key" and value "value" |
| MdnsUtils.ParseService | client/mdns_utils_test.cpp:78-109 | the service-name parser; its contract is stated by MdnsUtils.ParseServiceSound and ParseServiceRendered |
| MdnsUtils.ParseServiceSound | client/mdns_utils_test.cpp:78-109 | whatever the service-name parser accepts is well formed and is exactly the text of its three parts |
| MdnsUtils.ParseServiceRendered | client/mdns_utils_test.cpp:78-109 | the text of any well-formed instance, service and transport parses back to those parts |
| MdnsUtils.StripCases | client/mdns_utils_test.cpp:42-49 | a name is its text without the trailing dot, or that text plus one dot |
| MdnsUtils.LocalSplit | client/mdns_utils_test.cpp:142-158 | a text ending in ".local" is what precedes that ending plus ".local" |
| MdnsUtils.LocalParseSound | client/mdns_utils_test.cpp:142-158 | a name accepted through its ".local" ending is a well-formed name followed by ".local" or ".local." |
| MdnsUtils.TransportParseSound | client/mdns_utils_test.cpp:78-109 | a name accepted through its transport label is a well-formed name, possibly followed by one dot |
| MdnsUtils.ParseInstanceName | client/mdns_utils_test.cpp:24-172 | the instance-name parser; its contract is stated by MdnsUtils.ParseInstanceNameSound, ParseInstanceNameBare and ParseInstanceNameRendered |
| MdnsUtils.ParseInstanceNameSound | client/mdns_utils_test.cpp:24-172 | every parse with a transport has a non-empty instance, one non-empty service label and "_tcp" or "_udp", and the name is their text followed by "", ".", ".local" or ".local." |
| MdnsUtils.ParseInstanceNameBare | client/mdns_utils_test.cpp:24-49 | every parse without a transport is the whole name as the instance, with empty service and transport |
| MdnsUtils.TransportDispatch | client/mdns_utils_test.cpp:78-114 | a name that ends, after one dot is dropped, in a transport label and not in ".local" is parsed as a service name |
| MdnsUtils.TransportEnding | client/mdns_utils_test.cpp:78-93 | a text ending in a transport label keeps that label as its last one, and only one trailing dot is dropped |
| MdnsUtils.ParseInstanceNameRendered | client/mdns_utils_test.cpp:78-158 | every well-formed name parses back to its parts with each of the four endings, so with the soundness lemma the parser and the text are inverse |
| MdnsUtils.NameJustDot | client/mdns_utils_test.cpp:26-33 | "." is all instance |
| MdnsUtils.NameTwoLabels | client/mdns_utils_test.cpp:34-41 | "my.name" is all instance |
| MdnsUtils.NameTwoLabelsTrailingDot | client/mdns_utils_test.cpp:42-49 | "my.name." is all instance, dot included |
| MdnsUtils.NameService | client/mdns_utils_test.cpp:78-93 | "my.service._tcp" and "my.service._udp", with or without a trailing dot, give "my", "service" and the transport |
| MdnsUtils.NameDoubleDotKeepsDot | client/mdns_utils_test.cpp:94-101 | "my..service" plus a transport gives the instance "my." |
| MdnsUtils.NameDottedInstance | client/mdns_utils_test.cpp:102-109 | "my.name.service" plus a transport and a dot gives the instance "my.name" |
| MdnsUtils.NameWithLocal | client/mdns_utils_test.cpp:142-158 | "name.service" plus a transport and ".local" or ".local." gives "name" and "service" |
| MdnsUtils.ServiceFailsFor | client/mdns_utils_test.cpp:53-77 | text before the transport with no dot, or only a leading or trailing one, is not a service name |
| MdnsUtils.TransportNameFails | client/mdns_utils_test.cpp:53-77 | such a name is rejected with or without a trailing dot |
| MdnsUtils.NameTransportOnlyFails | client/mdns_utils_test.cpp:53-62 | a bare transport label, with or without a trailing dot, is rejected |
| MdnsUtils.NameNoInstanceFails | client/mdns_utils_test.cpp:63-67 | "service" and a transport, without an instance, is rejected |
| MdnsUtils.NameEmptyInstanceFails | client/mdns_utils_test.cpp:68-72 | ".service" and a transport, with an empty instance, is rejected |
| MdnsUtils.NameEmptyServiceFails | client/mdns_utils_test.cpp:73-77 | "service." then the transport's dot, which leaves the service empty, is rejected |
| MdnsUtils.NameEmptyServiceTrailingDotFails | client/mdns_utils_test.cpp:110-114 | "name.service." then a transport and a dot is rejected |
| MdnsUtils.NameLocalOnlyFails | client/mdns_utils_test.cpp:117-131 | ".local", ".local." and "name.local" are rejected |
| MdnsUtils.LocalEnding | client/mdns_utils_test.cpp:117-158 | a text with ".local" appended ends in ".local", and one trailing dot after it is dropped |
| MdnsUtils.LocalDispatch | client/mdns_utils_test.cpp:117-170 | a name that ends in ".local", after one dot is dropped, is parsed as the service name before that ending |
| MdnsUtils.LocalFails | client/mdns_utils_test.cpp:117-170 | a service part that does not parse is rejected with ".local" or ".local." after it |
| MdnsUtils.EmptyLastLabel | client/mdns_utils_test.cpp:159-164 | a service part ending in a dot has no transport and is rejected |
| MdnsUtils.RestLocalFails | client/mdns_utils_test.cpp:132-141 | a transport preceded by text that cannot be split is rejected with ".local" after it |
| MdnsUtils.NameLocalWithoutInstanceFails | client/mdns_utils_test.cpp:132-141 | a bare transport, or "service" and a transport, followed by ".local" is rejected |
| MdnsUtils.DotLocalFails | client/mdns_utils_test.cpp:159-164 | a service part and a dot followed by ".local." is rejected |
| MdnsUtils.RestLocalDotFails | client/mdns_utils_test.cpp:165-170 | a transport preceded by text that cannot be split is rejected with ".local." after it |
| MdnsUtils.NameMisplacedLocalFails | client/mdns_utils_test.cpp:159-170 | a doubled dot before ".local." or before the transport is rejected |
| Registry.Merged | client/discovered_services.cpp:43-67 | the patched record keeps the name, takes a present IPv4 address and otherwise keeps the old one, holds exactly the union of both IPv6 sets, and takes the update's port and attributes |
| Registry.Changed | client/discovered_services.cpp:43-67 | whether ServiceUpdated's patch alters a stored record; Registry.ChangedIffMergeDiffers states that it holds exactly when the patched record differs |
| Registry.ChangedIffMergeDiffers | client/discovered_services.cpp:44-73 | the change flag is true exactly when the patched record differs from the stored one |
| Registry.MergeIdempotent | client/discovered_services.cpp:43-67 | patching twice with the same update is patching once, and the second patch reports no change |
| Registry.Create | client/discovered_services.cpp:28-32 | the record is stored under its name, replacing what was there; no other name changes |
| Registry.Delete | client/discovered_services.cpp:76-80 | the record's name is removed and every other entry stays |
| Registry.CreateKeeps | client/discovered_services.cpp:28-32 | creation keeps every entry stored under its own name |
| Registry.FindAfterCreate | client/discovered_services.cpp:28-90 | a created record is found by its service and instance; creating again under the same name overwrites it |
| Registry.Find | client/discovered_services.cpp:82-90 | FindInstance on the map; its contract is stated by Registry.FindKeyed and FindAfterCreate |
| Registry.FindKeyed | client/discovered_services.cpp:82-90 | what lookup returns has the name "instance.service" it was looked up by |
| Registry.Update | client/discovered_services.cpp:34-74 | ServiceUpdated on the map: the new map and the change flag; its contract is stated by Registry.UpdateAbsent, UpdatePresent, UpdateFlagIffChanged, UpdateFrame and UpdateIdempotent |
| Registry.UpdateAbsent | client/discovered_services.cpp:37-41 | an update of a name not stored inserts the record and reports a change |
| Registry.UpdatePresent | client/discovered_services.cpp:43-73 | an update of a stored name leaves the patched record there and reports whether it changed |
| Registry.UpdateFlagIffChanged | client/discovered_services.h:128-130 | the result is true exactly when the registry's contents changed |
| Registry.UpdateKeepsV4 | client/discovered_services.cpp:46-50 | an update without an IPv4 address keeps the stored one, and a stored IPv4 address is never cleared |
| Registry.UpdateUnionsV6 | client/discovered_services.cpp:52-57 | after an update the stored IPv6 set is the union of the old set and the update's (just the update's when the name was absent) |
| Registry.UpdateFrame | client/discovered_services.cpp:34-74 | an update adds at most its own name and leaves every other entry alone |
| Registry.UpdateIdempotent | client/discovered_services.cpp:34-74 | repeating an update leaves the registry as it is and reports no change |
| Registry.UpdateKeeps | client/discovered_services.cpp:34-74 | updates keep every entry stored under its own name |
| Registry.DeleteByNameOnly | client/discovered_services.cpp:76-80 | deletion looks only at the name; deleting an absent name is a no-op; afterwards the record is not found |
| Registry.DeleteKeeps | client/discovered_services.cpp:76-80 | deletion keeps every entry stored under its own name |
| Registry.KeyedInjective | client/discovered_services.cpp:24-26 | with every record under its own name, two names never hold the same record |
| Registry.SimpleUpdate | client/discovered_services_test.cpp:24-41 | a created "foo"/"bar" record is found, and adding an IPv4 address to it reports a change |
| Registry.NonUpdateV4 | client/discovered_services_test.cpp:43-54 | updating with the same IPv4 address reports no change |
| Registry.NonUpdateV6 | client/discovered_services_test.cpp:56-67 | updating with the same IPv6 set reports no change |
| Registry.NonUpdateV6WithDifferentSet | client/discovered_services_test.cpp:69-86 | an update with an empty IPv6 set after one with the loopback set reports no change |
| Registry.PatchRecord | client/discovered_services.cpp:43-67 | the in-place patch produces the merged record and the change flag defined by Merged and Changed |
| Registry.InsertAll | client/discovered_services.cpp:52-57 | the insertion loop yields the union, and flags a change exactly when some address was new |
| Registry.DiscoveredServices.constructor | client/discovered_services.h:124-142 | a new registry is empty |
| Registry.DiscoveredServices.ServiceCreated | client/discovered_services.cpp:28-32 | the map becomes Create of the old map; every entry stays under its own name |
| Registry.DiscoveredServices.ServiceUpdated | client/discovered_services.cpp:34-74 | the map and the result are Update of the old map (insert, or patch and report) |
| Registry.DiscoveredServices.ServiceDeleted | client/discovered_services.cpp:76-80 | the map becomes Delete of the old map |
| Registry.DiscoveredServices.FindInstance | client/discovered_services.cpp:82-90 | returns the record stored under "instance.service", or nothing |
| Registry.DiscoveredServices.ForEachServiceNamed | client/discovered_services.cpp:92-101 | the callback sees each stored record of that service exactly once and no other |
| Registry.DiscoveredServices.ForAllServices | client/discovered_services.cpp:102-107 | the callback sees each stored record exactly once |
| TransportMdns.Requests | client/transport_mdns.cpp:49-60 | a decision makes at most one connect request, and none exactly when there is no target |
| TransportMdns.AutoConnectTarget | client/transport_mdns.cpp:62-83 | the only target auto-connect ever asks for is the record's own "instance.service" name |
| TransportMdns.AutoConnectGates | client/transport_mdns.cpp:62-83 | auto-connect asks for a connection exactly when the service may auto-connect, the record has an IPv4 address, the service has an index, and, for the secure connect service, the instance is a known host |
| TransportMdns.AutoConnectMonotone | client/transport_mdns.cpp:75-80 | adding known hosts can only enable auto-connect |
| TransportMdns.SecureConnectTarget | client/transport_mdns.cpp:85-93 | a secure connect is requested exactly when the instance is a known host, and it targets the record's name |
| TransportMdns.SecureConnectByName | client/transport_mdns.cpp:136-142 | the target of connecting to a TLS service by instance name; its contract is stated by TransportMdns.SecureConnectByNameTargets |
| TransportMdns.SecureConnectByNameTargets | client/transport_mdns.cpp:136-142 | connecting by name succeeds exactly when a TLS-service record of that instance is stored and is a known host; the target is "instance.tls-service" |
| TransportMdns.Dispatch | client/transport_mdns.cpp:98-122 | one receiver event applied to the registry, the requests and the notifications; its contract is stated by TransportMdns.DispatchCreated, DispatchUpdated, DispatchDeleted, DispatchRequestsAtMostOne and DispatchKeeps |
| TransportMdns.DispatchCreated | client/transport_mdns.cpp:101-121 | a Created event makes the record findable, evaluates auto-connect, and notifies the trackers once |
| TransportMdns.DispatchUpdated | client/transport_mdns.cpp:106-121 | an Updated event applies the update; it evaluates auto-connect and notifies the trackers exactly when the registry changed, and otherwise leaves requests and notifications as they were |
| TransportMdns.DispatchDeleted | client/transport_mdns.cpp:113-121 | a Deleted event removes the record, requests nothing, and still notifies the trackers |
| TransportMdns.DispatchRequestsAtMostOne | client/transport_mdns.cpp:98-122 | any event keeps the earlier requests and adds at most one, to the record's own name |
| TransportMdns.DispatchKeeps | client/transport_mdns.cpp:98-122 | every event keeps each registry entry under its own name |
| TransportMdns.ConnectServiceInfo | client/transport_mdns.cpp:162-174 | the record a connect by instance name resolves to; its contract is stated by TransportMdns.ResolveUnparsable, ResolveRendered, ResolveStored and ResolveBareName |
| TransportMdns.PairingServiceInfo | client/transport_mdns.cpp:176-186 | the pairing record a pair by instance name resolves to; its contract is stated by TransportMdns.ResolveUnparsable and ResolveRendered |
| TransportMdns.ResolveUnparsable | client/transport_mdns.cpp:165-183 | a name that does not parse resolves to nothing, for connecting and for pairing |
| TransportMdns.ResolveRendered | client/transport_mdns.cpp:162-186 | a well-formed name (any of the four endings) is looked up as its instance under "service.transport" for connecting and under the pairing service for pairing; what is found carries exactly those parts |
| TransportMdns.ResolveStored | client/transport_mdns.cpp:162-174 | a stored record is found again through the text of its own name |
| TransportMdns.ResolveBareName | client/transport_mdns.cpp:171-173 | a name with no transport label is looked up under the service "." |
| TransportMdns.Listing | client/transport_mdns.cpp:152-160 | the text of the discovered-services listing; its contract is stated by TransportMdns.ListingSnoc, ListingPrefix, LineFields and ListingLines |
| TransportMdns.ListingSnoc | client/transport_mdns.cpp:154-157 | each visited record appends exactly its own line to the listing |
| TransportMdns.ListingPrefix | client/transport_mdns.cpp:154-158 | the listing after k+1 records is the listing after k plus the next record's line |
| TransportMdns.NoNewlineInAddressAndPort | client/transport_mdns.cpp:155-156 | the "v4:port" field holds neither a newline nor a tab |
| TransportMdns.LineFields | client/transport_mdns.cpp:155-156 | a line splits at its tabs into instance, service and "v4:port" |
| TransportMdns.ListingLines | client/transport_mdns.cpp:152-160 | the listing splits at newlines into one line per record, in visiting order, then an empty tail |
| TransportMdns.FormatListing | client/transport_mdns.cpp:153-159 | the appending loop builds exactly the listing of the visited records |
| TransportMdns.StartsDiscovery | client/transport_mdns.cpp:126-134 | discovery starts unless ADB_MDNS_OPENSCREEN is exactly "0" (unset starts it) |
| TransportMdns.MdnsCheck | client/transport_mdns.cpp:144-150 | the version text is returned exactly when discovery started; otherwise the text starts with "ERROR:" |
| TransportMdns.KnownWifiHostsFile.constructor | client/adb_wifi_test.cpp:25 | a cleared keystore knows no host |
| TransportMdns.KnownWifiHostsFile.AddKnownHost | client/adb_wifi.h:40-41 | the host is added and nothing else changes |
| TransportMdns.KnownWifiHostsFile.IsKnownHost | client/adb_wifi.h:43-44 | true exactly when the host was added |
| TransportMdns.AddKnownHostCase | client/adb_wifi_test.cpp:34-40 | a host is unknown before it is added and known after |
| TransportMdns.MdnsTransport.constructor | client/transport_mdns.cpp:47-60 | the transport starts with no connect requests and no tracker notifications |
| TransportMdns.MdnsTransport.RequestConnectToDevice | client/transport_mdns.cpp:49-60 | one connect to "instance.service" is requested |
| TransportMdns.MdnsTransport.AttemptAutoConnect | client/transport_mdns.cpp:62-83 | the requests grow by the auto-connect decision, and nothing else changes |
| TransportMdns.MdnsTransport.ConnectAdbSecureDevice | client/transport_mdns.cpp:85-93 | returns true exactly for a known host, and then requests the connect |
| TransportMdns.MdnsTransport.SecureConnectByServiceName | client/transport_mdns.cpp:136-142 | returns true exactly when connecting by name has a target, and requests it |
| TransportMdns.MdnsTransport.UpdateMdnsTrackers | client/transport_mdns.cpp:119-121 | one tracker notification is recorded and nothing else changes |
| TransportMdns.MdnsTransport.OnServiceReceiverResult | client/transport_mdns.cpp:98-122 | registry, requests and notifications move exactly as Dispatch says |
| TransportMdns.MdnsTransport.GetConnectServiceInfo | client/transport_mdns.cpp:162-174 | the result is ConnectServiceInfo of the registry; the source's CHECK that the name is non-empty is the precondition |
| TransportMdns.MdnsTransport.GetPairingServiceInfo | client/transport_mdns.cpp:176-186 | the result is PairingServiceInfo of the registry, with the same precondition |
| TransportMdns.MdnsTransport.ListDiscoveredServices | client/transport_mdns.cpp:152-160 | the result is the listing of each stored record exactly once, in visiting order |
| OpenScreenService.LastV4Spec | client/openscreen/mdns_service.cpp:98-107 | the kept IPv4 address is absent exactly when no address is IPv4; otherwise it is an IPv4 address of the list with no IPv4 address after it, i.e. the last one wins |
| OpenScreenService.V6Set | client/openscreen/mdns_service.cpp:99-112 | the IPv6 set holds exactly the IPv6 addresses of the list |
| OpenScreenService.LastV4IgnoresTrailingV6 | client/openscreen/mdns_service.cpp:100-115 | appending addresses none of which is IPv4 keeps the kept IPv4 address |
| OpenScreenService.LastV4TakesLater | client/openscreen/mdns_service.cpp:102-106 | a later IPv4 address replaces any earlier one |
| OpenScreenService.PartitionAddresses | client/openscreen/mdns_service.cpp:98-115 | the conversion loop yields the last IPv4 address and the set of IPv6 addresses |
| OpenScreenService.EndpointRecord | client/openscreen/mdns_service.cpp:116-117 | the record takes the instance, service, port and parsed TXT of the endpoint, its last IPv4 address and its IPv6 set |
| OpenScreenService.EndpointRecordV6Order | client/openscreen/mdns_service.cpp:99-111 | the order and repetition of IPv6 addresses do not affect the record |
| OpenScreenService.ToServiceInfoState | client/openscreen/mdns_service.cpp:119-131 | the endpoint-state to registry-event mapping; OpenScreenService.StateMappingBijective states that it is one-to-one and onto |
| OpenScreenService.StateMappingBijective | client/openscreen/mdns_service.cpp:119-131 | the endpoint-state mapping is one-to-one and onto the registry states |
| OpenScreenService.OnOpenScreenServiceReceiverResult | client/openscreen/mdns_service.cpp:92-134 | the transport changes exactly as one dispatch of the converted record with the mapped state |
| OpenScreenService.DiscoveryReportingClient.constructor | client/openscreen/mdns_service.cpp:53 | a new client has seen no fatal error |
| OpenScreenService.DiscoveryReportingClient.OnFatalError | client/openscreen/mdns_service.cpp:41-44 | a fatal error sets the flag |
| OpenScreenService.DiscoveryReportingClient.OnRecoverableError | client/openscreen/mdns_service.cpp:46-48 | a recoverable error leaves the flag as it was |
| OpenScreenService.DiscoveryReportingClient.GotFatalError | client/openscreen/mdns_service.cpp:50 | returns the flag |
| OpenScreenService.FatalIsSticky | client/openscreen/mdns_service.cpp:41-53 | after a fatal error, recoverable errors do not clear the flag |
| OpenScreenService.HasAddress | client/openscreen/mdns_service.cpp:77-82 | the interface test of the configuration loop: an IPv4 or an IPv6 address is present |
| OpenScreenService.WithAddress | client/openscreen/mdns_service.cpp:77-82 | the kept interfaces are exactly those with an IPv4 or an IPv6 address |
| OpenScreenService.ConfigFor | client/openscreen/mdns_service.cpp:67-90 | no configuration exactly when no interface has an address; otherwise a listen-only configuration with at least one interface |
| OpenScreenService.GetConfigForAllInterfaces | client/openscreen/mdns_service.cpp:67-90 | the filtering loop yields ConfigFor of the interfaces |
| OpenScreenService.FirstFatal | client/openscreen/mdns_service.cpp:160-175 | the index of the watcher after whose start the fatal flag is first seen: the flag is set there and at no earlier one; none exactly when it is never set |
| OpenScreenService.StartedWatchers | client/openscreen/mdns_service.cpp:160-175 | at most one watcher per service type, in order, each of its own type |
| OpenScreenService.WatchersAllRunning | client/openscreen/mdns_service.cpp:160-166 | without a fatal error every service type gets a running watcher |
| OpenScreenService.WatchersStopAfterFatal | client/openscreen/mdns_service.cpp:167-174 | after a fatal error no watcher runs and no later service type gets one |
| OpenScreenService.FirstFatalPrefix | client/openscreen/mdns_service.cpp:160-175 | when the first i starts saw no fatal error and start i does, start i is the first fatal one |
| OpenScreenService.MdnsService.constructor | client/openscreen/mdns_service.cpp:65 | before start-up there is no state, no configuration and no watcher |
| OpenScreenService.MdnsService.StopAll | client/openscreen/mdns_service.cpp:168-172 | every watcher is stopped, in place, and nothing else changes |
| OpenScreenService.MdnsService.StartOpenScreenDiscovery | client/openscreen/mdns_service.cpp:141-181 | callable only before start-up; afterwards discovery is started, the configuration is that of the interfaces, no watcher exists without one, and otherwise the watchers are StartedWatchers |
| OpenScreenService.MdnsService.RegisterWatchers | client/openscreen/mdns_service.cpp:160-175 | the registration loop leaves exactly StartedWatchers, and changes nothing else |
| OpenScreenServiceInfo.FirstV4 | client/openscreen/mdns_service_info.cpp:42-48 | absent exactly when no address is IPv4; otherwise the first IPv4 address of the list |
| OpenScreenServiceInfo.FirstV6 | client/openscreen/mdns_service_info.cpp:42-48 | absent exactly when no address is IPv6; otherwise the first IPv6 address of the list |
| OpenScreenServiceInfo.FirstIgnoresLater | client/openscreen/mdns_service_info.cpp:43-46 | once an address of a family is kept, later addresses do not change it |
| OpenScreenServiceInfo.FirstAndLastAgreeOnSingleV4 | client/openscreen/mdns_service_info.cpp:43-44 | with a single IPv4 address, this conversion and the newer one keep the same address |
| OpenScreenServiceInfo.DnsSdInstanceEndpointToServiceInfo | client/openscreen/mdns_service_info.cpp:37-51 | copies the port and keeps the first address of each family; for a non-empty list one of them is present, which is what the source's CHECK demands |
| TransportSocketServer.ShouldCheckVsockCid | daemon/transport_socket_server.cpp:57-62 | the vsock checks are skipped only on an Android build whose restrict-local-CID flag is off |
| TransportSocketServer.IsLocalVsockConnection | daemon/transport_socket_server.cpp:64-72 | whether a vsock connection is local; its contract is stated by TransportSocketServer.LocalitySymmetric and RemoteConnection |
| TransportSocketServer.LocalitySymmetric | daemon/transport_socket_server.cpp:64-72 | whether a connection is local does not depend on which end is the server |
| TransportSocketServer.RemoteConnection | daemon/transport_socket_server.cpp:64-72 | a connection is remote exactly when the two CIDs differ and neither is the local CID 1 |
| TransportSocketServer.VsockAccept | daemon/transport_socket_server.cpp:74-105 | a descriptor comes back exactly when accept and getsockname succeed, both addresses are AF_VSOCK, and the connection is not local; it is the accepted one |
| TransportSocketServer.VsockAcceptIsRemote | daemon/transport_socket_server.cpp:97-104 | every connection let through comes from another machine: different CIDs, neither of them local |
| TransportSocketServer.AcceptOnce | daemon/transport_socket_server.cpp:130-136 | a "vsock:" address with the checks on takes the vsock accept; any other takes the plain accept, which yields a connection exactly when its descriptor is valid |
| TransportSocketServer.VsockAlwaysCheckedOffAndroid | daemon/transport_socket_server.cpp:57-131 | off Android every "vsock:" address goes through the checks |
| TransportSocketServer.HostSerial | daemon/transport_socket_server.cpp:140 | the serial is "host-" followed by decimal digits |
| TransportSocketServer.HostSerialRoundTrip | daemon/transport_socket_server.cpp:140 | the digits after "host-" read back as the descriptor |
| TransportSocketServer.HostSerialInjective | daemon/transport_socket_server.cpp:140 | two descriptors never share a serial |
| TransportSocketServer.Registered | daemon/transport_socket_server.cpp:128-147 | at most one serial per accept round, each a "host-" serial |
| TransportSocketServer.RegisteredAllAccepted | daemon/transport_socket_server.cpp:136-146 | when every round yields a descriptor, round i registers exactly the serial of its descriptor |
| TransportSocketServer.LocalConnectionNotRegistered | daemon/transport_socket_server.cpp:97-132 | with the checks on, a local connection registers nothing |
| TransportSocketServer.ServeConnections | daemon/transport_socket_server.cpp:128-147 | the accept loop, over a finite run of rounds, registers exactly the serials Registered says |
| TransportSocketServer.Unrecoverable | daemon/transport_socket_server.cpp:119 | the errnos after which binding gives up (EAFNOSUPPORT, EINVAL, EPROTONOSUPPORT); TransportSocketServer.BindResult and BindStep state that every other failure retries |
| TransportSocketServer.BindResult | daemon/transport_socket_server.cpp:113-126 | the loop binds at the first successful attempt or gives up at the first EAFNOSUPPORT, EINVAL or EPROTONOSUPPORT, every earlier attempt having failed with another error; it is still retrying only when every attempt failed with another error |
| TransportSocketServer.BindResultIgnoresLater | daemon/transport_socket_server.cpp:113-126 | once the loop has ended, no further attempt is made |
| TransportSocketServer.BindServerSocket | daemon/transport_socket_server.cpp:113-126 | the retry loop ends as BindResult says |
| TransportSocketServer.BindStep | daemon/transport_socket_server.cpp:121-123 | a failure with a recoverable error keeps the loop retrying |
| TransportSocketServer.BindStopsAt | daemon/transport_socket_server.cpp:115-120 | after retried attempts only, the next attempt binds or gives up there |
| TransportSocketServer.BindPrefix | daemon/transport_socket_server.cpp:113-126 | retried attempts only delay the outcome: it is that of the remaining attempts, shifted |
| Hex4Frames.FrameLength | client/commandline_test.cpp:32-34 | the four-digit header announces a length below 65536 |
| Hex4Frames.HexValueBound | client/commandline_test.cpp:32-34 | k hex digits encode a value below 16^k |
| Hex4Frames.Frames | client/commandline_test.cpp:82-97 | what is left after the decoded frames never holds a whole frame |
| Hex4Frames.Frame | client/commandline_test.cpp:32-34 | a frame is four lower-case hex digits followed by the payload |
| Hex4Frames.FrameHead | client/commandline_test.cpp:36-56 | a frame at the front is decoded to its payload, and decoding goes on after it |
| Hex4Frames.EncodeRoundTrip | client/commandline_test.cpp:36-131 | decoding frames followed by an incomplete tail gives back exactly the payloads, in order, and leaves the tail |
| Hex4Frames.PartialFrame | client/commandline_test.cpp:82-97 | any proper prefix of a frame decodes nothing and stays buffered |
| Hex4Frames.FramesAppend | client/commandline_test.cpp:133-174 | decoding a stream in two parts, the second after what the first left over, decodes the same as decoding it whole |
| Hex4Frames.Feed | client/commandline_test.cpp:58-80 | feeding a chunk keeps the payloads decoded so far, and leaves no whole frame buffered |
| Hex4Frames.FeedAll | client/commandline_test.cpp:58-80 | after any run of chunks no whole frame is buffered |
| Hex4Frames.ChunkingInvariant | client/commandline_test.cpp:58-80 | however the stream is cut into chunks, the decoder ends as on the whole stream |
| Hex4Frames.Singletons | client/commandline_test.cpp:72-74 | the stream cut into one-character chunks |
| Hex4Frames.ConcatSingletons | client/commandline_test.cpp:72-74 | the one-character chunks put together give back the stream |
| Hex4Frames.OneAtATime | client/commandline_test.cpp:58-80 | feeding one character at a time decodes exactly what feeding the stream at once does |
| Hex4Frames.RenderAll | client/commandline_test.cpp:52-55 | no payloads render nothing |
| Hex4Frames.RenderAllAppend | client/commandline_test.cpp:127-130 | the rendering of two runs of payloads is the rendering of each, in order |
| Hex4Frames.TwoFrames | client/commandline_test.cpp:99-131 | two frames in one chunk decode to both payloads, leaving nothing, and render one after the other |
| Hex4Frames.OneAndAHalf | client/commandline_test.cpp:133-174 | one frame and part of another decode to the first and buffer the part; the rest of the second then completes it, leaving nothing |
| Hex4Frames.ProtoBinaryToText.constructor | client/commandline_test.cpp:49 | a new converter has an empty buffer and no output |
| Hex4Frames.ProtoBinaryToText.OnStdoutReceived | client/commandline_test.cpp:36-174 | the buffer becomes what is left after the complete frames of the old buffer plus the data; the output grows by the rendering of those frames' payloads; the buffer never holds a whole frame |
| Hex4Frames.DecodeFront | client/commandline_test.cpp:32-34 | a whole frame at the front yields its payload first, then the frames after it |
| Hex4Frames.NoFrameLeft | client/commandline_test.cpp:82-97 | text holding no whole frame decodes to nothing and stays as it is |
| SocketSpec.ParseInt | socket_spec_test.cpp:54-60 | an accepted integer text is non-empty, every character after the first is a digit and the value lies in the 32-bit range; a non-negative value without a minus sign is the decimal value of an all-digit text |
| SocketSpec.ParseIntDecimal | socket_spec_test.cpp:45-52 | the decimal text of every non-negative 32-bit number parses back to it |
| SocketSpec.ParseIntNegative | socket_spec_test.cpp:58 | a minus sign before a number's text parses to its negation |
| SocketSpec.PortOf | socket_spec_test.cpp:54-103 | a port is accepted exactly when the text is an integer in 0..65535, and it is that integer |
| SocketSpec.HexRun | socket_spec_test.cpp:116-158 | the leading hex digits: all hex, and the next character is not |
| SocketSpec.HexGroups | socket_spec_test.cpp:116-158 | colon-separated groups count at least one and neither start nor end with a colon |
| SocketSpec.FirstDoubleColon | socket_spec_test.cpp:124-145 | the first "::", or none when there is none |
| SocketSpec.HexGroupsChars | socket_spec_test.cpp:116-158 | groups are made of hex digits and colons only |
| SocketSpec.HexGroupsOne | socket_spec_test.cpp:116-158 | a single group counts as one |
| SocketSpec.HexGroupsCons | socket_spec_test.cpp:116-158 | a group, a colon and more groups count one more |
| SocketSpec.HexGroupsAppend | socket_spec_test.cpp:116-158 | two runs of groups joined by a colon add their counts |
| SocketSpec.HexRunOfGroup | socket_spec_test.cpp:116-158 | the hex run of a group followed by a colon or nothing is the whole group |
| SocketSpec.HexGroupsFirst | socket_spec_test.cpp:116-158 | a run of groups is one group, or a first group, a colon and a shorter run of groups |
| SocketSpec.HexGroupsNoAdjacentColons | socket_spec_test.cpp:147-158 | a run of groups never has two colons side by side |
| SocketSpec.FirstDoubleColonLeast | socket_spec_test.cpp:124-145 | a "::" with none before it is the first one |
| SocketSpec.HexGroupsNoDoubleColon | socket_spec_test.cpp:147-158 | uncompressed groups contain no "::" |
| SocketSpec.FirstDoubleColonAfter | socket_spec_test.cpp:124-145 | in "left::right" the first "::" is where the left groups end |
| SocketSpec.ValidV6 | socket_spec_test.cpp:116-158 | the IPv6 addresses the parser takes unbracketed; its contract is stated by SocketSpec.V6Uncompressed, V6Compressed, ValidV6Chars, ValidV6TrailingColon, ValidV6Colons and the Not*V6 lemmas |
| SocketSpec.V6Uncompressed | socket_spec_test.cpp:147-158 | eight groups form an IPv6 address |
| SocketSpec.V6Compressed | socket_spec_test.cpp:119-145 | at most seven groups around one "::" form an IPv6 address |
| SocketSpec.ValidV6Chars | socket_spec_test.cpp:116-158 | an IPv6 address is made of hex digits and colons only |
| SocketSpec.ValidV6TrailingColon | socket_spec_test.cpp:169-170 | an IPv6 address ends in a colon only when it ends in "::" |
| SocketSpec.ValidV6Colons | socket_spec_test.cpp:62-87 | an IPv6 address holds at least two colons |
| SocketSpec.EightGroupsThenColon | socket_spec_test.cpp:105-172 | eight groups followed by a colon and a colon-free tail are not an IPv6 address |
| SocketSpec.OneColonNotV6 | socket_spec_test.cpp:62-95 | "host:port" with a single colon is not an IPv6 address |
| SocketSpec.NoColonNotV6 | socket_spec_test.cpp:71-87 | a text without a colon is not an IPv6 address |
| SocketSpec.NotTcpMessage | socket_spec_test.cpp:34-43 | the error text is the fixed 26-character message followed by the spec itself |
| SocketSpec.ParseNetAddress | socket_spec_test.cpp:62-172 | a parsed host part has a non-empty host and a non-empty serial |
| SocketSpec.ParseTcpSocketSpec | socket_spec_test.cpp:34-52 | the error is "not tcp" exactly when the spec lacks the "tcp:" prefix; a success has an empty host exactly when its serial is empty (the bare-port form) |
| SocketSpec.BarePort | socket_spec_test.cpp:45-52 | "tcp:N" with N a port gives no host, port N and no serial |
| SocketSpec.BarePortOutOfRange | socket_spec_test.cpp:54-60 | an integer outside 0..65535 is a bad port |
| SocketSpec.HostOnly | socket_spec_test.cpp:71-87 | a colon-free host takes port 5555 and the serial "host:5555" |
| SocketSpec.HostAndPort | socket_spec_test.cpp:62-103 | "host:port" gives that host and port with serial "host:port" when the port is valid, and a bad port otherwise |
| SocketSpec.NetBracketed | socket_spec_test.cpp:116-165 | "[host]:port" gives the host without brackets and the bracketed serial, or a bad port |
| SocketSpec.Bracketed | socket_spec_test.cpp:116-165 | the same through the "tcp:" prefix |
| SocketSpec.BracketedNoPort | socket_spec_test.cpp:163 | "[host]" without a port is rejected |
| SocketSpec.UnbracketedV6 | socket_spec_test.cpp:132-158 | an unbracketed IPv6 address takes port 5555 and a bracketed serial |
| SocketSpec.NotV6ByChar | socket_spec_test.cpp:62-103 | a character other than a hex digit or a colon rules out an IPv6 address |
| SocketSpec.NotV6ByTrailingColon | socket_spec_test.cpp:92-100 | a single trailing colon rules out an IPv6 address |
| SocketSpec.HostSplit | socket_spec_test.cpp:62-103 | a spec that is not an IPv6 address splits at its first colon into host and port |
| SocketSpec.PortWithColon | socket_spec_test.cpp:105-114 | a port text with a colon after its first character is not a port |
| SocketSpec.EightGroupsSplit | socket_spec_test.cpp:105-114 | eight groups and a tail split at the first colon into the first group and a text with a colon inside |
| SocketSpec.EightGroupsBadPort | socket_spec_test.cpp:105-172 | eight groups followed by a colon and any colon-free tail are a bad port |
| SocketSpec.SerialRoundTripBracketed | socket_spec_test.cpp:116-130 | re-parsing a bracketed serial gives back its host, port and serial |
| SocketSpec.BracketedHost | socket_spec_test.cpp:116-130 | a parsed bracketed host is non-empty and holds no ']' |
| SocketSpec.V6NoBracket | socket_spec_test.cpp:132-158 | an IPv6 address is non-empty and holds no ']' |
| SocketSpec.SerialRoundTripHost | socket_spec_test.cpp:62-87 | re-parsing a "host:port" serial gives back its host, port and serial |
| SocketSpec.SerialRoundTrip | socket_spec_test.cpp:62-158 | for every parsed spec with a serial, "tcp:" plus the serial parses to the same result |
| SocketSpec.HostSocketSpecPort | socket_spec_test.cpp:175-214 | the result is -1 or non-negative; for a tcp spec it is the parsed port (-1 on error); other prefixes than tcp and vsock give -1 |
| SocketSpec.VsockField | socket_spec_test.cpp:182-206 | "vsock:" and one field gives that field as a non-negative integer, or -1 |
| SocketSpec.VsockPort | socket_spec_test.cpp:182-189 | "vsock:N" gives N |
| SocketSpec.VsockExtraField | socket_spec_test.cpp:205 | a further colon after the vsock port gives -1 |
| SocketSpec.IsSocketSpec | socket_spec_test.cpp:385-391 | the socket-spec namespaces; stated by SocketSpec.LocalIsSocketSpec, TcpSpecIsSocketSpec and the test rows SocketSpecTable.RowIsSocketSpec |
| SocketSpec.IsLocalSocketSpec | socket_spec_test.cpp:393-397 | local specs: the local-socket namespaces, and tcp specs with no host or the host localhost; stated by SocketSpec.TcpSpecIsSocketSpec, BarePortIsLocal and the test rows SocketSpecTable.RowIsLocalSocketSpec, RowLocalhostIsLocal and RowRemoteNotLocal |
| SocketSpec.TcpSpecIsSocketSpec | socket_spec_test.cpp:385-397 | every spec the tcp parser accepts is a socket spec, and one without a host is a local one |
| SocketSpec.BarePortIsLocal | socket_spec_test.cpp:393-397 | "tcp:N" is a local spec for every port N |
| SocketSpec.LocalIsSocketSpec | socket_spec_test.cpp:385-397 | every local spec is a socket spec |
| SocketSpecTable.RowNotTcp | socket_spec_test.cpp:34-43 | "sneakernet:5037" is rejected as not tcp, with the message "specification is not tcp: sneakernet:5037", which names "sneakernet" |
| SocketSpecTable.RowJustPort | socket_spec_test.cpp:45-52 | "tcp:5037" gives no host, port 5037 and no serial |
| SocketSpecTable.RowBadPorts | socket_spec_test.cpp:54-60 | "tcp:", "tcp:-1" and "tcp:65536" are rejected |
| SocketSpecTable.RowHostAndPort | socket_spec_test.cpp:62-69 | "tcp:localhost:1234" gives localhost, 1234, "localhost:1234" |
| SocketSpecTable.RowHostNoPort | socket_spec_test.cpp:71-78 | "tcp:localhost" gives localhost, 5555, "localhost:5555" |
| SocketSpecTable.RowIPv4NoPort | socket_spec_test.cpp:80-87 | "tcp:127.0.0.1" gives 127.0.0.1, 5555, "127.0.0.1:5555" |
| SocketSpecTable.RowHostBadPorts | socket_spec_test.cpp:89-103 | an empty, negative or too large port after localhost or 127.0.0.1 is a bad port |
| SocketSpecTable.RowBracketedLoopback | socket_spec_test.cpp:116-122 | "tcp:[::1]:1234" gives ::1, 1234, "[::1]:1234" |
| SocketSpecTable.RowBracketedShort | socket_spec_test.cpp:124-130 | the bracketed compressed address with port 2345 gives that host, 2345 and its bracketed serial |
| SocketSpecTable.UnbracketedRow | socket_spec_test.cpp:132-158 | an unbracketed IPv6 address gives port 5555 and "[address]:5555" |
| SocketSpecTable.RowUnbracketedLoopback | socket_spec_test.cpp:133-138 | "tcp:::1" gives ::1, 5555, "[::1]:5555" |
| SocketSpecTable.RowUnbracketedShort | socket_spec_test.cpp:140-145 | the unbracketed compressed address gives port 5555 and its bracketed serial |
| SocketSpecTable.RowUnbracketedFull1 | socket_spec_test.cpp:147-151 | the first eight-group address gives port 5555 and its bracketed serial |
| SocketSpecTable.RowUnbracketedFull2 | socket_spec_test.cpp:153-168 | the second eight-group address gives port 5555 and its bracketed serial |
| SocketSpecTable.RowBracketedBadPorts | socket_spec_test.cpp:163-165 | "tcp:[::1]" is rejected, and an empty or negative port after "[::1]:" is a bad port |
| SocketSpecTable.RowV6BadPorts | socket_spec_test.cpp:105-114 | an empty, negative or too large port after the first eight-group address is a bad port |
| SocketSpecTable.RowV6BadPortsAgain | socket_spec_test.cpp:169-172 | an empty or negative port after the second eight-group address is a bad port |
| SocketSpecTable.RowPortJustPort | socket_spec_test.cpp:177 | the port of "tcp:5555" is 5555 |
| SocketSpecTable.RowPortHostAndPort | socket_spec_test.cpp:178 | the port of "tcp:localhost:5555" is 5555 |
| SocketSpecTable.RowPortBracketed | socket_spec_test.cpp:179 | the port of "tcp:[::1]:5555" is 5555 |
| SocketSpecTable.RowPortVsock | socket_spec_test.cpp:182-189 | the port of "vsock:5555" is 5555 |
| SocketSpecTable.RowPortTcpNoPort | socket_spec_test.cpp:193 | the port of "tcp:localhost" is 5555 |
| SocketSpecTable.RowPortVsockNoPort | socket_spec_test.cpp:194 | "vsock:localhost" has no port |
| SocketSpecTable.RowPortTcpBadPorts | socket_spec_test.cpp:199-200 | "tcp:65536" and "tcp:-5" have no port |
| SocketSpecTable.RowPortVsockNegative | socket_spec_test.cpp:204 | "vsock:-5" has no port |
| SocketSpecTable.RowPortVsockExtraField | socket_spec_test.cpp:205 | "vsock:5:5555" has no port |
| SocketSpecTable.RowPortBadPrefix | socket_spec_test.cpp:208-214 | "tcpz:5555", "vsockz:5555", "abcd:5555" and "abcd" have no port |
| SocketSpecTable.RowIsSocketSpec | socket_spec_test.cpp:385-391 | tcp, acceptfd, local, localreserved and vsock specs are socket specs |
| SocketSpecTable.RowIsLocalSocketSpec | socket_spec_test.cpp:394 | "local:blah" is local |
| SocketSpecTable.RowLocalhostIsLocal | socket_spec_test.cpp:395 | "tcp:localhost" is local |
| SocketSpecTable.RowRemoteNotLocal | socket_spec_test.cpp:396 | "tcp:www.google.com" is not local |
| ListenAddrs.SkipSpace | daemon/listen_addrs.cpp:48 | what is left after the leading white space `%d` skips: a suffix of the text, all that was dropped is white space, and it does not start with white space |
| ListenAddrs.DigitPrefix | daemon/listen_addrs.cpp:48 | the longest run of decimal digits at the start of the text |
| ListenAddrs.DigitPrefixOf | daemon/listen_addrs.cpp:48 | digits followed by a non-digit or nothing: the digit run is exactly those digits |
| ListenAddrs.ScanInt | daemon/listen_addrs.cpp:48 | the `sscanf("%d")` reading: white space, an optional sign, then the longest digit run; its contract is stated by ListenAddrs.ScanIntDecimal and ScanIntNeedsDigit |
| ListenAddrs.ScanIntDecimal | daemon/listen_addrs.cpp:48 | the decimal text of a number, followed by anything that does not start with a digit, scans to that number |
| ListenAddrs.ScanIntNeedsDigit | daemon/listen_addrs.cpp:48 | a text that scans holds at least one digit |
| ListenAddrs.TcpPort | daemon/listen_addrs.cpp:35-54 | an accepted port is never 0 |
| ListenAddrs.GetTcpPort | daemon/listen_addrs.cpp:35-54 | the port is read from service.adb.tcp.port, then persist.adb.tcp.port, then ADBD_PORT off Android, and kept only inside 1..65535 |
| ListenAddrs.ServicePortFirst | daemon/listen_addrs.cpp:36-39 | a set service.adb.tcp.port decides alone, even when it does not scan |
| ListenAddrs.PersistPortSecond | daemon/listen_addrs.cpp:36-39 | persist.adb.tcp.port is used exactly as if it were the service port when that one is empty |
| ListenAddrs.AdbdPortOffAndroidOnly | daemon/listen_addrs.cpp:41-45 | on Android ADBD_PORT never changes the port |
| ListenAddrs.TcpPortOfDecimal | daemon/listen_addrs.cpp:48-50 | a property holding the decimal text of a port in 1..65535 selects that port |
| ListenAddrs.TcpPortRange | daemon/listen_addrs.cpp:48-53 | port 0 and numbers above 65535 select no port |
| ListenAddrs.TcpAddrs | daemon/listen_addrs.cpp:56-60 | two specs, "tcp:" then "vsock:", both carrying the port's decimal text |
| ListenAddrs.TcpAddrsText | daemon/listen_addrs.cpp:56-60 | for a port whose decimal text is known the pair is "tcp:" and "vsock:" followed by that text |
| ListenAddrs.DefaultAddrs | daemon/listen_addrs.cpp:105-108 | the default pair is "tcp:5555" and "vsock:5555" |
| ListenAddrs.ListenPiecesRoundTrip | daemon/listen_addrs.cpp:62-73 | an empty property gives no pieces and only it does; otherwise the pieces hold no comma and joined by commas give the property back |
| ListenAddrs.PushTcpAddrs | daemon/listen_addrs.cpp:56-60 | the port pair is appended after the specs already collected |
| ListenAddrs.PushListenAddrs | daemon/listen_addrs.cpp:62-73 | the pieces of the listen_addrs property are appended, in order, after the specs already collected |
| ListenAddrs.ListenSpecs | daemon/listen_addrs.cpp:75-111 | the bind specs get_listen_addrs selects; its contract is stated by ListenAddrs.FlagOnPortFirst, FlagOffPortIgnored, FallbackOnlyWhenEmpty, PortOnlySpecs and FlagOffIsPartOfFlagOn, and GetListenAddrs is proved equal to it |
| ListenAddrs.GetListenAddrs | daemon/listen_addrs.cpp:75-111 | the specs collected are the selection `ListenSpecs` describes for these properties, flag and fallback |
| ListenAddrs.FlagOnPortFirst | daemon/listen_addrs.cpp:78-94 | with the flag on and something configured, the port pair comes first and the listen addresses follow |
| ListenAddrs.FlagOffPortIgnored | daemon/listen_addrs.cpp:95-103 | with the flag off, a non-empty listen_addrs property is all that is used |
| ListenAddrs.FallbackOnlyWhenEmpty | daemon/listen_addrs.cpp:105-108 | nothing is selected without fallback exactly when no port and no listen address are configured; then fallback gives the default pair, and otherwise fallback changes nothing |
| ListenAddrs.PortOnlySpecs | daemon/listen_addrs.cpp:75-111 | without listen addresses a valid port gives just its pair, whatever the flag and fallback |
| ListenAddrs.TwoPieces | daemon/listen_addrs.cpp:69 | two comma-free texts joined by a comma split back into those two |
| ListenAddrs.FlagOffIsPartOfFlagOn | daemon/listen_addrs.cpp:75-111 | the flag-off selection is either the flag-on one or the listen addresses alone |
| ListenAddrs.TwoLocalPieces | daemon/listen_addrs_test.cpp:79 | the listen_addrs property of the tests splits into "tcp:localhost:5555" and "tcp:localhost:5556" |
| ListenAddrs.UsbOnly | daemon/listen_addrs_test.cpp:46-56 | with nothing configured and no fallback there is nothing to listen on, with the flag on or off |
| ListenAddrs.TcpFallback | daemon/listen_addrs_test.cpp:58-74 | with nothing configured and fallback there is the default pair, with the flag on or off |
| ListenAddrs.ListenAddrOnly | daemon/listen_addrs_test.cpp:76-100 | the two listen addresses alone are used, with the flag on or off |
| ListenAddrs.PortFromText | daemon/listen_addrs.cpp:48-50 | a port property with the decimal text of a valid port selects it |
| ListenAddrs.ServicePortOnly | daemon/listen_addrs_test.cpp:102-128 | service port 5545 wins over persist port 1234 and gives "tcp:5545", "vsock:5545" |
| ListenAddrs.PersistPortOnly | daemon/listen_addrs_test.cpp:130-154 | persist port 1234 alone gives "tcp:1234", "vsock:1234" |
| ListenAddrs.PortAndListenAddrLegacy | daemon/listen_addrs_test.cpp:156-169 | with the flag off, port 5544 is ignored when listen addresses are set |
| ListenAddrs.PortAndListenAddr | daemon/listen_addrs_test.cpp:171-185 | with the flag on, the 5544 pair comes first and the two listen addresses follow |
| ListenAddrs.InvalidServicePortNoFallback | daemon/listen_addrs.cpp:36-53 | a service port that does not scan selects no port, even with a valid persist port |

## Left out

- The registry's mutex and the threads around it are not modelled. Calls are taken to be sequential, because the lock only serialises them.
- Map iteration order is not modelled. `ForEachServiceNamed` and `ForAllServices` promise each matching record once, in some order, because `std::unordered_map` promises no order; the listings in transport_mdns.cpp take the records in a given order.
- The `AdbOspTaskRunner` thread is not modelled. The start-up closure that client/openscreen/mdns_service.cpp posts with `PostTask` is taken to run to completion at once, and receiver events are taken one at a time.
- `connect_device`, `pair_device` and the TLS handshake are not modelled. The model records the connect and pair requests the dispatch issues, because what follows is network I/O.
- `AddKnownHost` is not modelled beyond adding the host to the known set. Its bool result and the keystore's disk writes are I/O.
- `ServiceInfo::ParseTxt` (client/discovered_services.h:111-112), which turns the TXT records into the attribute map, is not modelled, because its body is not part of this model. The record parser is a function parameter standing for it; only `ParseTxtKeyValue` is defined.
- `CreateDnsSdService` and `GetNetworkInterfaces` come in as parameters (whether creation raises, the interface list), because they are library calls.
- Logging (`VLOG`, `D`, `LOG(INFO)`) is not modelled; it has no effect on state.
- Properties, environment variables and the `adbd_bind_tcp_and_listen_addrs` feature flag are parameters, because reading them is I/O.
- ListenAddrs.ScanInt: `sscanf("%d")` overflow is not modelled. Digits beyond the `int` range are read as an unbounded number, which the 1..65535 check then rejects, so the variation only matters when the overflow would wrap back into range.
- A default-constructed `ServiceInfo` has an indeterminate port in the source; the model takes it as 0.
- The Linux values of the constants the socket server compares against are fixed as `VMADDR_CID_LOCAL` = 1, `AF_VSOCK` = 40 and the errnos `EINVAL` = 22, `EPROTONOSUPPORT` = 93, `EAFNOSUPPORT` = 97.
- socket_spec.cpp and the `android::base` parsers it calls are not part of this model. The parser is read off the rows of socket_spec_test.cpp, and wherever those rows leave a case open the model makes a choice of its own. These choices are:
  - leading white space or '+' before a port is not accepted;
  - a hexadecimal port with a `0x` prefix is not read as a number, so "tcp:0x10" is taken as the host "0x10" with the default port 5555, where `android::base::ParseInt` would read it as the bare port 16;
  - port 0 after a host ("tcp:localhost:0") is accepted as port 0, where `android::base::ParseNetAddress` rejects it;
  - IPv6 addresses with an embedded IPv4 tail are not recognised;
  - no namespace other than the ones the tests name is recognised;
  - no error text is given other than the "not tcp" one.
- The `socket_spec_listen` and `socket_spec_connect` tests of socket_spec_test.cpp are not modelled, because they open real sockets.
- SocketSpec.HostSocketSpecPort: the vsock port is only bounded by the `int` range, because the test rows fix nothing tighter.
- SocketSpec.HostSocketSpecPort: a Linux build is modelled. On other builds the source answers every "vsock:" spec with -1 (socket_spec_test.cpp:184-187 and 202-203); the model always reads the vsock port.
- `socket_spec_listen` is modelled only by its outcome, a descriptor or a failure with its errno, because the call itself is I/O.
- The server's two infinite loops are modelled over finite sequences of attempts and of accepted connections. A run is an arbitrary prefix of the loop.
- `close_on_exec`, `disable_tcp_nagle` and the inside of `register_socket_transport` are not modelled; the model records only the serial that is registered.
- `init_transport_socket_server` and `init_socket_transport` are not modelled, because they only start threads.
- The protobuf parse and text rendering of `ProtoBinaryToText` are an opaque `render` function, and output to the error stream is not modelled. Its implementation and mdns_utils.cpp are not part of this model; their behaviour is read off commandline_test.cpp and mdns_utils_test.cpp.
- The hex4 header is read as four hexadecimal digits of either case; the tests only produce lower-case ones.
- The `out.clear()` calls in commandline_test.cpp are not modelled as such. The lemmas about the test cases state which payloads each chunk completes.
- `DnsSdInstanceEndpointToServiceInfo` in client/openscreen/mdns_service.cpp only returns its argument, so it has no member of its own.
- The `ostream` printers `v4_address_string` and `v6_address_string` in client/openscreen/mdns_service_info.cpp are not modelled; the address text is modelled once, in `Addresses`.
- OpenScreenService.MdnsService.IsOpenScreenStarted has no contract of its own. The start method's contract states what it returns afterwards.
- SocketSpecTable.RowBadPorts: states only that parsing fails, not which error, because the test row only checks the failure.
- OpenScreenService.LastV4: the function carries no ensures; its contract is stated by OpenScreenService.LastV4Spec.
- Hex4Frames.Frames: the function ensures only that no whole frame is left over; the decoding itself is stated by Hex4Frames.EncodeRoundTrip and the lemmas beside it.
- Hex4Frames.ProtoBinaryToText.OnStdoutReceived: two behaviours that commandline_test.cpp does not decide are taken as the loop reads: a zero-length frame (header "0000") is decoded as an empty payload and rendered, and a buffer whose first four characters are not hexadecimal stops decoding for good, since nothing is ever dropped from its front.
