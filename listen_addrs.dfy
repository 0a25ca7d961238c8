// How adbd chooses the addresses it listens on (daemon/listen_addrs.cpp).
// Properties, the environment and the feature flag are parameters.

module ListenAddrs {
  import opened Wrappers
  import opened Text

  type Port = x: int | 0 <= x < 0x1_0000

  /** `DEFAULT_ADB_LOCAL_TRANSPORT_PORT`. */
  const DefaultPort: Port := 5555

  /** What `get_listen_addrs` reads: the two port properties, ADBD_PORT, the listen_addrs property, and the build. */
  datatype Props = Props(
    servicePort: string,
    persistPort: string,
    adbdPortEnv: Option<string>,
    listenAddrs: string,
    isAndroid: bool)

  // ---------------------------------------------------------------------
  // sscanf("%d")
  // ---------------------------------------------------------------------

  /** The characters `isspace` accepts in the C locale. */
  predicate IsSpace(c: char) { c == ' ' || 9 <= c as int <= 13 }

  function SkipSpace(s: string): (t: string)
    ensures |t| <= |s| && t == s[|s| - |t|..]
    ensures t != [] ==> !IsSpace(t[0])
    ensures forall i :: 0 <= i < |s| - |t| ==> IsSpace(s[i])
  {
    if s != [] && IsSpace(s[0]) then SkipSpace(s[1..]) else s
  }

  /** The longest prefix of decimal digits. */
  function DigitPrefix(s: string): (d: string)
    ensures d <= s && AllDigits(d)
    ensures |d| < |s| ==> !IsDigit(s[|d|])
  {
    if s != [] && IsDigit(s[0]) then [s[0]] + DigitPrefix(s[1..]) else []
  }

  /**
   * `sscanf(s, "%d", &n) == 1`: after optional white space and an optional
   * sign, at least one digit; whatever follows the digits is ignored.
   */
  function ScanInt(s: string): Option<int>
  {
    var t := SkipSpace(s);
    var neg := t != [] && t[0] == '-';
    var u := if t != [] && (t[0] == '-' || t[0] == '+') then t[1..] else t;
    var d := DigitPrefix(u);
    if d == [] then None
    else Some(if neg then -(DecimalValue(d) as int) else DecimalValue(d))
  }

  lemma {:induction false} DigitPrefixOf(d: string, rest: string)
    requires AllDigits(d)
    requires rest == [] || !IsDigit(rest[0])
    ensures DigitPrefix(d + rest) == d
    decreases |d|
  {
    if d != [] {
      assert (d + rest)[1..] == d[1..] + rest;
      DigitPrefixOf(d[1..], rest);
    } else {
      assert d + rest == rest;
    }
  }

  /** The decimal text of a number, followed by anything that is not a digit, scans back to it. */
  lemma ScanIntDecimal(n: nat, rest: string)
    requires rest == [] || !IsDigit(rest[0])
    ensures ScanInt(Decimal(n) + rest) == Some(n)
  {
    var s := Decimal(n) + rest;
    assert !IsSpace(s[0]) && s[0] != '-' && s[0] != '+';
    DigitPrefixOf(Decimal(n), rest);
    DecimalRoundTrip(n);
  }

  /** Text that does not start, after white space and a sign, with a digit does not scan. */
  lemma ScanIntNeedsDigit(s: string)
    requires ScanInt(s).Some?
    ensures exists i :: 0 <= i < |s| && IsDigit(s[i])
  {
    var t := SkipSpace(s);
    var u := if t != [] && (t[0] == '-' || t[0] == '+') then t[1..] else t;
    var d := DigitPrefix(u);
    assert u[0] == d[0];
    if u == t {
      assert s[|s| - |t|] == t[0];
    } else {
      assert s[|s| - |t| + 1] == u[0];
    }
  }

  // ---------------------------------------------------------------------
  // The TCP port
  // ---------------------------------------------------------------------

  /** The text `get_tcp_port` scans: the first non-empty property, then ADBD_PORT off Android. */
  function PortText(props: Props): string
  {
    if props.servicePort != "" then props.servicePort
    else if props.persistPort != "" then props.persistPort
    else if !props.isAndroid && props.adbdPortEnv.Some? then props.adbdPortEnv.value
    else ""
  }

  /** `get_tcp_port`: the scanned port, when it is in 1..65535. */
  function TcpPort(props: Props): (p: Option<Port>)
    ensures p.Some? ==> 0 < p.value
  {
    match ScanInt(PortText(props))
    case Some(n) => if 0 < n <= 0xffff then Some(n) else None
    case None => None
  }

  method GetTcpPort(props: Props) returns (port: Option<Port>)
    ensures port == TcpPort(props)
  {
    var propPort := props.servicePort;
    if propPort == "" {
      propPort := props.persistPort;
    }
    if !props.isAndroid && propPort == "" && props.adbdPortEnv.Some? {
      propPort := props.adbdPortEnv.value;
    }
    var scanned := ScanInt(propPort);
    if scanned.Some? && 0 < scanned.value <= 0xffff {
      port := Some(scanned.value);
    } else {
      port := None;
    }
  }

  /** service.adb.tcp.port wins whenever it is set, even when it does not scan. */
  lemma ServicePortFirst(props: Props)
    requires props.servicePort != ""
    ensures TcpPort(props) == TcpPort(props.(persistPort := "", adbdPortEnv := None))
  {
  }

  /** persist.adb.tcp.port is used only when service.adb.tcp.port is empty. */
  lemma PersistPortSecond(props: Props)
    requires props.servicePort == "" && props.persistPort != ""
    ensures TcpPort(props) == TcpPort(props.(servicePort := props.persistPort, adbdPortEnv := None))
  {
  }

  /** ADBD_PORT is never looked at on Android. */
  lemma AdbdPortOffAndroidOnly(props: Props, env: Option<string>)
    requires props.isAndroid
    ensures TcpPort(props) == TcpPort(props.(adbdPortEnv := env))
  {
  }

  /** A property holding a port in range selects that port. */
  lemma TcpPortOfDecimal(props: Props, n: nat)
    requires 0 < n <= 0xffff && PortText(props) == Decimal(n)
    ensures TcpPort(props) == Some(n)
  {
    ScanIntDecimal(n, "");
    assert Decimal(n) + "" == Decimal(n);
  }

  /** Port 0 and ports above 65535 are rejected. */
  lemma TcpPortRange(props: Props, n: nat)
    requires (n == 0 || n > 0xffff) && PortText(props) == Decimal(n)
    ensures TcpPort(props).None?
  {
    ScanIntDecimal(n, "");
    assert Decimal(n) + "" == Decimal(n);
  }

  // ---------------------------------------------------------------------
  // Bind specs
  // ---------------------------------------------------------------------

  /** `push_tcp_addrs`: "tcp:P" immediately followed by "vsock:P". */
  function TcpAddrs(port: Port): (specs: seq<string>)
    ensures |specs| == 2
    ensures |specs[0]| > 4 && specs[0][..4] == "tcp:" && |specs[1]| > 6 && specs[1][..6] == "vsock:"
    ensures specs[0][4..] == specs[1][6..] == Decimal(port)
  {
    ["tcp:" + Decimal(port), "vsock:" + Decimal(port)]
  }

  /** `push_listen_addrs`: the comma-separated pieces of the property, none when it is empty. */
  function ListenPieces(prop: string): (pieces: seq<string>)
  {
    if prop == "" then [] else Split(prop, ',')
  }

  /** The pieces are the property read back: joined by commas they give it, and none holds a comma. */
  lemma ListenPiecesRoundTrip(prop: string)
    ensures prop == "" <==> ListenPieces(prop) == []
    ensures prop != "" ==> Join(ListenPieces(prop), ',') == prop && NoSep(ListenPieces(prop), ',')
  {
    if prop != "" {
      JoinSplit(prop, ',');
      SplitNoSep(prop, ',');
    }
  }

  /** The pair for a port whose decimal text is known. */
  lemma TcpAddrsText(port: Port, text: string)
    requires Decimal(port) == text
    ensures TcpAddrs(port) == ["tcp:" + text, "vsock:" + text]
  {
  }

  lemma DefaultAddrs()
    ensures TcpAddrs(DefaultPort) == ["tcp:5555", "vsock:5555"]
  {
    assert Decimal(5555) == "5555";
    TcpAddrsText(DefaultPort, "5555");
    assert "tcp:" + "5555" == "tcp:5555";
    assert "vsock:" + "5555" == "vsock:5555";
  }

  function PortAddrs(port: Option<Port>): seq<string>
  {
    match port
    case None => []
    case Some(p) => TcpAddrs(p)
  }

  /** `get_listen_addrs`: the bind specs for these inputs, in order. */
  function ListenSpecs(props: Props, bindTcpAndListenAddrs: bool, enableFallback: bool): seq<string>
  {
    var specs :=
      if bindTcpAndListenAddrs then PortAddrs(TcpPort(props)) + ListenPieces(props.listenAddrs)
      else if ListenPieces(props.listenAddrs) != [] then ListenPieces(props.listenAddrs)
      else PortAddrs(TcpPort(props));
    if specs == [] && enableFallback then TcpAddrs(DefaultPort) else specs
  }

  method PushTcpAddrs(addrs: seq<string>, port: Port) returns (out: seq<string>)
    ensures out == addrs + TcpAddrs(port)
  {
    out := addrs + ["tcp:" + Decimal(port)];
    out := out + ["vsock:" + Decimal(port)];
  }

  method PushListenAddrs(addrs: seq<string>, prop: string) returns (out: seq<string>)
    ensures out == addrs + ListenPieces(prop)
  {
    out := addrs;
    if prop == "" {
      return;
    }
    var pieces := Split(prop, ',');
    var i := 0;
    while i < |pieces|
      invariant 0 <= i <= |pieces|
      invariant out == addrs + pieces[..i]
    {
      assert pieces[..i + 1] == pieces[..i] + [pieces[i]];
      out := out + [pieces[i]];
      i := i + 1;
    }
    assert pieces[..i] == pieces;
  }

  method GetListenAddrs(props: Props, bindTcpAndListenAddrs: bool, enableFallback: bool) returns (addrs: seq<string>)
    ensures addrs == ListenSpecs(props, bindTcpAndListenAddrs, enableFallback)
  {
    addrs := [];
    if bindTcpAndListenAddrs {
      var port := GetTcpPort(props);
      if port.Some? {
        addrs := PushTcpAddrs(addrs, port.value);
      }
      addrs := PushListenAddrs(addrs, props.listenAddrs);
    } else {
      addrs := PushListenAddrs(addrs, props.listenAddrs);
      if addrs == [] {
        var port := GetTcpPort(props);
        if port.Some? {
          addrs := PushTcpAddrs(addrs, port.value);
        }
      }
    }
    if addrs == [] && enableFallback {
      addrs := PushTcpAddrs(addrs, DefaultPort);
    }
  }

  // ---------------------------------------------------------------------
  // Properties of the selection
  // ---------------------------------------------------------------------

  /** With the flag on, the port pair comes first and the listen addresses follow. */
  lemma FlagOnPortFirst(props: Props, enableFallback: bool)
    requires TcpPort(props).Some? || props.listenAddrs != ""
    ensures ListenSpecs(props, true, enableFallback) == PortAddrs(TcpPort(props)) + ListenPieces(props.listenAddrs)
  {
    ListenPiecesRoundTrip(props.listenAddrs);
  }

  /** With the flag off, a non-empty listen_addrs property is all that is used. */
  lemma FlagOffPortIgnored(props: Props, enableFallback: bool)
    requires props.listenAddrs != ""
    ensures ListenSpecs(props, false, enableFallback) == Split(props.listenAddrs, ',')
  {
    ListenPiecesRoundTrip(props.listenAddrs);
  }

  /** The default port is used only when nothing else is, and only with fallback enabled. */
  lemma FallbackOnlyWhenEmpty(props: Props, flag: bool, enableFallback: bool)
    ensures (TcpPort(props).None? && props.listenAddrs == "") <==>
            ListenSpecs(props, flag, false) == []
    ensures ListenSpecs(props, flag, false) == [] ==>
            ListenSpecs(props, flag, true) == ["tcp:5555", "vsock:5555"]
    ensures ListenSpecs(props, flag, false) != [] ==>
            ListenSpecs(props, flag, enableFallback) == ListenSpecs(props, flag, false)
  {
    ListenPiecesRoundTrip(props.listenAddrs);
    DefaultAddrs();
  }

  /** Without listen_addrs, a valid port gives just its pair, whatever the flag. */
  lemma PortOnlySpecs(props: Props, flag: bool, enableFallback: bool)
    requires TcpPort(props).Some? && props.listenAddrs == ""
    ensures ListenSpecs(props, flag, enableFallback) == TcpAddrs(TcpPort(props).value)
  {
  }

  /** A property of two comma-free pieces lists those two. */
  lemma TwoPieces(a: string, b: string)
    requires ',' !in a && ',' !in b
    ensures ListenPieces(a + [','] + b) == [a, b]
  {
    SplitPrefix(a, b, ',');
    SplitOfNoSep(b, ',');
  }

  /** Whatever the inputs, the selection of the flag-off build is one of the flag-on one's two parts. */
  lemma FlagOffIsPartOfFlagOn(props: Props, enableFallback: bool)
    ensures var on := ListenSpecs(props, true, enableFallback);
            var off := ListenSpecs(props, false, enableFallback);
            off == on || off == ListenPieces(props.listenAddrs)
  {
    ListenPiecesRoundTrip(props.listenAddrs);
  }

  // ---------------------------------------------------------------------
  // The cases of daemon/listen_addrs_test.cpp
  // ---------------------------------------------------------------------

  const NoProps := Props("", "", None, "", true)
  const TwoLocal := "tcp:localhost:5555,tcp:localhost:5556"

  lemma TwoLocalPieces()
    ensures ListenPieces(TwoLocal) == ["tcp:localhost:5555", "tcp:localhost:5556"]
  {
    var a := "tcp:localhost:5555";
    var b := "tcp:localhost:5556";
    assert ',' !in a && ',' !in b;
    TwoPieces(a, b);
    assert a + [','] + b == TwoLocal;
  }

  lemma UsbOnly(flag: bool)
    ensures ListenSpecs(NoProps, flag, false) == []
  {
  }

  lemma TcpFallback(flag: bool)
    ensures ListenSpecs(NoProps, flag, true) == ["tcp:5555", "vsock:5555"]
  {
    FallbackOnlyWhenEmpty(NoProps, flag, true);
  }

  lemma ListenAddrOnly(flag: bool, enableFallback: bool)
    ensures ListenSpecs(NoProps.(listenAddrs := TwoLocal), flag, enableFallback)
         == ["tcp:localhost:5555", "tcp:localhost:5556"]
  {
    TwoLocalPieces();
  }

  lemma Addrs5545() ensures TcpAddrs(5545) == ["tcp:5545", "vsock:5545"]
  {
    assert Decimal(5545) == "5545";
    TcpAddrsText(5545, "5545");
    assert "tcp:" + "5545" == "tcp:5545" && "vsock:" + "5545" == "vsock:5545";
  }

  lemma Addrs5544() ensures TcpAddrs(5544) == ["tcp:5544", "vsock:5544"]
  {
    assert Decimal(5544) == "5544";
    TcpAddrsText(5544, "5544");
    assert "tcp:" + "5544" == "tcp:5544" && "vsock:" + "5544" == "vsock:5544";
  }

  lemma Addrs1234() ensures TcpAddrs(1234) == ["tcp:1234", "vsock:1234"]
  {
    assert Decimal(1234) == "1234";
    TcpAddrsText(1234, "1234");
    assert "tcp:" + "1234" == "tcp:1234" && "vsock:" + "1234" == "vsock:1234";
  }

  /** A port property holding the decimal text of a valid port selects it. */
  lemma PortFromText(props: Props, n: nat, text: string)
    requires 0 < n <= 0xffff && Decimal(n) == text && PortText(props) == text
    ensures TcpPort(props) == Some(n)
  {
    TcpPortOfDecimal(props, n);
  }

  lemma ServicePortOnly(flag: bool, enableFallback: bool)
    ensures ListenSpecs(NoProps.(servicePort := "5545", persistPort := "1234"), flag, enableFallback)
         == ["tcp:5545", "vsock:5545"]
  {
    var props := NoProps.(servicePort := "5545", persistPort := "1234");
    assert Decimal(5545) == "5545";
    PortFromText(props, 5545, "5545");
    PortOnlySpecs(props, flag, enableFallback);
    Addrs5545();
  }

  lemma PersistPortOnly(flag: bool, enableFallback: bool)
    ensures ListenSpecs(NoProps.(persistPort := "1234"), flag, enableFallback)
         == ["tcp:1234", "vsock:1234"]
  {
    var props := NoProps.(persistPort := "1234");
    assert Decimal(1234) == "1234";
    PortFromText(props, 1234, "1234");
    PortOnlySpecs(props, flag, enableFallback);
    Addrs1234();
  }

  lemma PortAndListenAddrLegacy(enableFallback: bool)
    ensures ListenSpecs(NoProps.(servicePort := "5544", listenAddrs := TwoLocal), false, enableFallback)
         == ["tcp:localhost:5555", "tcp:localhost:5556"]
  {
    TwoLocalPieces();
  }

  lemma PortAndListenAddr(enableFallback: bool)
    ensures ListenSpecs(NoProps.(servicePort := "5544", listenAddrs := TwoLocal), true, enableFallback)
         == ["tcp:5544", "vsock:5544", "tcp:localhost:5555", "tcp:localhost:5556"]
  {
    var props := NoProps.(servicePort := "5544", listenAddrs := TwoLocal);
    assert Decimal(5544) == "5544";
    PortFromText(props, 5544, "5544");
    FlagOnPortFirst(props, enableFallback);
    Addrs5544();
    TwoLocalPieces();
  }

  /** An invalid service port does not fall back to the persist port. */
  lemma InvalidServicePortNoFallback()
    ensures TcpPort(NoProps.(servicePort := "adb", persistPort := "1234")).None?
  {
    assert DigitPrefix("adb") == [];
  }
}
