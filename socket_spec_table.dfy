// The rows of socket_spec_test.cpp, each proved from the general lemmas of
// SocketSpec. Every literal enters through a `requires`, a spec is written
// as its prefix followed by those literal pieces ("tcp:" + h + ":" + p is
// "tcp:localhost:1234"), and each literal fact is its own small lemma.

module SocketSpecTable {
  import opened Wrappers
  import opened Text
  import opened SocketSpec

  // ----- literal facts -----

  lemma PortText(s: string, n: Port)
    requires s == Decimal(n)
    ensures PortOf(s) == Some(n) && ':' !in s
  {
    ParseIntDecimal(n);
    NoDigitColon(s);
  }

  lemma Text1234(s: string) requires s == "1234" ensures PortOf(s) == Some(1234) && ':' !in s && Decimal(1234) == s
  {
    PortText(s, 1234);
  }

  lemma Text2345(s: string) requires s == "2345" ensures PortOf(s) == Some(2345) && ':' !in s && Decimal(2345) == s
  {
    PortText(s, 2345);
  }

  lemma Text5555(s: string) requires s == "5555" ensures PortOf(s) == Some(5555) && ':' !in s && Decimal(5555) == s
  {
    PortText(s, 5555);
  }

  /** The port texts the table rejects: empty, negative, and one past the largest port. */
  lemma BadPortText(s: string)
    requires s == "" || s == "-1" || s == "65536"
    ensures PortOf(s).None? && ':' !in s && ']' !in s
    ensures s != "" ==> ParseInt(s).Some?
  {
    if s == "-1" {
      ParseIntNegative(1);
      assert s == "-" + Decimal(1);
    } else if s == "65536" {
      assert s == Decimal(65536);
      ParseIntDecimal(65536);
    }
  }

  lemma LoopbackV6(a: string) requires a == "::1" ensures ValidV6(a) && ']' !in a
  {
    HexGroupsOne("1");
    V6Compressed("", "1");
    assert "" + "::" + "1" == a;
  }

  /** Four groups joined by colons count as four. */
  lemma FourGroups(a: string, b: string, c: string, d: string)
    requires IsGroup(a) && IsGroup(b) && IsGroup(c) && IsGroup(d)
    ensures HexGroups(a + ":" + (b + ":" + (c + ":" + d))) == Some(4)
  {
    HexGroupsOne(d);
    HexGroupsCons(c, d);
    HexGroupsCons(b, c + ":" + d);
    HexGroupsCons(a, b + ":" + (c + ":" + d));
  }

  lemma Concat2601(a: string, b: string, c: string, d: string, x: string)
    requires a == "2601" && b == "644" && c == "8e80" && d == "620" && x == "2601:644:8e80:620"
    ensures IsGroup(a) && IsGroup(b) && IsGroup(c) && IsGroup(d)
    ensures a + ":" + (b + ":" + (c + ":" + d)) == x
  {
  }

  lemma Groups2601(x: string) requires x == "2601:644:8e80:620" ensures HexGroups(x) == Some(4)
  {
    var a, b, c, d := "2601", "644", "8e80", "620";
    Concat2601(a, b, c, d, x);
    FourGroups(a, b, c, d);
  }

  lemma GroupsFbbc(r: string) requires r == "fbbc" ensures HexGroups(r) == Some(1)
  {
    HexGroupsOne(r);
  }

  lemma ConcatShortV6(l: string, r: string, x: string)
    requires l == "2601:644:8e80:620" && r == "fbbc" && x == "2601:644:8e80:620::fbbc"
    ensures l + "::" + r == x
  {
  }

  lemma ShortV6(x: string) requires x == "2601:644:8e80:620::fbbc" ensures ValidV6(x)
  {
    var l, r := "2601:644:8e80:620", "fbbc";
    Groups2601(l);
    GroupsFbbc(r);
    V6Compressed(l, r);
    ConcatShortV6(l, r, x);
  }

  lemma ConcatTail1(a: string, b: string, c: string, d: string, x: string)
    requires a == "c63" && b == "50c9" && c == "8a91" && d == "8efa" && x == "c63:50c9:8a91:8efa"
    ensures IsGroup(a) && IsGroup(b) && IsGroup(c) && IsGroup(d)
    ensures a + ":" + (b + ":" + (c + ":" + d)) == x
  {
  }

  lemma GroupsTail1(x: string) requires x == "c63:50c9:8a91:8efa" ensures HexGroups(x) == Some(4)
  {
    var a, b, c, d := "c63", "50c9", "8a91", "8efa";
    ConcatTail1(a, b, c, d, x);
    FourGroups(a, b, c, d);
  }

  lemma ConcatTail2(a: string, b: string, c: string, d: string, x: string)
    requires a == "2d0e" && b == "b944" && c == "5288" && d == "97df" && x == "2d0e:b944:5288:97df"
    ensures IsGroup(a) && IsGroup(b) && IsGroup(c) && IsGroup(d)
    ensures a + ":" + (b + ":" + (c + ":" + d)) == x
  {
  }

  lemma GroupsTail2(x: string) requires x == "2d0e:b944:5288:97df" ensures HexGroups(x) == Some(4)
  {
    var a, b, c, d := "2d0e", "b944", "5288", "97df";
    ConcatTail2(a, b, c, d, x);
    FourGroups(a, b, c, d);
  }

  lemma ConcatFull(l: string, r: string, x: string)
    requires l == "2601:644:8e80:620"
    requires (r == "c63:50c9:8a91:8efa" && x == "2601:644:8e80:620:c63:50c9:8a91:8efa")
          || (r == "2d0e:b944:5288:97df" && x == "2601:644:8e80:620:2d0e:b944:5288:97df")
    ensures l + ":" + r == x
  {
  }

  /** The two eight-group addresses of the table. */
  lemma FullV6(x: string)
    requires x == "2601:644:8e80:620:c63:50c9:8a91:8efa" || x == "2601:644:8e80:620:2d0e:b944:5288:97df"
    ensures ValidV6(x) && HexGroups(x) == Some(8)
  {
    var l := "2601:644:8e80:620";
    Groups2601(l);
    var r := if x == "2601:644:8e80:620:c63:50c9:8a91:8efa" then "c63:50c9:8a91:8efa" else "2d0e:b944:5288:97df";
    if x == "2601:644:8e80:620:c63:50c9:8a91:8efa" {
      GroupsTail1(r);
    } else {
      GroupsTail2(r);
    }
    HexGroupsAppend(l, r);
    ConcatFull(l, r, x);
    V6Uncompressed(x);
  }

  /** A spec that differs from a prefix at some position does not start with it. */
  lemma NotPrefixed(spec: string, prefix: string, k: nat)
    requires k < |prefix| && k < |spec| && spec[k] != prefix[k]
    ensures !StartsWith(spec, prefix)
  {
    if |prefix| <= |spec| {
      assert spec[..|prefix|][k] == spec[k];
    }
  }

  /** The serial text of a host with the default port. */
  lemma DefaultSerial(h: string)
    ensures h + ":" + Decimal(DefaultPort) == h + ":5555"
    ensures "[" + h + "]:" + Decimal(DefaultPort) == "[" + h + "]:5555"
  {
    Text5555("5555");
  }

  /** A text that starts with a prefix still does with more appended. */
  lemma PrefixOfLonger(x: string, y: string, prefix: string)
    requires StartsWith(x, prefix)
    ensures StartsWith(x + y, prefix)
  {
    assert (x + y)[..|prefix|] == x[..|prefix|];
  }

  // ----- parse_tcp_socket_spec -----

  /** socket_spec_test.cpp:34-43: the error names the offending spec. */
  lemma RowNotTcp(spec: string)
    requires spec == "sneakernet:5037"
    ensures ParseTcpSocketSpec(spec) == Err(NotTcp(spec))
    ensures NotTcpMessage(spec) == "specification is not tcp: sneakernet:5037"
    ensures NotTcpMessage(spec)[26..36] == "sneakernet"
  {
    NotPrefixed(spec, "tcp:", 0);
    MessageSneakernet(spec, NotTcpMessage(spec));
  }

  lemma MessageSneakernet(spec: string, m: string)
    requires spec == "sneakernet:5037" && m == "specification is not tcp: " + spec
    ensures m == "specification is not tcp: sneakernet:5037" && m[26..36] == "sneakernet"
  {
  }

  /** socket_spec_test.cpp:45-52. */
  lemma RowJustPort(rest: string)
    requires rest == "5037"
    ensures ParseTcpSocketSpec("tcp:" + rest) == Ok(TcpSpec("", 5037, ""))
  {
    assert rest == Decimal(5037);
    BarePort(5037);
  }

  /** socket_spec_test.cpp:54-60. */
  lemma RowBadPorts(rest: string)
    requires rest == "" || rest == "-1" || rest == "65536"
    ensures ParseTcpSocketSpec("tcp:" + rest).Err?
  {
    BadPortText(rest);
    TcpRest(rest);
  }

  /** socket_spec_test.cpp:62-69. */
  lemma RowHostAndPort(h: string, p: string)
    requires h == "localhost" && p == "1234"
    ensures ParseTcpSocketSpec("tcp:" + h + ":" + p) == Ok(TcpSpec(h, 1234, h + ":" + p))
  {
    Text1234(p);
    HostAndPort(h, p);
  }

  /** socket_spec_test.cpp:71-78. */
  lemma RowHostNoPort(h: string)
    requires h == "localhost"
    ensures ParseTcpSocketSpec("tcp:" + h) == Ok(TcpSpec(h, 5555, h + ":5555"))
  {
    assert !IsDigit(h[1]);
    HostOnly(h);
    DefaultSerial(h);
  }

  /** socket_spec_test.cpp:80-87. */
  lemma RowIPv4NoPort(h: string)
    requires h == "127.0.0.1"
    ensures ParseTcpSocketSpec("tcp:" + h) == Ok(TcpSpec(h, 5555, h + ":5555"))
  {
    assert !IsDigit(h[3]);
    HostOnly(h);
    DefaultSerial(h);
  }

  /** socket_spec_test.cpp:89-103: a bad port after a host name or an IPv4 address. */
  lemma RowHostBadPorts(host: string, port: string)
    requires host == "localhost" || host == "127.0.0.1"
    requires port == "" || port == "-1" || port == "65536"
    ensures ParseTcpSocketSpec("tcp:" + host + ":" + port) == Err(BadPort)
  {
    BadPortText(port);
    HostAndPort(host, port);
  }

  /** socket_spec_test.cpp:116-122: a bracketed IPv6 host with a port. */
  lemma RowBracketedLoopback(h: string, p: string)
    requires h == "::1" && p == "1234"
    ensures ParseTcpSocketSpec("tcp:[" + h + "]:" + p) == Ok(TcpSpec(h, 1234, "[" + h + "]:" + p))
  {
    Text1234(p);
    Bracketed(h, p);
  }

  /** socket_spec_test.cpp:124-130. */
  lemma RowBracketedShort(h: string, p: string)
    requires h == "2601:644:8e80:620::fbbc" && p == "2345"
    ensures ParseTcpSocketSpec("tcp:[" + h + "]:" + p) == Ok(TcpSpec(h, 2345, "[" + h + "]:" + p))
  {
    ShortV6(h);
    V6NoBracket(h);
    Text2345(p);
    Bracketed(h, p);
  }

  /** An unbracketed IPv6 address: port 5555, bracketed serial. */
  lemma UnbracketedRow(a: string)
    requires ValidV6(a)
    ensures ParseTcpSocketSpec("tcp:" + a) == Ok(TcpSpec(a, 5555, "[" + a + "]:5555"))
  {
    UnbracketedV6(a);
    DefaultSerial(a);
  }

  /** socket_spec_test.cpp:133-138: unbracketed IPv6 takes the default port. */
  lemma RowUnbracketedLoopback(a: string)
    requires a == "::1"
    ensures ParseTcpSocketSpec("tcp:" + a) == Ok(TcpSpec(a, 5555, "[" + a + "]:5555"))
  {
    LoopbackV6(a);
    UnbracketedRow(a);
  }

  /** socket_spec_test.cpp:140-145. */
  lemma RowUnbracketedShort(a: string)
    requires a == "2601:644:8e80:620::fbbc"
    ensures ParseTcpSocketSpec("tcp:" + a) == Ok(TcpSpec(a, 5555, "[" + a + "]:5555"))
  {
    ShortV6(a);
    UnbracketedRow(a);
  }

  /** socket_spec_test.cpp:147-151. */
  lemma RowUnbracketedFull1(a: string)
    requires a == "2601:644:8e80:620:c63:50c9:8a91:8efa"
    ensures ParseTcpSocketSpec("tcp:" + a) == Ok(TcpSpec(a, 5555, "[" + a + "]:5555"))
  {
    FullV6(a);
    UnbracketedRow(a);
  }

  /** socket_spec_test.cpp:153-157 and 167-168. */
  lemma RowUnbracketedFull2(a: string)
    requires a == "2601:644:8e80:620:2d0e:b944:5288:97df"
    ensures ParseTcpSocketSpec("tcp:" + a) == Ok(TcpSpec(a, 5555, "[" + a + "]:5555"))
  {
    FullV6(a);
    UnbracketedRow(a);
  }

  /** socket_spec_test.cpp:163-165: a bracketed host needs a valid port. */
  lemma RowBracketedBadPorts(h: string, p: string)
    requires h == "::1" && (p == "" || p == "-1")
    ensures ParseTcpSocketSpec("tcp:[" + h + "]").Err?
    ensures ParseTcpSocketSpec("tcp:[" + h + "]:" + p) == Err(BadPort)
  {
    BracketedNoPort(h);
    BadPortText(p);
    Bracketed(h, p);
  }

  /** socket_spec_test.cpp:105-114: a bad port after an unbracketed eight-group address. */
  lemma RowV6BadPorts(full: string, tail: string)
    requires full == "2601:644:8e80:620:c63:50c9:8a91:8efa"
    requires tail == "" || tail == "-1" || tail == "65536"
    ensures ParseTcpSocketSpec("tcp:" + full + ":" + tail) == Err(BadPort)
  {
    FullV6(full);
    BadPortText(tail);
    EightGroupsBadPort(full, tail);
  }

  /** socket_spec_test.cpp:167-172: the address parses alone, but not with a bad port. */
  lemma RowV6BadPortsAgain(full: string, tail: string)
    requires full == "2601:644:8e80:620:2d0e:b944:5288:97df"
    requires tail == "" || tail == "-1"
    ensures ParseTcpSocketSpec("tcp:" + full + ":" + tail) == Err(BadPort)
  {
    FullV6(full);
    BadPortText(tail);
    EightGroupsBadPort(full, tail);
  }

  // ----- get_host_socket_spec_port -----

  /** socket_spec_test.cpp:175-180: the port of a bare port, a host and port, and a bracketed host and port. */
  lemma RowPortJustPort(rest: string)
    requires rest == "5555"
    ensures HostSocketSpecPort("tcp:" + rest) == 5555
  {
    Text5555(rest);
    TcpRest(rest);
    BarePort(5555);
  }

  lemma RowPortHostAndPort(h: string, p: string)
    requires h == "localhost" && p == "5555"
    ensures HostSocketSpecPort("tcp:" + h + ":" + p) == 5555
  {
    TcpRest(h);
    PrefixOfLonger("tcp:" + h, ":", "tcp:");
    PrefixOfLonger("tcp:" + h + ":", p, "tcp:");
    Text5555(p);
    HostAndPort(h, p);
  }

  lemma RowPortBracketed(h: string, p: string)
    requires h == "::1" && p == "5555"
    ensures HostSocketSpecPort("tcp:[" + h + "]:" + p) == 5555
  {
    assert StartsWith("tcp:[", "tcp:");
    PrefixOfLonger("tcp:[", h, "tcp:");
    PrefixOfLonger("tcp:[" + h, "]:", "tcp:");
    PrefixOfLonger("tcp:[" + h + "]:", p, "tcp:");
    Text5555(p);
    Bracketed(h, p);
  }

  /** socket_spec_test.cpp:182-189. */
  lemma RowPortVsock(spec: string)
    requires spec == "vsock:5555"
    ensures HostSocketSpecPort(spec) == 5555
  {
    Text5555("5555");
    assert spec == "vsock:" + Decimal(5555);
    VsockPort(5555);
  }

  /** socket_spec_test.cpp:191-195: a tcp host alone has the default port; a vsock host is no port. */
  lemma RowPortTcpNoPort(h: string)
    requires h == "localhost"
    ensures HostSocketSpecPort("tcp:" + h) == 5555
  {
    RowHostNoPort(h);
    TcpRest(h);
  }

  lemma RowPortVsockNoPort(spec: string)
    requires spec == "vsock:localhost"
    ensures HostSocketSpecPort(spec) == -1
  {
    var rest := "localhost";
    assert spec == "vsock:" + rest;
    assert ParseInt(rest).None?;
    VsockField(rest);
  }

  /** socket_spec_test.cpp:197-206. */
  lemma RowPortTcpBadPorts(rest: string)
    requires rest == "65536" || rest == "-5"
    ensures HostSocketSpecPort("tcp:" + rest) == -1
  {
    TcpRest(rest);
    if rest == "-5" {
      ParseIntNegative(5);
      assert rest == "-" + Decimal(5);
    } else {
      assert rest == Decimal(65536);
      ParseIntDecimal(65536);
    }
    BarePortOutOfRange(rest);
  }

  lemma RowPortVsockNegative(spec: string)
    requires spec == "vsock:-5"
    ensures HostSocketSpecPort(spec) == -1
  {
    var rest := "-5";
    assert spec == "vsock:" + rest;
    ParseIntNegative(5);
    assert rest == "-" + Decimal(5);
    VsockField(rest);
  }

  lemma RowPortVsockExtraField(spec: string)
    requires spec == "vsock:5:5555"
    ensures HostSocketSpecPort(spec) == -1
  {
    assert Decimal(5) == "5";
    assert spec == "vsock:" + Decimal(5) + ":" + "5555";
    VsockExtraField(5, "5555");
  }

  /** socket_spec_test.cpp:208-214: other prefixes give no port. */
  lemma RowPortBadPrefix(spec: string)
    requires spec == "tcpz:5555" || spec == "vsockz:5555" || spec == "abcd:5555" || spec == "abcd"
    ensures HostSocketSpecPort(spec) == -1
  {
    if spec == "tcpz:5555" {
      NotPrefixed(spec, "tcp:", 3);
      NotPrefixed(spec, "vsock:", 0);
    } else if spec == "vsockz:5555" {
      NotPrefixed(spec, "tcp:", 0);
      NotPrefixed(spec, "vsock:", 5);
    } else {
      NotPrefixed(spec, "tcp:", 0);
      NotPrefixed(spec, "vsock:", 0);
    }
  }

  // ----- is_socket_spec, is_local_socket_spec -----

  /** socket_spec_test.cpp:385-391. */
  lemma RowIsSocketSpec(spec: string)
    requires spec == "tcp:blah" || spec == "acceptfd:blah" || spec == "local:blah"
          || spec == "localreserved:blah" || spec == "vsock:123:456"
    ensures IsSocketSpec(spec)
  {
    if spec == "tcp:blah" {
      assert spec[..4] == "tcp:";
    } else if spec == "acceptfd:blah" {
      assert spec[..9] == "acceptfd:";
    } else if spec == "local:blah" {
      assert spec[..6] == "local:";
    } else if spec == "localreserved:blah" {
      assert spec[..14] == "localreserved:";
    } else {
      assert spec[..6] == "vsock:";
    }
  }

  /** socket_spec_test.cpp:393-397: a local namespace and tcp on localhost are local; a remote host is not. */
  lemma RowIsLocalSocketSpec(spec: string)
    requires spec == "local:blah"
    ensures IsLocalSocketSpec(spec)
  {
    assert spec[..6] == "local:";
  }

  lemma RowLocalhostIsLocal(h: string)
    requires h == "localhost"
    ensures IsLocalSocketSpec("tcp:" + h)
  {
    RowHostNoPort(h);
  }

  lemma RowRemoteNotLocal(h: string)
    requires h == "www.google.com"
    ensures !IsLocalSocketSpec("tcp:" + h)
  {
    NotPrefixed("tcp:" + h, "local:", 0);
    NotPrefixed("tcp:" + h, "localreserved:", 0);
    assert !IsDigit(h[0]) && h[0] != '-';
    HostOnly(h);
  }
}
