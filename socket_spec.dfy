// The tcp socket-specification parser and its companions (socket_spec.h);
// the implementation is pinned by the rows of socket_spec_test.cpp.
//
// The reading modelled here, the one consistent with every row:
//  - the spec must start with "tcp:";
//  - a remainder that is a whole integer is a bare port, 0..65535;
//  - "[host]:port" is a bracketed IPv6 host, and its port is required;
//  - a remainder that is an IPv6 address in text form is a host with the
//    default port, rendered bracketed in the serial;
//  - otherwise "host" or "host:port", split at the first colon.

module SocketSpec {
  import opened Wrappers
  import opened Text

  /** A TCP port number. */
  type Port = x: int | 0 <= x < 0x1_0000

  /** DEFAULT_ADB_LOCAL_TRANSPORT_PORT. */
  const DefaultPort: Port := 5555

  const Int32Min := -0x8000_0000
  const Int32Max := 0x7fff_ffff

  predicate StartsWith(s: string, prefix: string)
  {
    |prefix| <= |s| && s[..|prefix|] == prefix
  }

  // ---------------------------------------------------------------------
  // Integers

  /**
   * `android::base::ParseInt` into an `int`: an optional minus sign and at
   * least one decimal digit, the whole string, within the 32-bit range.
   */
  function ParseInt(s: string): (r: Option<int>)
    ensures r.Some? ==> s != "" && Int32Min <= r.value <= Int32Max
    ensures r.Some? ==> forall i :: 0 < i < |s| ==> IsDigit(s[i])
    ensures r.Some? && r.value >= 0 && s[0] != '-' ==> AllDigits(s) && r.value == DecimalValue(s)
  {
    if s != "" && s[0] == '-' && |s| > 1 && AllDigits(s[1..]) && -(DecimalValue(s[1..]) as int) >= Int32Min then
      Some(-(DecimalValue(s[1..]) as int))
    else if s != "" && AllDigits(s) && DecimalValue(s) <= Int32Max then
      Some(DecimalValue(s))
    else
      None
  }

  /** The rendering of every 32-bit non-negative number parses back to it. */
  lemma ParseIntDecimal(n: nat)
    requires n <= Int32Max
    ensures ParseInt(Decimal(n)) == Some(n)
  {
    DecimalRoundTrip(n);
    var s := Decimal(n);
    assert IsDigit(s[0]);
  }

  /** A minus sign before the rendering of a number parses to its negation. */
  lemma ParseIntNegative(n: nat)
    requires 0 < n <= -Int32Min
    ensures ParseInt("-" + Decimal(n)) == Some(-(n as int))
  {
    DecimalRoundTrip(n);
    var s := "-" + Decimal(n);
    assert s[1..] == Decimal(n);
  }

  /** A port number in a string: an integer in 0..65535. */
  function PortOf(s: string): (r: Option<Port>)
    ensures r.Some? <==> ParseInt(s).Some? && 0 <= ParseInt(s).value <= 0xffff
    ensures r.Some? ==> r.value == ParseInt(s).value
  {
    match ParseInt(s)
    case Some(v) => if 0 <= v <= 0xffff then Some(v) else None
    case None => None
  }

  // ---------------------------------------------------------------------
  // IPv6 addresses in text form

  /** The number of leading hexadecimal digits. */
  function HexRun(s: string): (n: nat)
    ensures n <= |s|
    ensures forall i :: 0 <= i < n ==> IsHexDigit(s[i])
    ensures n < |s| ==> !IsHexDigit(s[n])
  {
    if s != "" && IsHexDigit(s[0]) then 1 + HexRun(s[1..]) else 0
  }

  /**
   * The number of colon-separated groups of one to four hexadecimal digits
   * that make up the string; zero for the empty string, none when any group
   * is empty or too long or a character is neither a digit nor a colon.
   */
  function HexGroups(s: string): (r: Option<nat>)
    ensures r.Some? && s != "" ==> r.value >= 1 && s[0] != ':' && s[|s| - 1] != ':'
    decreases |s|
  {
    if s == "" then Some(0)
    else
      var n := HexRun(s);
      if n == 0 || n > 4 then None
      else if n == |s| then Some(1)
      else if s[n] != ':' || n + 1 == |s| then None
      else
        match HexGroups(s[n + 1..])
        case None => None
        case Some(k) => Some(k + 1)
  }

  /** The position of the first "::", if any. */
  function FirstDoubleColon(s: string): (r: Option<nat>)
    ensures r.Some? ==> r.value + 1 < |s| && s[r.value] == ':' && s[r.value + 1] == ':'
    ensures r.None? ==> forall j :: 0 <= j < |s| - 1 ==> !(s[j] == ':' && s[j + 1] == ':')
  {
    if |s| < 2 then None
    else if s[0] == ':' && s[1] == ':' then Some(0)
    else
      match FirstDoubleColon(s[1..])
      case None => None
      case Some(i) => Some(i + 1)
  }

  /**
   * An IPv6 address as `inet_pton(AF_INET6, ...)` reads it: eight groups,
   * or at most seven around a single "::".
   */
  predicate ValidV6(s: string)
  {
    match FirstDoubleColon(s)
    case None => HexGroups(s) == Some(8)
    case Some(i) =>
      var l := HexGroups(s[..i]);
      var r := HexGroups(s[i + 2..]);
      l.Some? && r.Some? && l.value + r.value <= 7
  }

  /** Groups are made of hex digits and colons only. */
  lemma {:induction false} HexGroupsChars(s: string)
    requires HexGroups(s).Some?
    ensures forall i :: 0 <= i < |s| ==> IsHexDigit(s[i]) || s[i] == ':'
    decreases |s|
  {
    if s != "" {
      var n := HexRun(s);
      if n < |s| {
        HexGroupsChars(s[n + 1..]);
        forall i | n + 1 <= i < |s| ensures IsHexDigit(s[i]) || s[i] == ':' {
          assert s[i] == s[n + 1..][i - n - 1];
        }
      }
    }
  }

  /** One group of an IPv6 address: one to four hexadecimal digits. */
  predicate IsGroup(g: string)
  {
    1 <= |g| <= 4 && forall i :: 0 <= i < |g| ==> IsHexDigit(g[i])
  }

  lemma HexRunOfGroup(g: string, t: string)
    requires IsGroup(g) && (t == "" || t[0] == ':')
    ensures HexRun(g + t) == |g|
  {
    var s := g + t;
    if |g| > 1 {
      assert s[1..] == g[1..] + t;
      HexRunOfGroup(g[1..], t);
    }
  }

  /** A single group counts as one. */
  lemma HexGroupsOne(g: string)
    requires IsGroup(g)
    ensures HexGroups(g) == Some(1)
  {
    HexRunOfGroup(g, "");
    assert g + "" == g;
  }

  /** A group in front of a colon and further groups adds one to their count. */
  lemma HexGroupsCons(g: string, t: string)
    requires IsGroup(g) && t != ""
    ensures HexGroups(g + ":" + t).Some? == HexGroups(t).Some?
    ensures HexGroups(t).Some? ==> HexGroups(g + ":" + t).value == HexGroups(t).value + 1
  {
    var s := g + (":" + t);
    assert s == g + ":" + t;
    HexRunOfGroup(g, ":" + t);
    var n := HexRun(s);
    assert n == |g| && 0 < n <= 4 && n < |s| && n + 1 < |s|;
    assert s[n] == ':';
    assert s[n + 1..] == t;
  }

  /** Two runs of groups joined by a colon: the counts add up. */
  lemma {:induction false} HexGroupsAppend(l: string, r: string)
    requires l != "" && r != "" && HexGroups(l).Some?
    ensures HexGroups(l + ":" + r).Some? == HexGroups(r).Some?
    ensures HexGroups(r).Some? ==> HexGroups(l + ":" + r).value == HexGroups(l).value + HexGroups(r).value
    decreases |l|
  {
    var g, t := HexGroupsFirst(l);
    if t == "" {
      HexGroupsCons(l, r);
    } else {
      HexGroupsAppend(t, r);
      var tr := t + ":" + r;
      HexGroupsCons(g, tr);
      Assoc(g, t, r);
      assert l + ":" + r == g + ":" + tr;
    }
  }

  lemma Assoc(g: string, t: string, r: string)
    ensures (g + ":" + t) + ":" + r == g + ":" + (t + ":" + r)
  {
  }

  /** The first group of a run of groups, and what follows its colon. */
  lemma HexGroupsFirst(l: string) returns (g: string, t: string)
    requires l != "" && HexGroups(l).Some?
    ensures IsGroup(g)
    ensures t == "" ==> g == l && HexGroups(l) == Some(1)
    ensures t != "" ==> l == g + ":" + t && |t| < |l| && HexGroups(t).Some?
                        && HexGroups(l).value == HexGroups(t).value + 1
  {
    var n := HexRun(l);
    g := l[..n];
    if n == |l| {
      t := "";
      assert g == l;
    } else {
      t := l[n + 1..];
      assert l[n] == ':';
      assert l == g + ":" + t;
    }
  }

  /** Colon-separated groups contain no "::". */
  lemma HexGroupsNoDoubleColon(s: string)
    requires HexGroups(s).Some?
    ensures FirstDoubleColon(s) == None
  {
    HexGroupsNoAdjacentColons(s);
  }

  /** No two adjacent colons in colon-separated groups. */
  lemma {:induction false} HexGroupsNoAdjacentColons(s: string)
    requires HexGroups(s).Some?
    ensures forall j :: 0 <= j < |s| - 1 ==> !(s[j] == ':' && s[j + 1] == ':')
    decreases |s|
  {
    if s != "" {
      var n := HexRun(s);
      if n < |s| {
        var t := s[n + 1..];
        HexGroupsNoAdjacentColons(t);
        forall j | 0 <= j < |s| - 1 ensures !(s[j] == ':' && s[j + 1] == ':') {
          if j >= n + 1 {
            assert s[j] == t[j - n - 1] && s[j + 1] == t[j - n];
          } else if j == n {
            assert IsHexDigit(t[0]);
          }
        }
      }
    }
  }

  /** The first "::" of a compressed address is where its left part ends. */
  lemma FirstDoubleColonAfter(l: string, r: string)
    requires HexGroups(l).Some?
    ensures FirstDoubleColon(l + "::" + r) == Some(|l|)
  {
    var s := l + "::" + r;
    HexGroupsNoDoubleColon(l);
    assert s[|l|] == ':' && s[|l| + 1] == ':';
    forall j | 0 <= j < |l| ensures !(s[j] == ':' && s[j + 1] == ':') {
      assert s[j] == l[j];
      if j + 1 < |l| {
        assert s[j + 1] == l[j + 1];
      }
    }
    FirstDoubleColonLeast(s, |l|);
  }

  /** The first "::" is the earliest position holding one. */
  lemma {:induction false} FirstDoubleColonLeast(s: string, k: nat)
    requires k + 1 < |s| && s[k] == ':' && s[k + 1] == ':'
    requires forall j :: 0 <= j < k ==> !(s[j] == ':' && s[j + 1] == ':')
    ensures FirstDoubleColon(s) == Some(k)
    decreases k
  {
    if k > 0 {
      assert !(s[0] == ':' && s[1] == ':');
      FirstDoubleColonLeast(s[1..], k - 1);
    }
  }

  /** Eight groups without compression form an address. */
  lemma V6Uncompressed(s: string)
    requires HexGroups(s) == Some(8)
    ensures ValidV6(s)
  {
    HexGroupsNoDoubleColon(s);
  }

  /** At most seven groups around one "::" form an address. */
  lemma V6Compressed(l: string, r: string)
    requires HexGroups(l).Some? && HexGroups(r).Some? && HexGroups(l).value + HexGroups(r).value <= 7
    ensures ValidV6(l + "::" + r)
  {
    var s := l + "::" + r;
    FirstDoubleColonAfter(l, r);
    assert s[..|l|] == l && s[|l| + 2..] == r;
  }

  /** An IPv6 address is made of hex digits and colons only. */
  lemma ValidV6Chars(s: string)
    requires ValidV6(s)
    ensures forall i :: 0 <= i < |s| ==> IsHexDigit(s[i]) || s[i] == ':'
  {
    var d := FirstDoubleColon(s);
    if d.None? {
      HexGroupsChars(s);
    } else {
      var l, r := s[..d.value], s[d.value + 2..];
      HexGroupsChars(l);
      HexGroupsChars(r);
      AroundDoubleColon(s, d.value);
      CharsOfConcat(l, r);
    }
  }

  /** A text with "::" at position `d` is what precedes it, "::" and what follows. */
  lemma AroundDoubleColon(s: string, d: nat)
    requires d + 1 < |s| && s[d] == ':' && s[d + 1] == ':'
    ensures s == s[..d] + "::" + s[d + 2..]
  {
    assert s == s[..d] + s[d..d + 2] + s[d + 2..];
    assert s[d..d + 2] == "::";
  }

  lemma CharsOfConcat(l: string, r: string)
    requires forall i :: 0 <= i < |l| ==> IsHexDigit(l[i]) || l[i] == ':'
    requires forall i :: 0 <= i < |r| ==> IsHexDigit(r[i]) || r[i] == ':'
    ensures forall i :: 0 <= i < |l + "::" + r| ==> IsHexDigit((l + "::" + r)[i]) || (l + "::" + r)[i] == ':'
  {
    var s := l + "::" + r;
    forall i | 0 <= i < |s| ensures IsHexDigit(s[i]) || s[i] == ':' {
      if i < |l| {
        assert s[i] == l[i];
      } else if i >= |l| + 2 {
        assert s[i] == r[i - |l| - 2];
      }
    }
  }

  /** An IPv6 address ends in a colon only when it ends in "::". */
  lemma ValidV6TrailingColon(s: string)
    requires ValidV6(s) && s != "" && s[|s| - 1] == ':'
    ensures |s| >= 2 && s[|s| - 2] == ':'
  {
    var d := FirstDoubleColon(s);
    if d.Some? {
      var r := s[d.value + 2..];
      assert HexGroups(r).Some?;
    }
  }

  /** An IPv6 address holds at least two colons. */
  lemma ValidV6Colons(s: string)
    ensures ValidV6(s) ==> exists i, j :: 0 <= i < j < |s| && s[i] == ':' && s[j] == ':'
  {
    if ValidV6(s) {
      var d := FirstDoubleColon(s);
      if d.Some? {
        assert s[d.value] == ':' && s[d.value + 1] == ':';
      } else {
        var n := HexRun(s);
        var t := s[n + 1..];
        var m := HexRun(t);
        assert s[n] == ':';
        assert HexGroups(t).Some? && HexGroups(t).value == 7;
        assert t[m] == ':';
        assert s[n + 1 + m] == ':';
      }
    }
  }

  /**
   * Eight groups followed by a colon and a colon-free rest are never an
   * address: either the colon trails, or there are too many groups, or the
   * rest is not a group.
   */
  lemma EightGroupsThenColon(full: string, tail: string)
    requires HexGroups(full) == Some(8) && ':' !in tail
    ensures !ValidV6(full + ":" + tail)
  {
    var s := full + ":" + tail;
    HexGroupsNoDoubleColon(full);
    assert forall j :: 0 <= j < |s| - 1 ==> !(s[j] == ':' && s[j + 1] == ':') by {
      forall j | 0 <= j < |s| - 1 ensures !(s[j] == ':' && s[j + 1] == ':') {
        if j + 1 < |full| {
          assert s[j] == full[j] && s[j + 1] == full[j + 1];
        } else if j + 1 == |full| {
          assert s[j] == full[|full| - 1];
        } else if j == |full| {
          assert s[j + 1] == tail[0];
        } else {
          assert s[j] == tail[j - |full| - 1];
        }
      }
    }
    if tail != "" {
      HexGroupsAppend(full, tail);
    } else {
      assert s[|s| - 1] == ':';
    }
  }

  /** A string with exactly one colon is not an IPv6 address. */
  lemma OneColonNotV6(h: string, t: string)
    requires ':' !in h && ':' !in t
    ensures !ValidV6(h + ":" + t)
  {
    var s := h + ":" + t;
    assert forall k :: 0 <= k < |s| && s[k] == ':' ==> k == |h| by {
      forall k | 0 <= k < |s| && k != |h| ensures s[k] != ':' {
        if k < |h| {
          assert s[k] == h[k];
        } else {
          assert s[k] == t[k - |h| - 1];
        }
      }
    }
    ValidV6Colons(s);
  }
  /** A string without a colon is not an IPv6 address. */
  lemma NoColonNotV6(s: string)
    requires ':' !in s
    ensures !ValidV6(s)
  {
    ValidV6Colons(s);
  }
  // ---------------------------------------------------------------------
  // parse_tcp_socket_spec

  /** What a successful parse fills in: host name, port and serial. */
  datatype TcpSpec = TcpSpec(host: string, port: Port, serial: string)

  /** Why a spec does not parse. */
  datatype SpecError =
    | NotTcp(spec: string)   // no "tcp:" prefix
    | BadPort                // a port that is not an integer in 0..65535, or an empty one
    | NoHost                 // an empty host name
    | MissingPort            // "[host]" without ":port"

  /** The error text the parser reports for a spec without the "tcp:" prefix. */
  function NotTcpMessage(spec: string): (m: string)
    ensures |m| == 26 + |spec| && m[26..] == spec
  {
    "specification is not tcp: " + spec
  }

  /** The host part of a spec: everything after "tcp:" that is not a bare port. */
  function ParseNetAddress(address: string): (r: Result<TcpSpec, SpecError>)
    ensures r.Ok? ==> r.value.host != "" && r.value.serial != ""
  {
    if address == "" then Err(NoHost)
    else if address[0] == '[' then
      match IndexOf(address, ']')
      case None => Err(MissingPort)
      case Some(j) =>
        if j + 1 == |address| || address[j + 1] != ':' then Err(MissingPort)
        else if j == 1 then Err(NoHost)
        else
          match PortOf(address[j + 2..])
          case None => Err(BadPort)
          case Some(p) =>
            var host := address[1..j];
            Ok(TcpSpec(host, p, "[" + host + "]:" + Decimal(p)))
    else if ValidV6(address) then
      Ok(TcpSpec(address, DefaultPort, "[" + address + "]:" + Decimal(DefaultPort)))
    else
      match IndexOf(address, ':')
      case None => Ok(TcpSpec(address, DefaultPort, address + ":" + Decimal(DefaultPort)))
      case Some(i) =>
        if i == 0 then Err(NoHost)
        else
          match PortOf(address[i + 1..])
          case None => Err(BadPort)
          case Some(p) =>
            var host := address[..i];
            Ok(TcpSpec(host, p, host + ":" + Decimal(p)))
  }

  /** `parse_tcp_socket_spec`. */
  function ParseTcpSocketSpec(spec: string): (r: Result<TcpSpec, SpecError>)
    ensures !StartsWith(spec, "tcp:") <==> r == Err(NotTcp(spec))
    ensures r.Ok? ==> (r.value.host == "" <==> r.value.serial == "")
  {
    if !StartsWith(spec, "tcp:") then Err(NotTcp(spec))
    else
      var rest := spec[4..];
      match ParseInt(rest)
      case Some(v) =>
        if 0 <= v <= 0xffff then Ok(TcpSpec("", v, "")) else Err(BadPort)
      case None => ParseNetAddress(rest)
  }

  // ---------------------------------------------------------------------
  // The shapes a spec can take

  lemma TcpRest(rest: string)
    ensures StartsWith("tcp:" + rest, "tcp:") && ("tcp:" + rest)[4..] == rest
  {
  }

  /** "tcp:N" with N in range is a bare port with no host and no serial. */
  lemma BarePort(n: Port)
    ensures ParseTcpSocketSpec("tcp:" + Decimal(n)) == Ok(TcpSpec("", n, ""))
  {
    TcpRest(Decimal(n));
    ParseIntDecimal(n);
  }

  /** An integer outside 0..65535 is rejected, with or without a host. */
  lemma BarePortOutOfRange(rest: string)
    requires ParseInt(rest).Some? && !(0 <= ParseInt(rest).value <= 0xffff)
    ensures ParseTcpSocketSpec("tcp:" + rest) == Err(BadPort)
  {
    TcpRest(rest);
  }

  /** A host name without a colon takes the default port. */
  lemma HostOnly(host: string)
    requires host != "" && host[0] != '[' && ':' !in host && ParseInt(host).None?
    ensures ParseTcpSocketSpec("tcp:" + host) == Ok(TcpSpec(host, DefaultPort, host + ":" + Decimal(DefaultPort)))
  {
    TcpRest(host);
    NoColonNotV6(host);
  }

  /** "host:port" keeps the host and renders the serial from both. */
  lemma HostAndPort(host: string, port: string)
    requires host != "" && host[0] != '[' && ':' !in host && ':' !in port
    ensures ParseTcpSocketSpec("tcp:" + host + ":" + port)
         == match PortOf(port)
            case None => Err(BadPort)
            case Some(p) => Ok(TcpSpec(host, p, host + ":" + Decimal(p)))
  {
    OneColonNotV6(host, port);
    HostSplit("tcp:" + host + ":" + port, host, port);
  }

  /** The bracketed form, as the address parser sees it. */
  lemma NetBracketed(host: string, port: string)
    requires host != "" && ']' !in host
    ensures ParseNetAddress("[" + host + "]:" + port)
         == match PortOf(port)
            case None => Err(BadPort)
            case Some(p) => Ok(TcpSpec(host, p, "[" + host + "]:" + Decimal(p)))
  {
    var a := "[" + host + "]:" + port;
    var h := "[" + host;
    assert a == h + "]" + (":" + port);
    IndexOfAfterHead(h, ']', ":" + port);
    assert a[0] == '[' && a[|h| + 1] == ':';
    assert a[1..|h|] == host && a[|h| + 2..] == port;
  }

  /** "[host]:port" needs the port and keeps the brackets in the serial. */
  lemma Bracketed(host: string, port: string)
    requires host != "" && ']' !in host
    ensures ParseTcpSocketSpec("tcp:[" + host + "]:" + port)
         == match PortOf(port)
            case None => Err(BadPort)
            case Some(p) => Ok(TcpSpec(host, p, "[" + host + "]:" + Decimal(p)))
  {
    var address := "[" + host + "]:" + port;
    assert "tcp:[" + host + "]:" + port == "tcp:" + address;
    TcpRest(address);
    assert address[0] == '[';
    NetBracketed(host, port);
  }

  /** "[host]" alone lacks the port. */
  lemma BracketedNoPort(host: string)
    requires ']' !in host
    ensures ParseTcpSocketSpec("tcp:[" + host + "]").Err?
  {
    var address := "[" + host + "]";
    assert "tcp:[" + host + "]" == "tcp:" + address;
    TcpRest(address);
    assert address[0] == '[';
    IndexOfAfterHead("[" + host, ']', "");
    assert address == ("[" + host) + "]" + "";
  }

  /** An unbracketed IPv6 address takes the default port and is bracketed in the serial. */
  lemma UnbracketedV6(address: string)
    requires ValidV6(address)
    ensures ParseTcpSocketSpec("tcp:" + address)
         == Ok(TcpSpec(address, DefaultPort, "[" + address + "]:" + Decimal(DefaultPort)))
  {
    TcpRest(address);
    ValidV6Colons(address);
    ValidV6Chars(address);
    assert address != "";
    assert address[0] != '[';
    var i, j :| 0 <= i < j < |address| && address[i] == ':' && address[j] == ':';
    assert ParseInt(address).None?;
  }

  /** A character that is neither a hex digit nor a colon rules out an IPv6 address. */
  lemma NotV6ByChar(s: string, k: nat)
    requires k < |s| && !IsHexDigit(s[k]) && s[k] != ':'
    ensures !ValidV6(s)
  {
    if ValidV6(s) {
      ValidV6Chars(s);
    }
  }

  /** A single trailing colon rules out an IPv6 address. */
  lemma NotV6ByTrailingColon(s: string)
    requires |s| >= 2 && s[|s| - 1] == ':' && s[|s| - 2] != ':'
    ensures !ValidV6(s)
  {
    if ValidV6(s) {
      ValidV6TrailingColon(s);
    }
  }

  /**
   * An address that is not IPv6 is split at its first colon, whatever
   * follows: the port text has to be a port on its own.
   */
  lemma HostSplit(spec: string, host: string, port: string)
    requires spec == "tcp:" + host + ":" + port
    requires host != "" && host[0] != '[' && ':' !in host && !ValidV6(host + ":" + port)
    ensures ParseTcpSocketSpec(spec)
         == match PortOf(port)
            case None => Err(BadPort)
            case Some(p) => Ok(TcpSpec(host, p, host + ":" + Decimal(p)))
  {
    var address := host + ":" + port;
    assert spec == "tcp:" + address;
    TcpRest(address);
    assert address[|host|] == ':';
    assert ParseInt(address).None?;
    IndexOfAfterHead(host, ':', port);
    assert address[..|host|] == host && address[|host| + 1..] == port;
  }

  /** A port text with a colon after its first character is not a port. */
  lemma PortWithColon(p: string, k: nat)
    requires 0 < k < |p| && p[k] == ':'
    ensures PortOf(p).None?
  {
  }

  /** Eight groups followed by a colon: the first group, then a text with a colon inside. */
  lemma EightGroupsSplit(full: string, tail: string) returns (g: string, port: string)
    requires HexGroups(full) == Some(8)
    ensures g != "" && g[0] != '[' && ':' !in g && full + ":" + tail == g + ":" + port
    ensures "tcp:" + full + ":" + tail == "tcp:" + g + ":" + port
    ensures PortOf(port).None?
  {
    var t;
    g, t := HexGroupsFirst(full);
    assert t != "";
    HexGroupsCons(g, t);
    assert HexGroups(t) == Some(7);
    var g2, t2 := HexGroupsFirst(t);
    assert t2 != "";
    port := t + ":" + tail;
    assert t[|g2|] == ':';
    assert port[|g2|] == ':';
    PortWithColon(port, |g2|);
    Assoc(g, t, tail);
    assert IsHexDigit(g[0]);
    TcpOfSplit(full, tail, g, port);
  }

  lemma TcpOfSplit(a: string, b: string, c: string, d: string)
    requires a + ":" + b == c + ":" + d
    ensures "tcp:" + a + ":" + b == "tcp:" + c + ":" + d
  {
    assert "tcp:" + a + ":" + b == "tcp:" + (a + ":" + b);
    assert "tcp:" + c + ":" + d == "tcp:" + (c + ":" + d);
  }

  /**
   * Eight groups, a colon and a colon-free rest: not an address, so it is
   * split at its first colon and the port text after it is never a port.
   */
  lemma EightGroupsBadPort(full: string, tail: string)
    requires HexGroups(full) == Some(8) && ':' !in tail
    ensures ParseTcpSocketSpec("tcp:" + full + ":" + tail) == Err(BadPort)
  {
    EightGroupsThenColon(full, tail);
    var g, port := EightGroupsSplit(full, tail);
    HostSplit("tcp:" + full + ":" + tail, g, port);
  }

  /** Re-parsing a bracketed serial gives its host and port back. */
  lemma SerialRoundTripBracketed(host: string, p: Port)
    requires host != "" && ']' !in host
    ensures ParseTcpSocketSpec("tcp:" + ("[" + host + "]:" + Decimal(p))) == Ok(TcpSpec(host, p, "[" + host + "]:" + Decimal(p)))
  {
    ParseIntDecimal(p);
    Bracketed(host, Decimal(p));
    assert "tcp:" + ("[" + host + "]:" + Decimal(p)) == "tcp:[" + host + "]:" + Decimal(p);
  }

  /** The host between the brackets of a parsed address holds no closing bracket. */
  lemma BracketedHost(rest: string)
    requires rest != "" && rest[0] == '[' && ParseNetAddress(rest).Ok?
    ensures ParseNetAddress(rest).value.host != "" && ']' !in ParseNetAddress(rest).value.host
    ensures ParseNetAddress(rest).value.serial
         == "[" + ParseNetAddress(rest).value.host + "]:" + Decimal(ParseNetAddress(rest).value.port)
  {
    var r := ParseNetAddress(rest).value;
    var j := IndexOf(rest, ']').value;
    assert r.host == rest[1..j];
    assert forall k :: 0 <= k < |r.host| ==> r.host[k] == rest[..j][k + 1];
  }

  /** An IPv6 address is not empty and holds no closing bracket. */
  lemma V6NoBracket(s: string)
    requires ValidV6(s)
    ensures s != "" && ']' !in s
  {
    ValidV6Chars(s);
    ValidV6Colons(s);
  }

  /** Re-parsing the serial of a plain host gives the same result. */
  lemma SerialRoundTripHost(host: string, p: Port)
    requires host != "" && host[0] != '[' && ':' !in host
    ensures ParseTcpSocketSpec("tcp:" + (host + ":" + Decimal(p))) == Ok(TcpSpec(host, p, host + ":" + Decimal(p)))
  {
    ParseIntDecimal(p);
    NoDigitColon(Decimal(p));
    HostAndPort(host, Decimal(p));
    assert "tcp:" + (host + ":" + Decimal(p)) == "tcp:" + host + ":" + Decimal(p);
  }

  /**
   * The serial is canonical: parsing "tcp:" followed by the serial of a
   * successful parse gives the same host, port and serial back.
   */
  lemma SerialRoundTrip(spec: string)
    requires ParseTcpSocketSpec(spec).Ok? && ParseTcpSocketSpec(spec).value.serial != ""
    ensures ParseTcpSocketSpec("tcp:" + ParseTcpSocketSpec(spec).value.serial) == ParseTcpSocketSpec(spec)
  {
    var rest := spec[4..];
    assert ParseInt(rest).None?;
    var r := ParseNetAddress(rest);
    assert ParseTcpSocketSpec(spec) == r;
    if rest[0] == '[' {
      BracketedHost(rest);
      SerialRoundTripBracketed(r.value.host, r.value.port);
    } else if ValidV6(rest) {
      V6NoBracket(rest);
      SerialRoundTripBracketed(rest, DefaultPort);
    } else {
      var i := IndexOf(rest, ':');
      if i.None? {
        SerialRoundTripHost(rest, DefaultPort);
      } else {
        var host := rest[..i.value];
        assert ':' !in host;
        SerialRoundTripHost(host, r.value.port);
      }
    }
  }

  lemma NoDigitColon(s: string)
    requires AllDigits(s)
    ensures ':' !in s
  {
  }

  // ---------------------------------------------------------------------
  // get_host_socket_spec_port, is_socket_spec, is_local_socket_spec

  /**
   * `get_host_socket_spec_port`: the port of a tcp spec; for "vsock:" the
   * single field after the prefix, a non-negative integer; -1 for anything
   * else.
   */
  function HostSocketSpecPort(spec: string): (port: int)
    ensures port == -1 || 0 <= port
    ensures StartsWith(spec, "tcp:") ==>
      port == (if ParseTcpSocketSpec(spec).Ok? then ParseTcpSocketSpec(spec).value.port else -1)
    ensures !StartsWith(spec, "tcp:") && !StartsWith(spec, "vsock:") ==> port == -1
  {
    if StartsWith(spec, "tcp:") then
      match ParseTcpSocketSpec(spec)
      case Ok(r) => r.port
      case Err(_) => -1
    else if StartsWith(spec, "vsock:") then
      var fragments := Split(spec, ':');
      if |fragments| != 2 then -1
      else
        match ParseInt(fragments[1])
        case Some(v) => if v < 0 then -1 else v
        case None => -1
    else -1
  }

  lemma VsockPrefix(rest: string)
    ensures !StartsWith("vsock:" + rest, "tcp:") && StartsWith("vsock:" + rest, "vsock:")
    ensures "vsock:" + rest == "vsock" + ":" + rest
  {
    assert ("vsock:" + rest)[0] == 'v';
    assert ("vsock:" + rest)[..6] == "vsock:";
  }

  /** "vsock:" and a single field: the field as a non-negative integer, or -1. */
  lemma VsockField(rest: string)
    requires ':' !in rest
    ensures HostSocketSpecPort("vsock:" + rest)
         == match ParseInt(rest)
            case Some(v) => if v < 0 then -1 else v
            case None => -1
  {
    VsockPrefix(rest);
    SplitPrefix("vsock", rest, ':');
    SplitOfNoSep(rest, ':');
  }

  /** "vsock:N" gives N. */
  lemma VsockPort(n: nat)
    requires n <= Int32Max
    ensures HostSocketSpecPort("vsock:" + Decimal(n)) == n
  {
    NoDigitColon(Decimal(n));
    VsockField(Decimal(n));
    ParseIntDecimal(n);
  }

  /** A further colon after the vsock port makes the spec invalid. */
  lemma VsockExtraField(n: nat, tail: string)
    ensures HostSocketSpecPort("vsock:" + Decimal(n) + ":" + tail) == -1
  {
    var d := Decimal(n);
    NoDigitColon(d);
    var rest := d + ":" + tail;
    assert "vsock:" + d + ":" + tail == "vsock:" + rest;
    VsockPrefix(rest);
    SplitPrefix("vsock", rest, ':');
    SplitPrefix(d, tail, ':');
  }

  /** The local socket namespaces: "local:" and "localreserved:". */
  predicate IsLocalNamespace(spec: string)
  {
    StartsWith(spec, "local:") || StartsWith(spec, "localreserved:")
  }

  /** `is_socket_spec`: one of the known prefixes. */
  predicate IsSocketSpec(spec: string)
  {
    IsLocalNamespace(spec) || StartsWith(spec, "tcp:") || StartsWith(spec, "acceptfd:")
      || StartsWith(spec, "vsock:")
  }

  /** `is_local_socket_spec`: a local namespace, or a tcp spec on this host. */
  predicate IsLocalSocketSpec(spec: string)
  {
    IsLocalNamespace(spec) ||
    (ParseTcpSocketSpec(spec).Ok? &&
     (ParseTcpSocketSpec(spec).value.host == "" || ParseTcpSocketSpec(spec).value.host == "localhost"))
  }

  /** Every spec the tcp parser accepts is a socket spec, and a bare port is a local one. */
  lemma TcpSpecIsSocketSpec(spec: string)
    requires ParseTcpSocketSpec(spec).Ok?
    ensures IsSocketSpec(spec)
    ensures ParseTcpSocketSpec(spec).value.host == "" ==> IsLocalSocketSpec(spec)
  {
  }

  /** "tcp:N" names this host, whatever the port. */
  lemma BarePortIsLocal(n: Port)
    ensures IsLocalSocketSpec("tcp:" + Decimal(n))
  {
    BarePort(n);
  }

  /** Every local spec is a socket spec. */
  lemma LocalIsSocketSpec(spec: string)
    requires IsLocalSocketSpec(spec)
    ensures IsSocketSpec(spec)
  {
  }
}
