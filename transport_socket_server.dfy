// The daemon's socket server (daemon/transport_socket_server.cpp): binding
// the listening socket with retries, the vsock locality check on accept, and
// the registration of every accepted connection under a "host-<fd>" serial.

module TransportSocketServer {
  import opened Wrappers
  import opened Text

  /** `svm_cid` is a 32-bit unsigned context identifier. */
  type Cid = x: int | 0 <= x < 0x1_0000_0000

  /** `svm_family` is a 16-bit `sa_family_t`. */
  type Family = x: int | 0 <= x < 0x1_0000

  /** The Linux values of the constants the server compares against. */
  const VmaddrCidLocal: Cid := 1
  const AfVsock: Family := 40
  const Einval := 22
  const Eprotonosupport := 93
  const Eafnosupport := 97

  /** The two fields of a `sockaddr_vm` the checks read. */
  datatype VsockAddress = VsockAddress(family: Family, cid: Cid)

  /**
   * `should_check_vsock_cid`: on a non-recovery Android build it is the
   * value of the `adbd_restrict_vsock_local_cid` flag, given here as
   * `Some(flag)`; elsewhere (`None`) it is always true.
   */
  function ShouldCheckVsockCid(androidFlag: Option<bool>): (r: bool)
    ensures !r <==> androidFlag == Some(false)
  {
    match androidFlag
    case None => true
    case Some(flag) => flag
  }

  /**
   * `is_local_vsock_connection`: either end has the local CID, or both
   * ends have the same CID.
   */
  predicate IsLocalVsockConnection(server: VsockAddress, client: VsockAddress)
  {
    server.cid == VmaddrCidLocal || client.cid == VmaddrCidLocal || server.cid == client.cid
  }

  /** Locality does not depend on which end is the server. */
  lemma LocalitySymmetric(server: VsockAddress, client: VsockAddress)
    ensures IsLocalVsockConnection(server, client) == IsLocalVsockConnection(client, server)
  {
  }

  /** A connection is remote exactly when the CIDs differ and neither is the local one. */
  lemma RemoteConnection(server: VsockAddress, client: VsockAddress)
    ensures !IsLocalVsockConnection(server, client)
        <==> server.cid != client.cid && server.cid != 1 && client.cid != 1
  {
  }

  /**
   * What `adb_vsock_accept` sees: the result of `accept`, whether
   * `getsockname` succeeded, and the two addresses they filled in.
   */
  datatype AcceptEvent = AcceptEvent(fd: int, nameOk: bool, server: VsockAddress, client: VsockAddress)

  /**
   * `adb_vsock_accept`: no connection when accepting or `getsockname`
   * fails, when either address is not a vsock address, or when the
   * connection is local; the accepted descriptor otherwise.
   */
  function VsockAccept(e: AcceptEvent): (r: Option<nat>)
    ensures r.Some? <==>
      e.fd >= 0 && e.nameOk && e.server.family == AfVsock && e.client.family == AfVsock
      && !IsLocalVsockConnection(e.server, e.client)
    ensures r.Some? ==> r.value == e.fd
  {
    if e.fd < 0 then None
    else if !e.nameOk then None
    else if e.server.family != AfVsock || e.client.family != AfVsock then None
    else if IsLocalVsockConnection(e.server, e.client) then None
    else Some(e.fd)
  }

  /** A connection vsock accept lets through comes from another machine. */
  lemma VsockAcceptIsRemote(e: AcceptEvent)
    requires VsockAccept(e).Some?
    ensures e.server.cid != e.client.cid && e.server.cid != VmaddrCidLocal && e.client.cid != VmaddrCidLocal
  {
    RemoteConnection(e.server, e.client);
  }

  /** Whether the accept loop goes through the vsock checks for this address. */
  predicate ChecksVsockCid(addr: string, androidFlag: Option<bool>)
  {
    |addr| >= 6 && addr[..6] == "vsock:" && ShouldCheckVsockCid(androidFlag)
  }

  /**
   * One round of the accept loop: the descriptor the round yields, if any.
   * An address without the "vsock:" prefix takes the plain accept result.
   */
  function AcceptOnce(addr: string, androidFlag: Option<bool>, e: AcceptEvent): (r: Option<nat>)
    ensures ChecksVsockCid(addr, androidFlag) ==> r == VsockAccept(e)
    ensures !ChecksVsockCid(addr, androidFlag) ==> (r.Some? <==> e.fd >= 0) && (r.Some? ==> r.value == e.fd)
  {
    if ChecksVsockCid(addr, androidFlag) then VsockAccept(e)
    else if e.fd >= 0 then Some(e.fd)
    else None
  }

  /** Off Android a vsock address is always checked. */
  lemma VsockAlwaysCheckedOffAndroid(addr: string)
    requires |addr| >= 6 && addr[..6] == "vsock:"
    ensures ChecksVsockCid(addr, None)
  {
  }

  /** The serial a connection on descriptor `fd` is registered under. */
  function HostSerial(fd: nat): (s: string)
    ensures |s| > 5 && s[..5] == "host-" && AllDigits(s[5..])
  {
    "host-" + Decimal(fd)
  }

  /** The serial gives back its descriptor, so two descriptors never share one. */
  lemma HostSerialRoundTrip(fd: nat)
    ensures DecimalValue(HostSerial(fd)[5..]) == fd
  {
    assert HostSerial(fd)[5..] == Decimal(fd);
    DecimalRoundTrip(fd);
  }

  lemma HostSerialInjective(m: nat, n: nat)
    requires HostSerial(m) == HostSerial(n)
    ensures m == n
  {
    assert HostSerial(m)[5..] == Decimal(m);
    assert HostSerial(n)[5..] == Decimal(n);
    DecimalInjective(m, n);
  }

  /** The serials registered for a run of accept rounds, in order. */
  function Registered(addr: string, androidFlag: Option<bool>, events: seq<AcceptEvent>): (serials: seq<string>)
    ensures |serials| <= |events|
    ensures forall i :: 0 <= i < |serials| ==> |serials[i]| > 5 && serials[i][..5] == "host-"
  {
    if events == [] then []
    else
      var r := Registered(addr, androidFlag, events[..|events| - 1]);
      match AcceptOnce(addr, androidFlag, events[|events| - 1])
      case Some(fd) => r + [HostSerial(fd)]
      case None => r
  }

  /** Rounds with no descriptor register nothing; every accepted round registers one serial. */
  lemma {:induction false} RegisteredAllAccepted(addr: string, androidFlag: Option<bool>, events: seq<AcceptEvent>)
    requires forall i :: 0 <= i < |events| ==> AcceptOnce(addr, androidFlag, events[i]).Some?
    ensures |Registered(addr, androidFlag, events)| == |events|
    ensures forall i :: 0 <= i < |events| ==>
      Registered(addr, androidFlag, events)[i] == HostSerial(AcceptOnce(addr, androidFlag, events[i]).value)
  {
    if events != [] {
      var prefix := events[..|events| - 1];
      assert forall i :: 0 <= i < |prefix| ==> prefix[i] == events[i];
      RegisteredAllAccepted(addr, androidFlag, prefix);
    }
  }

  /** With the vsock checks on, a local connection registers nothing. */
  lemma LocalConnectionNotRegistered(addr: string, androidFlag: Option<bool>, events: seq<AcceptEvent>, e: AcceptEvent)
    requires ChecksVsockCid(addr, androidFlag) && IsLocalVsockConnection(e.server, e.client)
    ensures Registered(addr, androidFlag, events + [e]) == Registered(addr, androidFlag, events)
  {
    assert (events + [e])[..|events|] == events;
  }

  /**
   * The accept loop of `server_socket_thread`, run over a finite sequence
   * of accept rounds: every round that yields a descriptor registers it.
   */
  method ServeConnections(addr: string, androidFlag: Option<bool>, events: seq<AcceptEvent>)
    returns (serials: seq<string>)
    ensures serials == Registered(addr, androidFlag, events)
  {
    serials := [];
    var i := 0;
    while i < |events|
      invariant 0 <= i <= |events|
      invariant serials == Registered(addr, androidFlag, events[..i])
    {
      assert events[..i + 1][..i] == events[..i];
      var fd := AcceptOnce(addr, androidFlag, events[i]);
      if fd.Some? {
        serials := serials + [HostSerial(fd.value)];
      }
      i := i + 1;
    }
    assert events[..i] == events;
  }

  // ---------------------------------------------------------------------
  // Binding with retries

  /** The result of one `socket_spec_listen` call: a descriptor, or a failure with its errno. */
  datatype ListenAttempt = Listening(fd: nat) | ListenFailed(errno: int)

  /** The errors after which the thread gives up instead of retrying. */
  predicate Unrecoverable(errno: int)
  {
    errno == Eafnosupport || errno == Einval || errno == Eprotonosupport
  }

  /**
   * How the bind loop ends after the given attempts: bound to a descriptor,
   * given up on an unrecoverable error, or still retrying when the attempts
   * run out.
   */
  datatype BindOutcome = Bound(fd: nat, attempt: nat) | GaveUp(errno: int, attempt: nat) | StillRetrying

  /** The bind loop, attempt by attempt. */
  function BindResult(attempts: seq<ListenAttempt>): (r: BindOutcome)
    ensures r.Bound? ==> r.attempt < |attempts| && attempts[r.attempt] == Listening(r.fd)
    ensures r.GaveUp? ==> r.attempt < |attempts| && attempts[r.attempt] == ListenFailed(r.errno)
                          && Unrecoverable(r.errno)
    ensures r.Bound? || r.GaveUp? ==>
      forall j :: 0 <= j < r.attempt ==> attempts[j].ListenFailed? && !Unrecoverable(attempts[j].errno)
    ensures r.StillRetrying? ==>
      forall j :: 0 <= j < |attempts| ==> attempts[j].ListenFailed? && !Unrecoverable(attempts[j].errno)
  {
    if attempts == [] then StillRetrying
    else
      match attempts[0]
      case Listening(fd) => Bound(fd, 0)
      case ListenFailed(errno) =>
        if Unrecoverable(errno) then GaveUp(errno, 0)
        else
          var r := BindResult(attempts[1..]);
          match r
          case Bound(fd, k) => Bound(fd, k + 1)
          case GaveUp(e, k) => GaveUp(e, k + 1)
          case StillRetrying => StillRetrying
  }

  /** Attempts after the loop has ended are never made. */
  lemma {:induction false} BindResultIgnoresLater(attempts: seq<ListenAttempt>, more: seq<ListenAttempt>)
    requires !BindResult(attempts).StillRetrying?
    ensures BindResult(attempts + more) == BindResult(attempts)
  {
    if attempts[0].ListenFailed? && !Unrecoverable(attempts[0].errno) {
      assert (attempts + more)[1..] == attempts[1..] + more;
      BindResultIgnoresLater(attempts[1..], more);
    }
  }

  /** The first loop of `server_socket_thread`. */
  method BindServerSocket(attempts: seq<ListenAttempt>) returns (r: BindOutcome)
    ensures r == BindResult(attempts)
  {
    var i := 0;
    while i < |attempts|
      invariant 0 <= i <= |attempts|
      invariant BindResult(attempts[..i]).StillRetrying?
    {
      var attempt := attempts[i];
      match attempt
      case Listening(fd) =>
        BindStopsAt(attempts, i);
        return Bound(fd, i);
      case ListenFailed(errno) =>
        if Unrecoverable(errno) {
          BindStopsAt(attempts, i);
          return GaveUp(errno, i);
        }
      BindStep(attempts, i);
      i := i + 1;
    }
    assert attempts[..i] == attempts;
    r := StillRetrying;
  }

  /** One more retried attempt keeps the loop going. */
  lemma {:induction false} BindStep(attempts: seq<ListenAttempt>, i: nat)
    requires i < |attempts| && BindResult(attempts[..i]).StillRetrying?
    requires attempts[i].ListenFailed? && !Unrecoverable(attempts[i].errno)
    ensures BindResult(attempts[..i + 1]).StillRetrying?
  {
    BindPrefix(attempts, i);
  }

  /** After retried attempts only, attempt `i` decides the outcome. */
  lemma {:induction false} BindStopsAt(attempts: seq<ListenAttempt>, i: nat)
    requires i < |attempts| && BindResult(attempts[..i]).StillRetrying?
    requires attempts[i].Listening? || Unrecoverable(attempts[i].errno)
    ensures BindResult(attempts) == if attempts[i].Listening? then Bound(attempts[i].fd, i) else GaveUp(attempts[i].errno, i)
  {
    BindPrefix(attempts, i);
  }

  /**
   * With the first `i` attempts all retried, the outcome is that of the
   * attempts from `i` on, shifted by `i`.
   */
  lemma {:induction false} BindPrefix(attempts: seq<ListenAttempt>, i: nat)
    requires i <= |attempts| && BindResult(attempts[..i]).StillRetrying?
    ensures BindResult(attempts) == Shift(BindResult(attempts[i..]), i)
  {
    if i > 0 {
      assert attempts[..i][0] == attempts[0];
      assert attempts[..i][1..] == attempts[1..][..i - 1];
      assert attempts[1..][i - 1..] == attempts[i..];
      BindPrefix(attempts[1..], i - 1);
    } else {
      assert attempts[0..] == attempts;
    }
  }

  function Shift(r: BindOutcome, i: nat): BindOutcome
  {
    match r
    case Bound(fd, k) => Bound(fd, k + i)
    case GaveUp(e, k) => GaveUp(e, k + i)
    case StillRetrying => StillRetrying
  }
}
