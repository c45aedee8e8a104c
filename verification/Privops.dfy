/** privops.c: the data-socket operations, and the address rules of PORT and EPRT that they rely on. */
module Privops {
  import opened Basics

  type Port = p: int | 0 <= p < 0x1_0000

  /** An open file or socket, whatever number a process knows it by. */
  type File = nat

  type Bytes4 = s: seq<Byte> | |s| == 4 witness [0, 0, 0, 0]

  type Bytes16 = s: seq<Byte> | |s| == 16 witness seq(16, _ => 0)

  /** A socket address without its port. */
  datatype Addr = V4(v4: Bytes4) | V6(v6: Bytes16, scope: nat)

  datatype Endpoint = Endpoint(addr: Addr, port: Port)

  const MAPPED: seq<Byte> := [0, 0, 0, 0, 0, 0, 0, 0, 0, 0, 0xff, 0xff]

  /** vsf_sysutil_sockaddr_ipv6_v4 */
  function MappedV4(a: Addr): Option<seq<Byte>> {
    if a.V6? && a.v6[..12] == MAPPED then Some(a.v6[12..]) else None
  }

  /** vsf_sysutil_sockaddr_addr_equal */
  predicate AddrEqual(a: Addr, b: Addr) {
    match (a, b)
    case (V4(x), V6(_, _)) => MappedV4(b) == Some(x)
    case (V6(_, _), V4(y)) => MappedV4(a) == Some(y)
    case (V4(x), V4(y)) => x == y
    case (V6(x, _), V6(y, _)) => x == y
  }

  const RESERVED: Port := 1024

  /** The address an accepted PORT or EPRT names: the local address with the host replaced. */
  function Named(local: Addr, host: Addr): Option<Addr> {
    match (local, host)
    case (V4(_), V4(h)) => Some(V4(h))
    case (V6(_, scope), V4(h)) => Some(V6(MAPPED + h, scope))
    case (V6(_, scope), V6(h, _)) => Some(V6(h, scope))
    case (V4(_), V6(_, _)) => None
  }

  /** The end of handle_port and handle_eprt: what p_port_sockaddr is left as. */
  function PortTarget(local: Addr, remote: Addr, host: Addr, port: Port, promiscuous: bool): Option<Endpoint> {
    var a := Named(local, host);
    if a.None? then None else
    if !promiscuous && (!AddrEqual(remote, a.value) || port < RESERVED) then None else
    Some(Endpoint(a.value, port))
  }

  /** The two ends of one connection: same family, and for IPv6 the same scope. */
  predicate SameLink(local: Addr, remote: Addr) {
    match (local, remote)
    case (V4(_), V4(_)) => true
    case (V6(_, s), V6(_, t)) => s == t
    case _ => false
  }

  /**
   Without port_promiscuous, connecting to the peer's own address on the requested port is connecting
   to the address the client named, exactly when the control connection's ends share family and scope.
   */
  lemma PortIsPeer(local: Addr, remote: Addr, host: Addr, port: Port)
    requires PortTarget(local, remote, host, port, false).Some?
    ensures PortTarget(local, remote, host, port, false).value == Endpoint(remote, port) <==> SameLink(local, remote)
    ensures port >= RESERVED
  {
  }

  // ---------------------------------------------------------------- passive ports

  datatype Range = Range(lo: Port, hi: Port)

  /** The range pasv_min_port and pasv_max_port select. */
  function PasvRange(minPort: nat, maxPort: nat): (r: Range)
    ensures RESERVED <= r.lo <= r.hi
    ensures RESERVED < minPort <= maxPort < 65535 ==> r == Range(minPort, maxPort)
    ensures r.lo == RESERVED || r.lo == minPort
    ensures minPort == 0 ==> r.lo == RESERVED && (r.lo <= maxPort < 65535 ==> r.hi == maxPort)
    ensures maxPort == 0 ==> r.hi == 65535 && (RESERVED < minPort <= 65535 ==> r.lo == minPort)
  {
    var lo: Port := if RESERVED < minPort <= 65535 then minPort else RESERVED;
    Range(lo, if lo <= maxPort < 65535 then maxPort else 65535)
  }

  /** A draw of two random bytes scaled into the range; the double arithmetic is exact at these sizes. */
  function Scaled(r: Range, hi: Byte, lo: Byte): int
    requires r.lo <= r.hi
  {
    (r.lo as real + ((0x100 * hi + lo) as real / 65536.0) * (r.hi - r.lo + 1) as real).Floor
  }

  lemma ScaledInRange(r: Range, hi: Byte, lo: Byte)
    requires r.lo <= r.hi
    ensures r.lo <= Scaled(r, hi, lo) <= r.hi
  {
    var f, n := (0x100 * hi + lo) as real / 65536.0, (r.hi - r.lo + 1) as real;
    var x := FractionOf(f, n);
    FloorWithin(r.lo, r.hi, x);
  }

  lemma FloorWithin(lo: int, hi: int, x: real)
    requires 0.0 <= x < (hi - lo + 1) as real
    ensures lo <= (lo as real + x).Floor <= hi
  {
    assert (hi - lo + 1) as real == hi as real - lo as real + 1.0;
  }

  lemma FractionOf(f: real, n: real) returns (x: real)
    requires 0.0 <= f < 1.0 && n > 0.0
    ensures x == f * n && 0.0 <= x < n
  {
    x := f * n;
  }

  /** Every port of the range is drawn by some pair of bytes. */
  lemma ScaledOnto(r: Range, port: Port) returns (hi: Byte, lo: Byte)
    requires r.lo <= port <= r.hi
    ensures Scaled(r, hi, lo) == port
  {
    var n, k := r.hi - r.lo + 1, port - r.lo;
    var d := CeilDiv(65536 * k, n);
    CeilBelow(d, k, n);
    hi, lo := d / 0x100, d % 0x100;
    Hits(r.lo, d, n, k);
  }

  lemma CeilDiv(a: nat, n: nat) returns (d: nat)
    requires n > 0
    ensures a <= d * n < a + n
  {
    d := (a + n - 1) / n;
  }

  lemma CeilBelow(d: nat, k: nat, n: nat)
    requires k < n <= 65536 && d * n < 65536 * k + n
    ensures d < 65536 && 65536 * k + n <= 65536 * (k + 1)
  {
    assert d >= 65536 ==> d * n >= 65536 * n;
  }

  lemma Hits(lo: int, d: nat, n: nat, k: nat)
    requires 65536 * k <= d * n < 65536 * (k + 1)
    ensures (lo as real + (d as real / 65536.0) * n as real).Floor == lo + k
  {
    var p := d as real * n as real;
    assert p == (d * n) as real;
    assert (d as real / 65536.0) * n as real == p / 65536.0;
  }

  // ---------------------------------------------------------------- the operations as functions

  /** What bind (or listen) says; only an address in use is worth another try. */
  datatype Bind = Bound | InUse | Failed

  datatype Try = Try(hi: Byte, lo: Byte, outcome: Bind)

  const TRIES: nat := 9

  /** The port the retry loop settles on within `left` tries; None is die(). */
  function Attempt(tries: seq<Try>, r: Range, left: nat): Option<int>
    requires r.lo <= r.hi
  {
    if left == 0 || tries == [] || tries[0].outcome.Failed? then None else
    if tries[0].outcome.Bound? then Some(Scaled(r, tries[0].hi, tries[0].lo)) else Attempt(tries[1..], r, left - 1)
  }

  /** The loop ends at the first try that is not an address in use, and never makes more than `left`. */
  lemma {:induction false} AttemptMeans(tries: seq<Try>, r: Range, left: nat, p: int)
    requires r.lo <= r.hi
    ensures Attempt(tries, r, left) == Some(p) <==>
            exists i :: 0 <= i < left && i < |tries| && tries[i].outcome.Bound? && p == Scaled(r, tries[i].hi, tries[i].lo)
                        && forall j | 0 <= j < i :: tries[j].outcome.InUse?
    ensures Attempt(tries, r, left) == Some(p) ==> r.lo <= p <= r.hi
  {
    if left == 0 || tries == [] {
    } else {
      ScaledInRange(r, tries[0].hi, tries[0].lo);
      var t, n := tries[1..], left - 1;
      AttemptMeans(t, r, n, p);
      if i :| 0 <= i < left && i < |tries| && tries[i].outcome.Bound? && p == Scaled(r, tries[i].hi, tries[i].lo)
              && forall j | 0 <= j < i :: tries[j].outcome.InUse? {
        if i > 0 {
          assert tries[0].outcome.InUse?;
          assert t[i - 1] == tries[i] && forall j | 0 <= j < i - 1 :: t[j] == tries[j + 1];
        }
      }
      if tries[0].outcome.InUse? && Attempt(t, r, n) == Some(p) {
        var i :| 0 <= i < n && i < |t| && t[i].outcome.Bound? && p == Scaled(r, t[i].hi, t[i].lo)
                 && forall j | 0 <= j < i :: t[j].outcome.InUse?;
        assert tries[i + 1] == t[i] && forall j | 0 < j < i + 1 :: tries[j] == t[j - 1];
      }
    }
  }

  /** Configuration and connection facts that stay fixed for a session. */
  datatype Site = Site(local: Addr, remote: Addr, pasvMin: nat, pasvMax: nat, pasvPromiscuous: bool,
                       chownUploads: bool, chownUid: int, anonUid: int, guestUid: int)

  /** What the privileged side remembers: the listening socket, and the files it has changed the owner of. */
  datatype Priv = Priv(listen: Option<File>, chowned: seq<File>)

  /** What the system answers during one operation. */
  datatype Answers = Answers(sock: File, tries: seq<Try>, binds: seq<Bind>, connects: Endpoint -> bool,
                             accepted: Option<(File, Addr)>, uid: int, regular: bool)

  datatype Value = Fd(file: File) | Error(code: int) | Number(n: int) | Unit

  /** Dead: the operation ended in die(). */
  datatype Result = Done(priv: Priv, value: Value) | Dead

  function PortSock(p: Priv, target: Endpoint, a: Answers): Result {
    if target.port < RESERVED then Dead else
    if |a.binds| < 2 || a.binds[0].Failed? || (a.binds[0].InUse? && !a.binds[1].Bound?) then Dead else
    Done(p, if a.connects(target) then Fd(a.sock) else Error(-1))
  }

  function Listen(p: Priv, site: Site, a: Answers): Result {
    var port := Attempt(a.tries, PasvRange(site.pasvMin, site.pasvMax), TRIES);
    if port.None? then Dead else Done(p.(listen := Some(a.sock)), Number(port.value))
  }

  function Accept(p: Priv, site: Site, a: Answers): Result {
    Done(p,
         if p.listen.None? || a.accepted.None? then Error(-1)
         else if !site.pasvPromiscuous && !AddrEqual(site.remote, a.accepted.value.1) then Error(-2)
         else Fd(a.accepted.value.0))
  }

  function Chown(p: Priv, site: Site, fd: File, a: Answers): Result {
    if a.uid == site.chownUid then Done(p, Unit) else
    if site.chownUid == -1 || !a.regular || (a.uid != site.anonUid && a.uid != site.guestUid) then Dead else
    Done(p.(chowned := p.chowned + [fd]), Unit)
  }

  // ---------------------------------------------------------------- the operations as the code runs them

  class Session {
    const site: Site
    var pasvListenFd: Option<File>
    var chowned: seq<File>

    constructor (s: Site)
      ensures site == s && State() == Priv(None, [])
    {
      site, pasvListenFd, chowned := s, None, [];
    }

    function State(): Priv
      reads this
    {
      Priv(pasvListenFd, chowned)
    }

    /** vsf_privop_get_ftp_port_sock */
    method GetFtpPortSock(target: Endpoint, a: Answers) returns (died: bool, v: Value)
      requires |a.binds| >= 2
      ensures PortSock(State(), target, a) == if died then Dead else Done(State(), v)
    {
      v := Unit;
      if target.port < RESERVED {
        return true, v;
      }
      var i := 0;
      while i < 2
        invariant 0 <= i < 2
        invariant i == 1 ==> a.binds[0].InUse?
        decreases 2 - i
      {
        if a.binds[i].Bound? {
          break;
        }
        if !a.binds[i].InUse? || i == 1 {
          return true, v;
        }
        i := i + 1;
      }
      died := false;
      v := if a.connects(target) then Fd(a.sock) else Error(-1);
    }

    /** vsf_privop_pasv_cleanup */
    method PasvCleanup()
      modifies this
      ensures State() == old(State()).(listen := None)
    {
      if pasvListenFd.Some? {
        pasvListenFd := None;
      }
    }

    /** vsf_privop_pasv_listen */
    method PasvListen(a: Answers) returns (died: bool, port: int)
      requires |a.tries| >= TRIES
      modifies this
      ensures Listen(old(State()), site, a) == if died then Dead else Done(State(), Number(port))
      ensures !died ==> var r := PasvRange(site.pasvMin, site.pasvMax); r.lo <= port <= r.hi
    {
      pasvListenFd := Some(a.sock);
      var minPort, maxPort := RESERVED, 65535;
      if site.pasvMin > minPort && site.pasvMin <= maxPort {
        minPort := site.pasvMin;
      }
      if site.pasvMax >= minPort && site.pasvMax < maxPort {
        maxPort := site.pasvMax;
      }
      var r := Range(minPort, maxPort);
      ghost var all := Attempt(a.tries, r, TRIES);
      var retries := 10 - 1;
      port := 0;
      while retries != 0
        invariant 0 <= retries <= TRIES
        invariant Attempt(a.tries[TRIES - retries..], r, retries) == all
        modifies {}
      {
        var t := a.tries[TRIES - retries];
        assert a.tries[TRIES - retries..][0] == t;
        assert a.tries[TRIES - retries..][1..] == a.tries[TRIES - (retries - 1)..];
        port := Scaled(r, t.hi, t.lo);
        ScaledInRange(r, t.hi, t.lo);
        if t.outcome.Bound? {
          return false, port;
        }
        if t.outcome.Failed? {
          return true, port;
        }
        retries := retries - 1;
      }
      died := true;
    }

    /** vsf_privop_accept_pasv */
    method AcceptPasv(a: Answers) returns (v: Value)
      ensures Accept(State(), site, a) == Done(State(), v)
      ensures v.Fd? && !site.pasvPromiscuous ==> a.accepted.Some? && AddrEqual(site.remote, a.accepted.value.1)
    {
      if pasvListenFd.None? || a.accepted.None? {
        return Error(-1);
      }
      if !site.pasvPromiscuous {
        if !AddrEqual(site.remote, a.accepted.value.1) {
          return Error(-2);
        }
      }
      v := Fd(a.accepted.value.0);
    }

    /** vsf_privop_do_file_chown */
    method DoFileChown(fd: File, a: Answers) returns (died: bool)
      modifies this`chowned
      ensures Chown(old(State()), site, fd, a) == if died then Dead else Done(State(), Unit)
      ensures var mine := site.chownUid != -1 && a.regular && (a.uid == site.anonUid || a.uid == site.guestUid);
              && (died <==> a.uid != site.chownUid && !mine)
              && State() == old(State()).(chowned := old(chowned) + if a.uid != site.chownUid && mine then [fd] else [])
    {
      if a.uid == site.chownUid {
        return false;
      }
      if site.chownUid == -1 || !a.regular || (a.uid != site.anonUid && a.uid != site.guestUid) {
        return true;
      }
      chowned := chowned + [fd];
      died := false;
    }
  }
}
