/** The mDNS address-family binder: for IPv4 (`Inet`) or IPv6 (`Inet6`) it
    binds a UDP socket to the wildcard address and the mDNS port, then joins
    the mDNS multicast group on every usable interface, falling back to one
    wildcard join when no interface-scoped join succeeded.

    The operating system is not modelled. Each socket-setup step and each
    multicast join is answered by an oracle supplied by the caller, and the
    interface enumeration is an input sequence. */
module AddressFamily {
  import opened Net

  /** The two implementations of the address-family abstraction. */
  datatype Family = Inet | Inet6

  /** The well-known mDNS port. */
  const MDNS_PORT: U16 := 5353

  /** 224.0.0.251 and ff02::fb, the mDNS groups (section 3 of RFC 6762). */
  const MDNS_GROUP_V4: Ipv4Addr := Ipv4Addr(224, 0, 0, 251)
  const MDNS_GROUP_V6: Ipv6Addr := Ipv6Addr(0xff02, 0, 0, 0, 0, 0, 0, 0xfb)

  /** The address the socket is bound to: 0.0.0.0 or ::. */
  function AnyAddr(f: Family): (r: IpAddr)
    ensures r.V6? <==> f == Inet6
    ensures IsUnspecified(r) && !IsLoopback(r) && !IsMulticast(r)
  {
    match f
    case Inet => V4(UNSPECIFIED_V4)
    case Inet6 => V6(UNSPECIFIED_V6)
  }

  /** The multicast group every join of this family targets. */
  function MdnsGroup(f: Family): (r: IpAddr)
    ensures r.V6? <==> f == Inet6
    ensures IsMulticast(r) && !IsLoopback(r) && !IsUnspecified(r)
  {
    match f
    case Inet => V4(MDNS_GROUP_V4)
    case Inet6 => V6(MDNS_GROUP_V6)
  }

  /** Whether the family is IPv6; it agrees with both address constants. */
  function IsV6(f: Family): (r: bool)
    ensures r <==> AnyAddr(f).V6?
    ensures r <==> MdnsGroup(f).V6?
  {
    f == Inet6
  }

  /** One enumerated interface. Its name serves only for logging and is not
      kept; `ip` is absent for an interface without an address. */
  datatype Interface = Interface(ip: Option<IpAddr>, index: U32)

  /** A multicast-group join call: an IPv4 join is scoped by a local address,
      an IPv6 join by an interface index. */
  datatype JoinRequest =
    | JoinV4(groupV4: Ipv4Addr, ifaceAddr: Ipv4Addr)
    | JoinV6(groupV6: Ipv6Addr, ifaceIndex: U32)

  function GroupOf(j: JoinRequest): IpAddr {
    match j
    case JoinV4(g, _) => V4(g)
    case JoinV6(g, _) => V6(g)
  }

  /** The join made for one interface, or None when the interface is
      skipped: it has no address, an address of the other family, or a
      loopback address. */
  function InterfaceJoin(f: Family, iface: Interface): (r: Option<JoinRequest>)
    ensures r.Some? <==>
              iface.ip.Some? && (iface.ip.value.V6? <==> f == Inet6) && !IsLoopback(iface.ip.value)
    ensures r.Some? ==> GroupOf(r.value) == MdnsGroup(f)
    ensures r.Some? && f == Inet ==> r.value == JoinV4(MDNS_GROUP_V4, iface.ip.value.v4)
    ensures r.Some? && f == Inet6 ==> r.value == JoinV6(MDNS_GROUP_V6, iface.index)
  {
    match iface.ip
    case Some(V4(ip)) =>
      if f.Inet? && !Ipv4IsLoopback(ip) then Some(JoinV4(MDNS_GROUP_V4, ip)) else None
    case Some(V6(ip)) =>
      if f.Inet6? && !Ipv6IsLoopback(ip) then Some(JoinV6(MDNS_GROUP_V6, iface.index)) else None
    case None => None
  }

  predicate Eligible(f: Family, iface: Interface) {
    InterfaceJoin(f, iface).Some?
  }

  /** The eligible interfaces, in enumeration order. */
  function EligibleInterfaces(f: Family, s: seq<Interface>): (e: seq<Interface>)
    ensures |e| <= |s|
    ensures forall k :: 0 <= k < |e| ==> Eligible(f, e[k]) && e[k] in s
  {
    if s == [] then []
    else (if Eligible(f, s[0]) then [s[0]] else []) + EligibleInterfaces(f, s[1..])
  }

  /** The per-interface joins, in enumeration order: the k-th is the join
      for the k-th eligible interface. */
  function InterfaceJoins(f: Family, s: seq<Interface>): (r: seq<JoinRequest>)
    ensures |r| == |EligibleInterfaces(f, s)|
    ensures forall k :: 0 <= k < |r| ==> InterfaceJoin(f, EligibleInterfaces(f, s)[k]) == Some(r[k])
  {
    if s == [] then []
    else
      match InterfaceJoin(f, s[0])
      case Some(j) => [j] + InterfaceJoins(f, s[1..])
      case None => InterfaceJoins(f, s[1..])
  }

  /** The wildcard join: group on 0.0.0.0, or group on interface index 0. */
  function FallbackJoin(f: Family): (r: JoinRequest)
    ensures GroupOf(r) == MdnsGroup(f)
    ensures r.JoinV4? <==> f == Inet
    ensures r.JoinV4? ==> IsUnspecified(V4(r.ifaceAddr))
    ensures r.JoinV6? ==> r.ifaceIndex == 0
  {
    match f
    case Inet => JoinV4(MDNS_GROUP_V4, UNSPECIFIED_V4)
    case Inet6 => JoinV6(MDNS_GROUP_V6, 0)
  }

  /** Whether one of the given joins succeeds under the oracle `ok`. */
  predicate AnyJoined(joins: seq<JoinRequest>, ok: JoinRequest -> bool) {
    exists k :: 0 <= k < |joins| && ok(joins[k])
  }

  /** Every join call made, in order: the per-interface joins, then the
      fallback when none of them succeeded. */
  function JoinPlan(f: Family, s: seq<Interface>, ok: JoinRequest -> bool): (r: seq<JoinRequest>)
    ensures r != []
    ensures forall k :: 0 <= k < |r| ==> GroupOf(r[k]) == MdnsGroup(f)
  {
    var joins := InterfaceJoins(f, s);
    if AnyJoined(joins, ok) then joins else joins + [FallbackJoin(f)]
  }

  lemma {:induction false} InterfaceJoinsConcat(f: Family, a: seq<Interface>, b: seq<Interface>)
    ensures InterfaceJoins(f, a + b) == InterfaceJoins(f, a) + InterfaceJoins(f, b)
  {
    if a != [] {
      assert (a + b)[0] == a[0];
      assert (a + b)[1..] == a[1..] + b;
      InterfaceJoinsConcat(f, a[1..], b);
    } else {
      assert a + b == b;
    }
  }

  lemma InterfaceJoinsSnoc(f: Family, s: seq<Interface>, x: Interface)
    ensures InterfaceJoins(f, s + [x]) ==
              InterfaceJoins(f, s) + (match InterfaceJoin(f, x) case Some(j) => [j] case None => [])
  {
    InterfaceJoinsConcat(f, s, [x]);
    assert [x][1..] == [];
  }

  lemma AnyJoinedSnoc(joins: seq<JoinRequest>, j: JoinRequest, ok: JoinRequest -> bool)
    ensures AnyJoined(joins + [j], ok) <==> AnyJoined(joins, ok) || ok(j)
  {
    if AnyJoined(joins, ok) {
      var k :| 0 <= k < |joins| && ok(joins[k]);
      assert (joins + [j])[k] == joins[k];
    }
    if ok(j) {
      assert (joins + [j])[|joins|] == j;
    }
  }

  /** Joins the mDNS group on every eligible interface and, when none of
      those joins succeeded, once on the wildcard. `joinOk` answers each join
      call; a failed join is only logged. Returns the join calls in the
      order they were made and the final value of the `bound` flag. No
      error is returned, whatever the oracle answers. */
  method JoinMulticast(f: Family, ifaces: seq<Interface>, joinOk: JoinRequest -> bool)
    returns (joins: seq<JoinRequest>, bound: bool)
    ensures joins == JoinPlan(f, ifaces, joinOk)
    ensures bound <==> AnyJoined(InterfaceJoins(f, ifaces), joinOk)
  {
    joins, bound := [], false;
    for i := 0 to |ifaces|
      invariant joins == InterfaceJoins(f, ifaces[..i])
      invariant bound <==> AnyJoined(joins, joinOk)
    {
      InterfaceJoinsSnoc(f, ifaces[..i], ifaces[i]);
      assert ifaces[..i + 1] == ifaces[..i] + [ifaces[i]];
      match InterfaceJoin(f, ifaces[i]) {
        case None =>
        case Some(req) =>
          AnyJoinedSnoc(joins, req, joinOk);
          joins := joins + [req];
          if joinOk(req) {
            bound := true;
          }
      }
    }
    assert ifaces[..|ifaces|] == ifaces;
    if !bound {
      var req := FallbackJoin(f);
      joins := joins + [req];
      // the fallback's outcome is only logged
      var _ := joinOk(req);
    }
  }

  /** An I/O error reported by the operating system. */
  datatype IoError = IoError(code: int)

  datatype StepOutcome = Pass | Fail(error: IoError)

  /** The fallible socket-setup steps of `bind`. */
  datatype Step =
    | NewUdpBuilder(family: Family)
    | ReuseAddress
    | ReusePort
    | BindTo(addr: SocketAddr)

  /** The socket handed to the caller: its family, its local address and
      the multicast joins made on it. */
  datatype BoundSocket = BoundSocket(family: Family, local: SocketAddr, joins: seq<JoinRequest>)

  datatype BindResult = Ok(socket: BoundSocket) | Err(error: IoError)

  /** The setup steps in the order `bind` runs them; port reuse is set only
      off Windows. */
  function BindSteps(f: Family, windows: bool): (r: seq<Step>)
    ensures |r| == if windows then 3 else 4
    ensures r[0] == NewUdpBuilder(f) && r[1] == ReuseAddress
    ensures r[|r| - 1] == BindTo(SocketAddr(AnyAddr(f), MDNS_PORT))
    ensures ReusePort in r <==> !windows
  {
    [NewUdpBuilder(f), ReuseAddress] + (if windows then [] else [ReusePort])
      + [BindTo(SocketAddr(AnyAddr(f), MDNS_PORT))]
  }

  /** Creates the socket builder, sets address (and, off Windows, port)
      reuse, binds to the wildcard address on the mDNS port and joins the
      multicast group. `outcome` answers each setup step; the first failing
      step's error is returned and no later step runs. `ran` lists the steps
      attempted, in order. */
  method Bind(f: Family, windows: bool, outcome: Step -> StepOutcome,
              ifaces: seq<Interface>, joinOk: JoinRequest -> bool)
    returns (r: BindResult, ran: seq<Step>)
    ensures ran != [] && ran <= BindSteps(f, windows)
    ensures forall k :: 0 <= k < |ran| - 1 ==> outcome(ran[k]) == Pass
    ensures r.Err? <==> outcome(ran[|ran| - 1]).Fail?
    ensures r.Err? ==> r.error == outcome(ran[|ran| - 1]).error
    ensures r.Ok? <==> forall k :: 0 <= k < |BindSteps(f, windows)| ==> outcome(BindSteps(f, windows)[k]) == Pass
    ensures r.Ok? ==> ran == BindSteps(f, windows)
    ensures r.Ok? ==> r.socket == BoundSocket(f, SocketAddr(AnyAddr(f), MDNS_PORT), JoinPlan(f, ifaces, joinOk))
  {
    var addr := SocketAddr(AnyAddr(f), MDNS_PORT);
    ran := [NewUdpBuilder(f)];
    var o := outcome(NewUdpBuilder(f));
    if o.Fail? {
      return Err(o.error), ran;
    }
    ran := ran + [ReuseAddress];
    o := outcome(ReuseAddress);
    if o.Fail? {
      return Err(o.error), ran;
    }
    if !windows {
      ran := ran + [ReusePort];
      o := outcome(ReusePort);
      if o.Fail? {
        return Err(o.error), ran;
      }
    }
    ran := ran + [BindTo(addr)];
    o := outcome(BindTo(addr));
    if o.Fail? {
      return Err(o.error), ran;
    }
    var joins, _ := JoinMulticast(f, ifaces, joinOk);
    r := Ok(BoundSocket(f, addr, joins));
  }
}
