/** What the join plan of the mDNS binder guarantees, for every interface
    enumeration and every answer the operating system may give to the join
    calls. */
module JoinProperties {
  import opened Net
  import opened AddressFamily

  /** Every join call, per-interface or fallback, uses the family's own
      join call: `join_multicast_v4` for IPv4, `join_multicast_v6` for IPv6. */
  lemma JoinsUseFamilyJoinCall(f: Family, s: seq<Interface>, ok: JoinRequest -> bool)
    ensures forall k :: 0 <= k < |JoinPlan(f, s, ok)| ==> (JoinPlan(f, s, ok)[k].JoinV6? <==> IsV6(f))
  {
  }

  /** Filtering preserves enumeration order: it distributes over
      concatenation. */
  lemma {:induction false} EligibleInterfacesConcat(f: Family, a: seq<Interface>, b: seq<Interface>)
    ensures EligibleInterfaces(f, a + b) == EligibleInterfaces(f, a) + EligibleInterfaces(f, b)
  {
    if a == [] {
      assert a + b == b;
    } else {
      assert (a + b)[0] == a[0];
      assert (a + b)[1..] == a[1..] + b;
      EligibleInterfacesConcat(f, a[1..], b);
    }
  }

  /** Each eligible interface is kept as often as it is enumerated, and an
      interface with no address, an address of the other family or a
      loopback address is never kept. */
  lemma {:induction false} EligibleInterfacesCount(f: Family, s: seq<Interface>, x: Interface)
    ensures multiset(EligibleInterfaces(f, s))[x] ==
              if Eligible(f, x) then multiset(s)[x] else 0
  {
    if s != [] {
      EligibleInterfacesCount(f, s[1..], x);
      assert s == [s[0]] + s[1..];
      assert multiset(s) == multiset([s[0]]) + multiset(s[1..]);
    }
  }

  /** The k-th join call is scoped to the k-th eligible interface: an
      enumerated, non-loopback interface of the family, joined by its own
      address (IPv4) or its own index (IPv6). */
  lemma PerInterfaceJoinScope(f: Family, s: seq<Interface>, ok: JoinRequest -> bool, k: nat)
    requires k < |EligibleInterfaces(f, s)|
    ensures var iface := EligibleInterfaces(f, s)[k];
            && iface in s
            && iface.ip.Some? && (iface.ip.value.V6? <==> IsV6(f)) && !IsLoopback(iface.ip.value)
            && k < |JoinPlan(f, s, ok)|
            && (f == Inet ==> JoinPlan(f, s, ok)[k] == JoinV4(MDNS_GROUP_V4, iface.ip.value.v4))
            && (f == Inet6 ==> JoinPlan(f, s, ok)[k] == JoinV6(MDNS_GROUP_V6, iface.index))
  {
  }

  /** An interface that is skipped (no address, the other family, or
      loopback) changes no join call, wherever it is enumerated. */
  lemma SkippedInterfaceChangesNothing(f: Family, a: seq<Interface>, x: Interface, b: seq<Interface>,
                                       ok: JoinRequest -> bool)
    requires x.ip.None? || (x.ip.value.V6? != IsV6(f)) || IsLoopback(x.ip.value)
    ensures JoinPlan(f, a + [x] + b, ok) == JoinPlan(f, a + b, ok)
  {
    SkippedInterfaceMakesNoJoin(f, a, x, b);
  }

  lemma SkippedInterfaceMakesNoJoin(f: Family, a: seq<Interface>, x: Interface, b: seq<Interface>)
    requires InterfaceJoin(f, x).None?
    ensures InterfaceJoins(f, a + [x] + b) == InterfaceJoins(f, a + b)
  {
    InterfaceJoinsSnoc(f, a, x);
    InterfaceJoinsConcat(f, a + [x], b);
    InterfaceJoinsConcat(f, a, b);
  }

  /** A failed join never stops later attempts: the per-interface join
      calls are the same whatever the outcomes, one per eligible interface. */
  lemma FailedJoinsDoNotStopLaterAttempts(f: Family, s: seq<Interface>,
                                          ok1: JoinRequest -> bool, ok2: JoinRequest -> bool)
    ensures var n := |EligibleInterfaces(f, s)|;
            && n <= |JoinPlan(f, s, ok1)| && n <= |JoinPlan(f, s, ok2)|
            && JoinPlan(f, s, ok1)[..n] == JoinPlan(f, s, ok2)[..n]
  {
  }

  /** The fallback join is made exactly once when no per-interface join
      succeeded, as the last call, and never otherwise. */
  lemma FallbackExactlyWhenNoneJoined(f: Family, s: seq<Interface>, ok: JoinRequest -> bool)
    ensures var n := |EligibleInterfaces(f, s)|;
            var plan := JoinPlan(f, s, ok);
            && n <= |plan| <= n + 1
            && (|plan| == n + 1 <==> forall k :: 0 <= k < n ==> !ok(plan[k]))
            && (|plan| == n + 1 ==> plan[n] == FallbackJoin(f))
  {
  }

  /** With no eligible interface, the only join call is the fallback. */
  lemma {:induction false} NoEligibleInterfaceOnlyFallback(f: Family, s: seq<Interface>, ok: JoinRequest -> bool)
    requires forall x :: x in s ==> !Eligible(f, x)
    ensures InterfaceJoins(f, s) == []
    ensures JoinPlan(f, s, ok) == [FallbackJoin(f)]
  {
    if s != [] {
      assert s[0] in s;
      assert forall x :: x in s[1..] ==> x in s;
      NoEligibleInterfaceOnlyFallback(f, s[1..], ok);
    }
  }

  /** IPv4 with the loopback 127.0.0.1 and 192.168.1.5 enumerated: the only
      join is on 192.168.1.5, and when it succeeds there is no fallback. */
  lemma Ipv4LoopbackSkippedScenario(ok: JoinRequest -> bool)
    requires ok(JoinV4(MDNS_GROUP_V4, Ipv4Addr(192, 168, 1, 5)))
    ensures JoinPlan(Inet, [Interface(Some(V4(Ipv4Addr(127, 0, 0, 1))), 1),
                            Interface(Some(V4(Ipv4Addr(192, 168, 1, 5))), 2)], ok)
            == [JoinV4(MDNS_GROUP_V4, Ipv4Addr(192, 168, 1, 5))]
  {
    var s := [Interface(Some(V4(Ipv4Addr(127, 0, 0, 1))), 1),
              Interface(Some(V4(Ipv4Addr(192, 168, 1, 5))), 2)];
    assert s[1..][1..] == [];
    assert InterfaceJoins(Inet, s) == [JoinV4(MDNS_GROUP_V4, Ipv4Addr(192, 168, 1, 5))];
    assert ok(InterfaceJoins(Inet, s)[0]);
  }

  /** IPv6 with fe80::1 on interface index 3 and ::1 on index 1: the join is
      scoped to index 3, and index 0 is used only by the fallback, after a
      failed join on index 3. */
  lemma Ipv6IndexScenario(ok: JoinRequest -> bool)
    requires !ok(JoinV6(MDNS_GROUP_V6, 3))
    ensures JoinPlan(Inet6, [Interface(Some(V6(LOCALHOST_V6)), 1),
                             Interface(Some(V6(Ipv6Addr(0xfe80, 0, 0, 0, 0, 0, 0, 1))), 3)], ok)
            == [JoinV6(MDNS_GROUP_V6, 3), JoinV6(MDNS_GROUP_V6, 0)]
  {
  }
}
