# mDNS address-family binder

A Dafny model of the address-family abstraction of a Rust mDNS responder
(`src/address_family.rs`). For IPv4 (`Inet`) or IPv6 (`Inet6`) the binder
creates a UDP socket, sets address reuse (and port reuse off Windows), binds it
to the family's wildcard address on port 5353, and joins the mDNS multicast
group (224.0.0.251 or ff02::fb, section 3 of RFC 6762) on every enumerated
interface of that family that is not loopback. When none of those joins
succeeds it makes one wildcard join (IPv4 address 0.0.0.0, IPv6 interface
index 0). Join failures are only logged; `join_multicast` never reports an
error.

The operating system is not modelled. The answer to each multicast join is an
oracle `JoinRequest -> bool`, the answer to each socket-setup step an oracle
`Step -> StepOutcome`, the interface enumeration an input sequence, and the
Windows build switch a boolean parameter. With these, `join_multicast` is a
loop over the enumeration with a `bound` flag (method `JoinMulticast`). It
returns the join calls it made, in order, and the final flag. Its
specification is the function `JoinPlan`: the per-interface joins, then the
fallback when none succeeded. `bind` is a straight-line chain of fallible
steps (method `Bind`) in which the first failure aborts.

Files:
- `net.dfy` (module `Net`): IPv4/IPv6 addresses, socket addresses, and the
  loopback predicates with the meaning of the Rust standard library: 127.0.0.0/8
  (section 3.2.1.3 of RFC 1122) and exactly ::1 (section 2.5.3 of RFC 4291).
- `address_family.dfy` (module `AddressFamily`): family constants, the
  join-plan specification, `JoinMulticast` and `Bind`.
- `join_properties.dfy` (module `JoinProperties`): lemmas about the join plan.

## Model

| member | source | states |
|---|---|---|
| Net.IsLoopback | src/address_family.rs:51-53 | The `is_loopback` test: an IPv4 address is loopback exactly when its top eight bits are 127 (127.0.0.0/8), an IPv6 address exactly when its 128-bit value is 1 (::1, line 88) |
| AddressFamily.AnyAddr | src/address_family.rs:40-42 | The bind address (0.0.0.0 here, :: at lines 77-79) is of the family's own version, is unspecified, and is neither loopback nor multicast |
| AddressFamily.MdnsGroup | src/address_family.rs:43-45 | The group (224.0.0.251 here, ff02::fb at lines 80-82) is of the family's own version and is a multicast, non-loopback, specified address |
| AddressFamily.IsV6 | src/address_family.rs:68-70 | `v6()` is true exactly for the family whose wildcard address and mDNS group are IPv6 (lines 105-107) |
| AddressFamily.InterfaceJoin | src/address_family.rs:49-59 | An interface gets a join exactly when it has an address of the family that is not loopback (lines 86-96 for IPv6). The join targets the mDNS group, scoped by the interface's own address for IPv4 and its own index for IPv6 (line 92) |
| AddressFamily.EligibleInterfaces | src/address_family.rs:48-53 | Every interface kept is eligible and was enumerated, and no more are kept than were enumerated |
| AddressFamily.InterfaceJoins | src/address_family.rs:48-61 | There is one per-interface join per eligible interface. The k-th join is the one for the k-th eligible interface |
| AddressFamily.FallbackJoin | src/address_family.rs:62-66 | The fallback join targets the family's mDNS group with the family's join call: IPv4 on 0.0.0.0, IPv6 on interface index 0 (line 101) |
| AddressFamily.JoinPlan | src/address_family.rs:46-67 | At least one join call is always made, and every call targets the family's mDNS group |
| AddressFamily.InterfaceJoinsConcat | src/address_family.rs:48-61 | The per-interface joins follow enumeration order: the joins for a concatenated enumeration are the joins of its two parts, in order |
| AddressFamily.AnyJoinedSnoc | src/address_family.rs:57 | After one more join, the `bound` condition holds exactly when it held before or the new join succeeded |
| AddressFamily.JoinMulticast | src/address_family.rs:46-67 | The loop with its `bound` flag makes exactly the join calls of `JoinPlan`, in order, for every oracle, and never fails. The final flag is true exactly when some per-interface join succeeded. Lines 83-104 are the IPv6 twin |
| AddressFamily.BindSteps | src/address_family.rs:19-24 | The setup order: socket builder of the family, address reuse, port reuse exactly when not on Windows, then bind to the wildcard address on port 5353 |
| AddressFamily.Bind | src/address_family.rs:18-27 | Steps run in order and stop at the first failure. That step's error is returned, and every earlier step passed. The result is Ok exactly when every step passes. The socket is then bound to the family's wildcard address and port 5353 and carries the joins of `JoinPlan` |
| JoinProperties.JoinsUseFamilyJoinCall | src/address_family.rs:55-64 | Every join call, per-interface or fallback, is the family's own join call: `join_multicast_v4` for IPv4, `join_multicast_v6` for IPv6 (lines 92 and 101) |
| JoinProperties.EligibleInterfacesConcat | src/address_family.rs:48-61 | Filtering the enumeration keeps its order: it distributes over concatenation |
| JoinProperties.EligibleInterfacesCount | src/address_family.rs:48-59 | An eligible interface is kept exactly as many times as it is enumerated. An interface without an address, of the other family, or loopback is never kept |
| JoinProperties.PerInterfaceJoinScope | src/address_family.rs:50-55 | The k-th join call goes to the k-th eligible interface. That interface was enumerated, has a non-loopback address of the family, and is joined by its address (IPv4) or its index (IPv6, lines 87-92) |
| JoinProperties.SkippedInterfaceChangesNothing | src/address_family.rs:49-59 | Inserting an interface with no address, the other family's address, or a loopback address anywhere in the enumeration leaves the join calls unchanged |
| JoinProperties.SkippedInterfaceMakesNoJoin | src/address_family.rs:49-59 | Inserting a skipped interface anywhere leaves the per-interface joins unchanged |
| JoinProperties.FailedJoinsDoNotStopLaterAttempts | src/address_family.rs:55-57 | Whatever the join outcomes, the first join calls are the same, one per eligible interface: a failure does not stop later attempts |
| JoinProperties.FallbackExactlyWhenNoneJoined | src/address_family.rs:62-66 | There is one more call than eligible interfaces exactly when no per-interface join succeeded. That extra call is the fallback. Otherwise there are no extra calls |
| JoinProperties.NoEligibleInterfaceOnlyFallback | src/address_family.rs:47-66 | With no eligible interface, the only join call is the fallback |
| JoinProperties.Ipv4LoopbackSkippedScenario | src/address_family.rs:51-57 | For enumeration [127.0.0.1, 192.168.1.5] where the join on 192.168.1.5 succeeds, that join is the only call |
| JoinProperties.Ipv6IndexScenario | src/address_family.rs:88-102 | For enumeration [::1 on index 1, fe80::1 on index 3] where the join fails, the calls are the join on index 3 and then the fallback on index 0 |

## Left out

- Real socket operations (`UdpBuilder::new_v4`/`new_v6`, `reuse_address`, `reuse_port`, `bind`, `join_multicast_v4`/`v6`). They are calls into the net2 crate and the operating system, so they are replaced by the two oracles. An oracle is a fixed function, so a join's answer cannot depend on earlier joins on the same socket.
- Interface enumeration (`net::getifaddrs` and its Windows variant `netwin.rs`) is platform code; `netwin.rs` is not part of this model. The enumeration is an input sequence of (address, index) records. The interface name is used only in log messages and is dropped.
- `trace!` logging has no effect on behaviour and is not modelled.
- `#[cfg(windows)]` is the `windows` parameter of `Bind` and `BindSteps`, not a build-time choice.
- `MDNS_PORT` is defined in the parent module, which is not part of this model. It is the constant 5353.
- The socket handle is not modelled. `Bind` returns a value recording the family, the local address and the joins made.
- This revision has no enumeration-failure path: `getifaddrs` (line 48) yields the interface list directly, so the loop always runs and the fallback follows it. Nor does it single out an "address already in use" join error: every join error goes to the same log call (lines 56, 65, 93 and 102), so the model distinguishes no join error.
