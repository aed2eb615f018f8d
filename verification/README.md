# IPv4 NAT field rewriting with incremental checksum repair

This project is a Dafny model of the network stack's IPv4 address
translator, `src/net/nat/nat.cpp`. The translator rewrites a packet's
source or destination in place. The new value can be a whole socket
(address and port), a bare address or a bare port. The checksums that
cover the rewritten fields are repaired incrementally with the
one's-complement update of RFC 1624, section 3, eqn. 3
(`HC' = ~(~HC + ~m + m')`). Nothing is recomputed from scratch.

The project has four modules:

- `OnesComplement` (`ones_complement.dfy`) is the checksum engine.
  - `Adjust` is eqn. 3 for one 16-bit word.
  - `AdjustWords` is `checksum_adjust` over a field of several words.
  - `Checksum` is a from-scratch reference (RFC 1071).
  - `Verifies` is the receiver's test.
  - One's-complement values are compared modulo 0xFFFF (`Congruent`), because 0x0000 and 0xFFFF both stand for zero.
- `Ip4` (`ip4.dfy`) holds the packet.
  - Protocol tag, addresses (two 16-bit words each), ports (a high and a low byte each) and sockets.
  - `Htons`.
  - `Packet`, a class whose fields the translator writes.
  - `Header`, the same fields as a value.
  - The words each checksum covers, and what it means for a checksum to be consistent.
- `NatSpec` (`nat_spec.dfy`) has one function per entry point and helper, from the fields before the call to the fields after it. The lemmas about those functions state:
  - which fields change;
  - which checksum moves, and by which delta;
  - when consistency is kept;
  - when the UDP checksum goes stale;
  - that rewriting there and back restores the packet;
  - what rewriting a field to its own value does.
- `Nat` (`nat.dfy`) has the entry points as methods that change a `Packet` in place, in the source's order of reads and writes.
  - Each is proved to leave `p.Fields()` equal to the `NatSpec` function of the old fields.
  - `Expects(p.ip_protocol() == ...)` becomes a `requires`.

Where the code and the behaviour the design promises disagree, the model
follows the code:

- **Rewriting a field to its own value is not always byte-for-byte a no-op.** With eqn. 3, a checksum that holds 0xFFFF (-0) comes back as 0x0000 (+0) once any word is fed through. `AdjustSameWord`, `AdjustWordsSame` and the `*ToSame*` lemmas state this exactly. Every other field and checksum value is unchanged.
- **Round trips restore the checksums only as one's-complement values.** Rewriting A→B and then B→A restores every field exactly. Each checksum comes back congruent modulo 0xFFFF, not necessarily as the same bits (`Restored`).
- **UDP checksums are never updated.** No UDP path writes the UDP checksum (`src/net/nat/nat.cpp:192`, `:203`, `:257`). After a UDP rewrite, a from-scratch recomputation agrees with the stored UDP checksum only when that checksum is zero or the rewritten words add up to the same value (`UdpSnatChecksums` and its siblings).

## Model

| member | source | states |
|---|---|---|
| OnesComplement.Adjust | src/net/nat/nat.cpp:244 | A one-word update moves the checksum by the old word minus the new one, modulo 0xFFFF (RFC 1624 eqn. 3). |
| OnesComplement.AdjustWords | src/net/nat/nat.cpp:226 | Feeding a field word by word moves the checksum by the old field's words minus the new field's. |
| OnesComplement.AdjustOneWord | src/net/nat/nat.cpp:150 | `checksum_adjust<uint16_t>` is exactly one eqn. 3 update. |
| OnesComplement.AdjustTwoWords | src/net/nat/nat.cpp:134 | `checksum_adjust` on a 32-bit address is exactly two chained one-word updates. |
| OnesComplement.AdjustWordsConcat | src/net/nat/nat.cpp:240-244 | Adjusting for the address and then for the port gives exactly the result of adjusting for both fields in one pass. |
| OnesComplement.AdjustKeepsVerified | src/net/nat/nat.cpp:223-228 | After a field is rewritten, the adjusted checksum passes the receiver's test if and only if the old checksum passed it on the old words. |
| OnesComplement.AdjustRoundTrip | src/net/nat/nat.cpp:223-228 | Adjusting A→B and then B→A gives back the checksum's one's-complement value. |
| OnesComplement.AdjustPairRoundTrip | src/net/nat/nat.cpp:230-247 | The same for two fields (address and port) adjusted one after the other and then back. |
| OnesComplement.AdjustSameWord | src/net/nat/nat.cpp:244 | Replacing a word by itself leaves the checksum bit-for-bit as it was, except that 0xFFFF becomes 0. |
| OnesComplement.AdjustWordsSame | src/net/nat/nat.cpp:226 | The same for a whole field: the result is exact except for -0 becoming +0. |
| OnesComplement.Checksum | src/net/nat/nat.cpp:223-228 | The from-scratch reference: the complement of the words' one's-complement sum. |
| OnesComplement.ChecksumVerifies | src/net/nat/nat.cpp:223-228 | A from-scratch checksum passes the receiver's test. |
| OnesComplement.VerifiesIff | src/net/nat/nat.cpp:223-228 | A checksum passes the receiver's test if and only if it equals the from-scratch checksum modulo 0xFFFF. |
| Ip4.HtonsSwapsBytes | src/net/nat/nat.cpp:148-149 | `htons` swaps the high and the low byte of the port. |
| Ip4.HtonsInjective | src/net/nat/nat.cpp:242-243 | Two ports are stored as the same word if and only if they are the same port. |
| Ip4.IpChecksumMoves | src/net/nat/nat.cpp:223-228 | An IP checksum moved by the change in the address words is consistent if and only if the old one was. |
| Ip4.PseudoChecksumMoves | src/net/nat/nat.cpp:230-247 | A TCP checksum moved by the change in the addresses and ports is consistent if and only if the old one was. |
| Ip4.PseudoChecksumStale | src/net/nat/nat.cpp:249-258 | A transport checksum left as it is stays consistent if and only if the new addresses and ports add the same value as the old ones. |
| NatSpec.IpRecalced | src/net/nat/nat.cpp:223-228 | Only the IP checksum changes, by the old address minus the new one. |
| NatSpec.TcpRecalced | src/net/nat/nat.cpp:230-247 | Only the two checksums change. The IP checksum moves by the address delta. The TCP checksum moves by the address delta plus the delta of the ports in network order. |
| NatSpec.AddressThenPortMoves | src/net/nat/nat.cpp:238-246 | The address adjustment followed by the port adjustment adds up to the two deltas together. |
| NatSpec.UdpRecalced | src/net/nat/nat.cpp:249-258 | Only the IP checksum changes, by the address delta. The UDP checksum is left as it is. |
| NatSpec.TcpSnatted | src/net/nat/nat.cpp:102-110 | The source address and port become the new socket. Only the two checksums change otherwise, each by its delta computed from the old source. |
| NatSpec.TcpDnatted | src/net/nat/nat.cpp:112-121 | The same for the destination socket. |
| NatSpec.TcpDnattedAddr | src/net/nat/nat.cpp:123-139 | Only the destination address and the two checksums change. Both checksums move by the same address delta. |
| NatSpec.TcpDnattedPort | src/net/nat/nat.cpp:141-155 | Only the destination port and the TCP checksum change. The checksum moves by `htons(old)` minus `htons(new)`. |
| NatSpec.UdpSnatted | src/net/nat/nat.cpp:157-167 | The source socket becomes the new one. Only the IP checksum changes otherwise. |
| NatSpec.UdpDnatted | src/net/nat/nat.cpp:169-181 | The destination socket becomes the new one. Only the IP checksum changes otherwise. |
| NatSpec.UdpDnattedAddr | src/net/nat/nat.cpp:183-196 | The destination address becomes the new one. Only the IP checksum changes otherwise. |
| NatSpec.IcmpSnatted | src/net/nat/nat.cpp:209-214 | The source address and the IP checksum change, and nothing else. There is no protocol precondition. |
| NatSpec.IcmpDnatted | src/net/nat/nat.cpp:216-221 | The destination address and the IP checksum change, and nothing else. There is no protocol precondition. |
| NatSpec.Snatted | src/net/nat/nat.cpp:30-45 | TCP and UDP packets get the new source socket. The other endpoint, the protocol and the other words are kept. Any other protocol leaves the packet unchanged. |
| NatSpec.Dnatted | src/net/nat/nat.cpp:47-62 | TCP and UDP packets get the new destination socket. Any other protocol leaves the packet unchanged. |
| NatSpec.DnattedAddr | src/net/nat/nat.cpp:64-83 | Only the destination address and the checksums can change. TCP, UDP and ICMP packets get the new address. Any other protocol leaves the packet unchanged. |
| NatSpec.DnattedPort | src/net/nat/nat.cpp:85-100 | Only the destination port and the transport checksum can change. TCP and UDP packets get the new port. Any other protocol leaves the packet unchanged. |
| NatSpec.TcpSnatKeepsChecksums | src/net/nat/nat.cpp:102-110 | The IP checksum is consistent after the call if and only if it was before. The same holds for the TCP checksum. |
| NatSpec.TcpDnatKeepsChecksums | src/net/nat/nat.cpp:112-121 | The same for `tcp_dnat` (socket). |
| NatSpec.TcpDnatAddrKeepsChecksums | src/net/nat/nat.cpp:123-139 | The same for `tcp_dnat` (address). |
| NatSpec.TcpDnatPortKeepsChecksums | src/net/nat/nat.cpp:141-155 | The same for `tcp_dnat` (port). |
| NatSpec.UdpChecksumLeftAsIs | src/net/nat/nat.cpp:249-258 | An untouched UDP checksum stays acceptable if and only if it is zero or the rewritten words add the same value. |
| NatSpec.UdpSnatChecksums | src/net/nat/nat.cpp:157-167 | The IP checksum stays consistent if and only if it was. The UDP checksum stays acceptable if and only if it is zero or the new source socket adds the same value as the old one. |
| NatSpec.UdpDnatChecksums | src/net/nat/nat.cpp:169-181 | The same for the destination socket. |
| NatSpec.UdpDnatAddrChecksums | src/net/nat/nat.cpp:183-196 | The IP checksum stays consistent. The UDP checksum goes stale unless it is zero or the two addresses add the same value. |
| NatSpec.UdpDnatPortChecksums | src/net/nat/nat.cpp:198-207 | The IP header is untouched. The UDP checksum goes stale unless it is zero or the two ports are stored as the same value. |
| NatSpec.IcmpSnatKeepsChecksums | src/net/nat/nat.cpp:209-214 | The IP checksum is consistent after the call if and only if it was before. The transport checksum is unaffected when it covers no address. |
| NatSpec.IcmpDnatKeepsChecksums | src/net/nat/nat.cpp:216-221 | The same for `icmp_dnat`. |
| NatSpec.DispatchKeepsChecksums | src/net/nat/nat.cpp:30-100 | Every entry point keeps a consistent IP checksum consistent, and on a TCP packet a consistent TCP checksum consistent. |
| NatSpec.DispatchMatchesRecomputation | src/net/nat/nat.cpp:30-100 | After every entry point, those checksums equal, modulo 0xFFFF, a from-scratch checksum over the rewritten packet. |
| NatSpec.TcpSnatRoundTrip | src/net/nat/nat.cpp:102-110 | `tcp_snat` to a socket and back to the old one restores every field exactly and both checksums modulo 0xFFFF. |
| NatSpec.TcpDnatRoundTrip | src/net/nat/nat.cpp:112-121 | The same for `tcp_dnat` (socket). |
| NatSpec.TcpDnatAddrRoundTrip | src/net/nat/nat.cpp:123-139 | The same for `tcp_dnat` (address). |
| NatSpec.TcpDnatPortRoundTrip | src/net/nat/nat.cpp:141-155 | The same for `tcp_dnat` (port). |
| NatSpec.UdpSnatRoundTrip | src/net/nat/nat.cpp:157-167 | The same for `udp_snat`. |
| NatSpec.UdpDnatRoundTrip | src/net/nat/nat.cpp:169-181 | The same for `udp_dnat` (socket). |
| NatSpec.UdpDnatAddrRoundTrip | src/net/nat/nat.cpp:183-196 | The same for `udp_dnat` (address). |
| NatSpec.UdpDnatPortRoundTrip | src/net/nat/nat.cpp:198-207 | `udp_dnat` (port) there and back gives exactly the same packet. |
| NatSpec.IcmpSnatRoundTrip | src/net/nat/nat.cpp:209-214 | `icmp_snat` A→B→A restores the address exactly and the IP checksum modulo 0xFFFF. |
| NatSpec.IcmpDnatRoundTrip | src/net/nat/nat.cpp:216-221 | The same for `icmp_dnat`. |
| NatSpec.SnatRoundTrip | src/net/nat/nat.cpp:30-45 | `snat` there and back restores the packet whatever its protocol. |
| NatSpec.DnatRoundTrip | src/net/nat/nat.cpp:47-62 | The same for `dnat` (socket). |
| NatSpec.DnatAddrRoundTrip | src/net/nat/nat.cpp:64-83 | The same for `dnat` (address). |
| NatSpec.DnatPortRoundTrip | src/net/nat/nat.cpp:85-100 | The same for `dnat` (port). |
| NatSpec.SnatToSameSocket | src/net/nat/nat.cpp:30-45 | `snat` to the packet's own source socket changes nothing except that a checksum it adjusts that held 0xFFFF now holds 0. |
| NatSpec.DnatToSameSocket | src/net/nat/nat.cpp:47-62 | The same for `dnat` (socket). |
| NatSpec.DnatAddrToSameAddr | src/net/nat/nat.cpp:64-83 | The same for `dnat` (address). |
| NatSpec.DnatPortToSamePort | src/net/nat/nat.cpp:85-100 | The same for `dnat` (port). Only TCP touches a checksum. |
| Nat.Snat | src/net/nat/nat.cpp:30-45 | The packet ends up as `Snatted` of its old fields. A consistent IP checksum (and a consistent TCP checksum on TCP) stays consistent. |
| Nat.Dnat | src/net/nat/nat.cpp:47-62 | The packet ends up as `Dnatted` of its old fields. The same consistency holds. |
| Nat.DnatAddr | src/net/nat/nat.cpp:64-83 | The packet ends up as `DnattedAddr` of its old fields. The same consistency holds. |
| Nat.DnatPort | src/net/nat/nat.cpp:85-100 | The packet ends up as `DnattedPort` of its old fields. The same consistency holds. |
| Nat.TcpSnat | src/net/nat/nat.cpp:102-110 | Requires a TCP packet. The packet ends up as `TcpSnatted` of its old fields. |
| Nat.TcpDnat | src/net/nat/nat.cpp:112-121 | Requires a TCP packet. The packet ends up as `TcpDnatted` of its old fields. |
| Nat.TcpDnatAddr | src/net/nat/nat.cpp:123-139 | Requires a TCP packet. The packet ends up as `TcpDnattedAddr` of its old fields. |
| Nat.TcpDnatPort | src/net/nat/nat.cpp:141-155 | Requires a TCP packet. The packet ends up as `TcpDnattedPort` of its old fields. |
| Nat.UdpSnat | src/net/nat/nat.cpp:157-167 | Requires a UDP packet. The packet ends up as `UdpSnatted` of its old fields. |
| Nat.UdpDnat | src/net/nat/nat.cpp:169-181 | Requires a UDP packet. The packet ends up as `UdpDnatted` of its old fields. |
| Nat.UdpDnatAddr | src/net/nat/nat.cpp:183-196 | Requires a UDP packet. The packet ends up as `UdpDnattedAddr` of its old fields. |
| Nat.UdpDnatPort | src/net/nat/nat.cpp:198-207 | Requires a UDP packet. Only the destination port changes. |
| Nat.IcmpSnat | src/net/nat/nat.cpp:209-214 | There is no protocol precondition. The packet ends up as `IcmpSnatted` of its old fields. |
| Nat.IcmpDnat | src/net/nat/nat.cpp:216-221 | There is no protocol precondition. The packet ends up as `IcmpDnatted` of its old fields. |
| Nat.RecalcIpChecksum | src/net/nat/nat.cpp:223-228 | Only the IP checksum changes, to `IpRecalced` of the old fields. |
| Nat.RecalcTcpChecksum | src/net/nat/nat.cpp:230-247 | Only the two checksums change, to `TcpRecalced` of the old fields. |
| Nat.RecalcUdpChecksum | src/net/nat/nat.cpp:249-258 | Only the IP checksum changes, to `UdpRecalced` of the old fields. |

## Left out

- `checksum_adjust` lives in `net/inet_common.hpp`, which is not part of this model. It is modelled by its definition in RFC 1624, section 3, eqn. 3, applied to each 16-bit word of the field in turn (`Adjust`, `AdjustWords`). The pointer and byte handling of the real routine is not modelled.
- The packet classes (`IP4::IP_packet`, `tcp::Packet`, `PacketUDP`), their byte layout, their getters and setters, and the `static_cast` between them are not modelled. The packet is one `Packet` object with named fields, and a setter writes exactly its field. `set_source` and `set_destination` write the address and the port together.
- The header words the translator never writes are abstracted as `ipRest` and `l4Rest`. This covers the rest of the IP header, the pseudo-header's protocol and length, the transport header and the payload.
- Addresses are kept as the two 16-bit words stored in the packet. The model does not relate them to dotted-quad notation or host byte order.
- `htons` is modelled for a little-endian host, where it swaps the two bytes. On a big-endian host it would be the identity, and the TCP port adjustment would see the ports unchanged.
- `Expects` and its failure path (a fatal contract violation) become `requires` clauses. The model does not represent what happens when a caller breaks them.
- Nat.Snat, Nat.Dnat, Nat.DnatAddr, Nat.DnatPort: the consistency `ensures` speak of the IP checksum and of the TCP checksum only. What happens to a UDP checksum is stated by the `Udp*Checksums` lemmas, because the code leaves it stale.
- All checksum claims about values are congruences modulo 0xFFFF, except the `*ToSame*` lemmas, `AdjustSameWord` and `AdjustWordsSame`, which are exact. The model does not say which of the two encodings of zero a checksum ends up in after an arbitrary rewrite.
- NAT tables, connection tracking, port allocation and packet delivery are not in this file and are not modelled.
