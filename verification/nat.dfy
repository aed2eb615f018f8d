/**
 * The IPv4 address translator's entry points, as they act on a packet in
 * place: each reads the old field values, adjusts the checksums from them
 * through local sums, writes the sums back and only then overwrites the
 * addresses and ports.
 *
 * Every method is proved to leave the packet's fields exactly as the
 * function of module NatSpec with the matching name says; what is proved
 * about those functions (fields written, checksum deltas, consistency,
 * round trips, no-ops) therefore holds of the methods.
 */
module Nat {
  import opened OnesComplement
  import opened Ip4
  import opened NatSpec

  // ---------------------------------------------------------------------
  // Dispatchers

  /** snat (socket): a TCP or UDP packet is source-translated; any other packet is left alone. */
  method Snat(p: Packet, sock: Socket)
    modifies p
    ensures p.Fields() == Snatted(old(p.Fields()), sock)
    ensures IpChecksumOk(old(p.Fields())) ==> IpChecksumOk(p.Fields())
    ensures old(p.proto) == TCP && TransportChecksumOk(old(p.Fields())) ==> TransportChecksumOk(p.Fields())
  {
    ghost var h := p.Fields();
    DispatchKeepsChecksums(h, sock, h.ipDst, h.dstPort);
    match p.proto {
      case TCP => TcpSnat(p, sock);
      case UDP => UdpSnat(p, sock);
      case _ =>
    }
  }

  /** dnat (socket): a TCP or UDP packet gets a new destination socket; any other packet is left alone. */
  method Dnat(p: Packet, sock: Socket)
    modifies p
    ensures p.Fields() == Dnatted(old(p.Fields()), sock)
    ensures IpChecksumOk(old(p.Fields())) ==> IpChecksumOk(p.Fields())
    ensures old(p.proto) == TCP && TransportChecksumOk(old(p.Fields())) ==> TransportChecksumOk(p.Fields())
  {
    ghost var h := p.Fields();
    DispatchKeepsChecksums(h, sock, h.ipDst, h.dstPort);
    match p.proto {
      case TCP => TcpDnat(p, sock);
      case UDP => UdpDnat(p, sock);
      case _ =>
    }
  }

  /** dnat (address): a TCP, UDP or ICMP packet gets a new destination address; any other is left alone. */
  method DnatAddr(p: Packet, addr: Addr)
    modifies p
    ensures p.Fields() == DnattedAddr(old(p.Fields()), addr)
    ensures IpChecksumOk(old(p.Fields())) ==> IpChecksumOk(p.Fields())
    ensures old(p.proto) == TCP && TransportChecksumOk(old(p.Fields())) ==> TransportChecksumOk(p.Fields())
  {
    ghost var h := p.Fields();
    DispatchKeepsChecksums(h, Socket(h.ipDst, h.dstPort), addr, h.dstPort);
    match p.proto {
      case TCP => TcpDnatAddr(p, addr);
      case UDP => UdpDnatAddr(p, addr);
      case ICMPv4 => IcmpDnat(p, addr);
      case Other =>
    }
  }

  /** dnat (port): a TCP or UDP packet gets a new destination port; any other packet is left alone. */
  method DnatPort(p: Packet, port: Port)
    modifies p
    ensures p.Fields() == DnattedPort(old(p.Fields()), port)
    ensures IpChecksumOk(old(p.Fields())) ==> IpChecksumOk(p.Fields())
    ensures old(p.proto) == TCP && TransportChecksumOk(old(p.Fields())) ==> TransportChecksumOk(p.Fields())
  {
    ghost var h := p.Fields();
    DispatchKeepsChecksums(h, Socket(h.ipDst, h.dstPort), h.ipDst, port);
    match p.proto {
      case TCP => TcpDnatPort(p, port);
      case UDP => UdpDnatPort(p, port);
      case _ =>
    }
  }

  // ---------------------------------------------------------------------
  // TCP

  /** tcp_snat: checksums first, from the old source socket; then the new source socket. */
  method TcpSnat(p: Packet, sock: Socket)
    requires p.proto == TCP
    modifies p
    ensures p.Fields() == TcpSnatted(old(p.Fields()), sock)
  {
    RecalcTcpChecksum(p, p.Source(), sock);
    p.ipSrc, p.srcPort := sock.address, sock.port;
  }

  /** tcp_dnat (socket): checksums first, from the old destination socket; then the new one. */
  method TcpDnat(p: Packet, sock: Socket)
    requires p.proto == TCP
    modifies p
    ensures p.Fields() == TcpDnatted(old(p.Fields()), sock)
  {
    RecalcTcpChecksum(p, p.Destination(), sock);
    p.ipDst, p.dstPort := sock.address, sock.port;
  }

  /** tcp_dnat (address): the IP checksum, then the TCP checksum, by the same address change. */
  method TcpDnatAddr(p: Packet, addr: Addr)
    requires p.proto == TCP
    modifies p
    ensures p.Fields() == TcpDnattedAddr(old(p.Fields()), addr)
  {
    var oldAddr := p.ipDst;
    RecalcIpChecksum(p, oldAddr, addr);
    var tcpSum := p.l4Checksum;
    tcpSum := AdjustWords(tcpSum, oldAddr.Words(), addr.Words());
    p.l4Checksum := tcpSum;
    p.ipDst := addr;
  }

  /** tcp_dnat (port): the TCP checksum by the two ports in network byte order, then the port. */
  method TcpDnatPort(p: Packet, port: Port)
    requires p.proto == TCP
    modifies p
    ensures p.Fields() == TcpDnattedPort(old(p.Fields()), port)
  {
    var tcpSum := p.l4Checksum;
    var oldPort := Htons(p.dstPort);
    var tmpPort := Htons(port);
    tcpSum := AdjustWords(tcpSum, [oldPort], [tmpPort]);
    p.l4Checksum := tcpSum;
    p.dstPort := port;
  }

  // ---------------------------------------------------------------------
  // UDP

  /** udp_snat: the IP checksum from the old source socket; then the new source address and port. */
  method UdpSnat(p: Packet, sock: Socket)
    requires p.proto == UDP
    modifies p
    ensures p.Fields() == UdpSnatted(old(p.Fields()), sock)
  {
    var oldSock := Socket(p.ipSrc, p.srcPort);
    RecalcUdpChecksum(p, oldSock, sock);
    p.ipSrc := sock.address;
    p.srcPort := sock.port;
  }

  /** udp_dnat (socket): the IP checksum from the old destination socket; then the new one. */
  method UdpDnat(p: Packet, sock: Socket)
    requires p.proto == UDP
    modifies p
    ensures p.Fields() == UdpDnatted(old(p.Fields()), sock)
  {
    var oldSock := Socket(p.ipDst, p.dstPort);
    RecalcUdpChecksum(p, oldSock, sock);
    p.ipDst := sock.address;
    p.dstPort := sock.port;
  }

  /** udp_dnat (address): the IP checksum only; the UDP checksum is not adjusted. */
  method UdpDnatAddr(p: Packet, addr: Addr)
    requires p.proto == UDP
    modifies p
    ensures p.Fields() == UdpDnattedAddr(old(p.Fields()), addr)
  {
    var oldAddr := p.ipDst;
    RecalcIpChecksum(p, oldAddr, addr);
    p.ipDst := addr;
  }

  /** udp_dnat (port): the port only; no checksum is adjusted. */
  method UdpDnatPort(p: Packet, port: Port)
    requires p.proto == UDP
    modifies p
    ensures p.Fields() == UdpDnattedPort(old(p.Fields()), port)
  {
    p.dstPort := port;
  }

  // ---------------------------------------------------------------------
  // ICMP

  /** icmp_snat: the IP checksum, then the source address; the protocol is not checked. */
  method IcmpSnat(p: Packet, addr: Addr)
    modifies p
    ensures p.Fields() == IcmpSnatted(old(p.Fields()), addr)
  {
    RecalcIpChecksum(p, p.ipSrc, addr);
    p.ipSrc := addr;
  }

  /** icmp_dnat: the IP checksum, then the destination address; the protocol is not checked. */
  method IcmpDnat(p: Packet, addr: Addr)
    modifies p
    ensures p.Fields() == IcmpDnatted(old(p.Fields()), addr)
  {
    RecalcIpChecksum(p, p.ipDst, addr);
    p.ipDst := addr;
  }

  // ---------------------------------------------------------------------
  // Checksum helpers

  /** recalc_ip_checksum: read the IP checksum, adjust it for the address change, write it back. */
  method RecalcIpChecksum(p: Packet, oldAddr: Addr, newAddr: Addr)
    modifies p
    ensures p.Fields() == IpRecalced(old(p.Fields()), oldAddr, newAddr)
  {
    var ipSum := p.ipChecksum;
    ipSum := AdjustWords(ipSum, oldAddr.Words(), newAddr.Words());
    p.ipChecksum := ipSum;
  }

  /**
   * recalc_tcp_checksum: the IP checksum for the address change; then the
   * TCP checksum, read once, adjusted for the address words and for the
   * ports in network byte order, and written back once.
   */
  method RecalcTcpChecksum(p: Packet, osock: Socket, nsock: Socket)
    modifies p
    ensures p.Fields() == TcpRecalced(old(p.Fields()), osock, nsock)
  {
    var oldAddr, newAddr := osock.address, nsock.address;
    RecalcIpChecksum(p, oldAddr, newAddr);
    var tcpSum := p.l4Checksum;
    tcpSum := AdjustWords(tcpSum, oldAddr.Words(), newAddr.Words());
    var oldPort, newPort := Htons(osock.port), Htons(nsock.port);
    tcpSum := AdjustWords(tcpSum, [oldPort], [newPort]);
    p.l4Checksum := tcpSum;
  }

  /** recalc_udp_checksum: the IP checksum for the address change; the UDP checksum is left as it is. */
  method RecalcUdpChecksum(p: Packet, osock: Socket, nsock: Socket)
    modifies p
    ensures p.Fields() == UdpRecalced(old(p.Fields()), osock, nsock)
  {
    RecalcIpChecksum(p, osock.address, nsock.address);
  }
}
