/**
 * The parts of an IPv4 packet that address translation reads and writes,
 * and the 16-bit words each checksum of the packet covers.
 *
 * Addresses and checksums are kept as the 16-bit words stored in the
 * packet, in the order the checksum engine reads them.  Ports are kept as
 * the accessors return them, in host byte order; the word stored in the
 * packet (and covered by the transport checksum) is Htons(port).
 */
module Ip4 {
  import opened OnesComplement

  /** The IPv4 protocol field, as far as the translator tells protocols apart. */
  datatype Protocol = ICMPv4 | TCP | UDP | Other

  /** An IPv4 address: its two 16-bit words as stored in the header. */
  datatype Addr = Addr(w0: Word16, w1: Word16)
  {
    /** What the address adds to any checksum that covers it. */
    function Weight(): int
    {
      w0 + w1
    }

    function Words(): (ws: seq<Word16>)
      ensures |ws| == 2 && Sum(ws) == Weight()
    {
      SumPair(w0, w1);
      [w0, w1]
    }
  }

  /** A byte of the packet. */
  type Byte = x: int | 0 <= x < 0x100

  /**
   * A port number (a uint16 in host byte order), kept as its high and its
   * low byte so that both byte orders are plain sums of the two.
   */
  datatype Port = Port(hi: Byte, lo: Byte)
  {
    /** The port number as the accessors and the callers see it. */
    function Value(): Word16
    {
      hi * 0x100 + lo
    }
  }

  /** An address and a port. */
  datatype Socket = Socket(address: Addr, port: Port)

  /**
   * htons on the little-endian hosts the stack runs on: the port stored in
   * network byte order (high byte first), read back as a 16-bit word in
   * host order.  This is the word the checksum engine sees.
   */
  function Htons(p: Port): Word16
  {
    p.lo * 0x100 + p.hi
  }

  /** htons swaps the two bytes of the port number. */
  lemma HtonsSwapsBytes(p: Port)
    ensures Htons(p) == (p.Value() % 0x100) * 0x100 + p.Value() / 0x100
  {
  }

  /** Distinct ports are stored as distinct words. */
  lemma HtonsInjective(p: Port, q: Port)
    ensures Htons(p) == Htons(q) <==> p == q
  {
    if Htons(p) == Htons(q) {
      assert p.hi == Htons(p) % 0x100 && q.hi == Htons(q) % 0x100;
      assert p.lo == Htons(p) / 0x100 && q.lo == Htons(q) / 0x100;
    }
  }

  /**
   * The fields of one packet as a value.  ipRest holds the IP header words
   * the translator never writes (version and length, identification,
   * fragment, TTL and protocol, options); l4Rest holds the rest of what the
   * transport checksum covers (the protocol and length words of the
   * pseudo-header, the transport header without its ports and checksum,
   * the payload).
   */
  datatype Header = Header(
    proto: Protocol,
    ipSrc: Addr,
    ipDst: Addr,
    srcPort: Port,
    dstPort: Port,
    ipChecksum: Word16,
    l4Checksum: Word16,
    ipRest: seq<Word16>,
    l4Rest: seq<Word16>)

  /** The words the IP header checksum covers (the checksum field excepted). */
  function IpWords(h: Header): seq<Word16>
  {
    h.ipSrc.Words() + h.ipDst.Words() + h.ipRest
  }

  /**
   * The words a TCP or UDP checksum covers: the pseudo-header's two
   * addresses, the two ports as stored, and everything else.
   */
  function PseudoWords(h: Header): seq<Word16>
  {
    h.ipSrc.Words() + h.ipDst.Words() + [Htons(h.srcPort), Htons(h.dstPort)] + h.l4Rest
  }

  /** What the two addresses add to any checksum that covers them. */
  function AddrWeight(h: Header): int
  {
    h.ipSrc.Weight() + h.ipDst.Weight()
  }

  /** What the addresses and ports add to a TCP or UDP checksum. */
  function PseudoWeight(h: Header): int
  {
    h.ipSrc.Weight() + h.ipDst.Weight() + Htons(h.srcPort) + Htons(h.dstPort)
  }

  predicate IpChecksumOk(h: Header)
  {
    Verifies(h.ipChecksum, IpWords(h))
  }

  predicate PseudoChecksumOk(h: Header)
  {
    Verifies(h.l4Checksum, PseudoWords(h))
  }

  /** The IP header checksum is consistent when it cancels the addresses and the rest of the header. */
  lemma IpChecksumOkIff(h: Header)
    ensures IpChecksumOk(h) <==> Congruent(h.ipChecksum + (AddrWeight(h) + Sum(h.ipRest)), 0)
  {
    SumConcat(h.ipSrc.Words(), h.ipDst.Words());
    SumConcat(h.ipSrc.Words() + h.ipDst.Words(), h.ipRest);
  }

  /** A TCP/UDP checksum is consistent when it cancels the addresses, the ports and the rest. */
  lemma PseudoChecksumOkIff(h: Header)
    ensures PseudoChecksumOk(h) <==> Congruent(h.l4Checksum + (PseudoWeight(h) + Sum(h.l4Rest)), 0)
  {
    var ports := [Htons(h.srcPort), Htons(h.dstPort)];
    SumPair(Htons(h.srcPort), Htons(h.dstPort));
    var addrs := h.ipSrc.Words() + h.ipDst.Words();
    SumConcat(h.ipSrc.Words(), h.ipDst.Words());
    SumConcat(addrs, ports);
    SumConcat(addrs + ports, h.l4Rest);
  }

  /**
   * The IP header checksum of r, moved from h's by the change in the
   * address words, is consistent exactly when h's was.
   */
  lemma IpChecksumMoves(h: Header, r: Header)
    requires r.ipRest == h.ipRest
    requires Congruent(r.ipChecksum, h.ipChecksum + (AddrWeight(h) - AddrWeight(r)))
    ensures IpChecksumOk(h) <==> IpChecksumOk(r)
  {
    IpChecksumOkIff(h);
    IpChecksumOkIff(r);
    CongruentMoveBy(h.ipChecksum, AddrWeight(h) + Sum(h.ipRest), r.ipChecksum, AddrWeight(r) + Sum(r.ipRest),
                    AddrWeight(h), AddrWeight(r), Sum(h.ipRest));
  }

  /**
   * The TCP/UDP checksum of r, moved from h's by the change in the
   * addresses and ports, is consistent exactly when h's was.
   */
  lemma PseudoChecksumMoves(h: Header, r: Header)
    requires r.l4Rest == h.l4Rest
    requires Congruent(r.l4Checksum, h.l4Checksum + (PseudoWeight(h) - PseudoWeight(r)))
    ensures PseudoChecksumOk(h) <==> PseudoChecksumOk(r)
  {
    PseudoChecksumOkIff(h);
    PseudoChecksumOkIff(r);
    CongruentMoveBy(h.l4Checksum, PseudoWeight(h) + Sum(h.l4Rest), r.l4Checksum, PseudoWeight(r) + Sum(r.l4Rest),
                    PseudoWeight(h), PseudoWeight(r), Sum(h.l4Rest));
  }

  /**
   * A TCP/UDP checksum left as it was while the addresses or ports change
   * stays consistent exactly when they add the same one's-complement value
   * as before.
   */
  lemma PseudoChecksumStale(h: Header, r: Header)
    requires r.l4Rest == h.l4Rest && r.l4Checksum == h.l4Checksum
    requires PseudoChecksumOk(h)
    ensures PseudoChecksumOk(r) <==> Congruent(PseudoWeight(r), PseudoWeight(h))
  {
    PseudoChecksumOkIff(h);
    PseudoChecksumOkIff(r);
    CongruentStaleBy(h.l4Checksum, Sum(h.l4Rest), PseudoWeight(h), PseudoWeight(r));
  }

  /**
   * The transport checksum is consistent with what it covers.  A UDP
   * checksum of zero means "no checksum" over IPv4 (RFC 768); an ICMP
   * checksum covers only the ICMP message, no address; for other protocols
   * the translator knows of no checksum.
   */
  predicate TransportChecksumOk(h: Header)
  {
    match h.proto
    case TCP => PseudoChecksumOk(h)
    case UDP => h.l4Checksum == 0 || PseudoChecksumOk(h)
    case ICMPv4 => Verifies(h.l4Checksum, h.l4Rest)
    case Other => true
  }

  /**
   * An IPv4 packet in the network stack's buffer, seen through its field
   * accessors.  The TCP and UDP views of the same packet read and write
   * these same fields.
   */
  class Packet {
    var proto: Protocol
    var ipSrc: Addr
    var ipDst: Addr
    var srcPort: Port
    var dstPort: Port
    var ipChecksum: Word16
    var l4Checksum: Word16
    var ipRest: seq<Word16>
    var l4Rest: seq<Word16>

    /** The packet's fields as a value. */
    function Fields(): Header
      reads this
    {
      Header(proto, ipSrc, ipDst, srcPort, dstPort, ipChecksum, l4Checksum, ipRest, l4Rest)
    }

    /** source(): the source address and port. */
    function Source(): Socket
      reads this
    {
      Socket(ipSrc, srcPort)
    }

    /** destination(): the destination address and port. */
    function Destination(): Socket
      reads this
    {
      Socket(ipDst, dstPort)
    }
  }
}
