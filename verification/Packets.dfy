/**
 The probe packets: how the source fills their headers and checksums, and why
 the packets it sends pass the receiver's verification.
 */
module Packets {
  import opened Bytes
  import opened Checksum
  import opened Headers

  datatype Packet =
    | IcmpPacket(source: SocketAddress, destination: SocketAddress, icmp: IcmpHeader)
    | TcpPacket(source: SocketAddress, destination: SocketAddress, tcp: TcpHeader)
    | UdpPacket(source: SocketAddress, destination: SocketAddress, udp: UdpHeader)

  datatype Creation = Created(packet: Packet) | FamilyMismatch

  // ----- Checksums of the three headers -----

  /** The IPv4 branch of `computePseudoheaderChecksum`: the wire pseudo header's host-order sum. */
  method ComputePseudoheaderChecksum(protocol: Byte, headerLength: Word16, source: Octets4, destination: Octets4)
    returns (sum: Word64)
    ensures sum == Sum(LeWords(PseudoHeader(source, destination, protocol, headerLength)))
    ensures sum <= 6 * 0xFFFF
  {
    hide PseudoHeader, LeWords, Sum, Load32;
    AddressSum(source);
    AddressSum(destination);
    PseudoHeaderSum(source, destination, protocol, headerLength);
    hide Swap16;
    var src: int := Load32(source, 0);
    assert src / 0x1_0000 % 0x1_0000 == src / 0x1_0000;
    sum := src / 0x1_0000 % 0x1_0000;
    sum := sum + src % 0x1_0000;
    var dst: int := Load32(destination, 0);
    assert dst / 0x1_0000 % 0x1_0000 == dst / 0x1_0000;
    sum := sum + dst / 0x1_0000 % 0x1_0000;
    sum := sum + dst % 0x1_0000;
    sum := sum + Swap16(protocol);
    sum := sum + Swap16(headerLength);
  }

  lemma AddressWords(a: Octets4)
    ensures Sum(LeWords(a)) == LoadLe(a[0], a[1]) + LoadLe(a[2], a[3]) as int
  {
    hide LeWords, Sum;
    assert a == [a[0], a[1]] + [a[2], a[3]];
    SumOfConcatenation([a[0], a[1]], [a[2], a[3]]);
    OneWord(a[0], a[1]);
    OneWord(a[2], a[3]);
  }

  /** The two halves of an address word are its two wire words. */
  lemma AddressSum(a: Octets4)
    ensures Load32(a, 0) / 0x1_0000 + Load32(a, 0) % 0x1_0000 == Sum(LeWords(a)) <= 2 * 0xFFFF
  {
    AddressWords(a);
    hide LeWords, Sum, LoadLe;
    Halves(LoadLe(a[0], a[1]), LoadLe(a[2], a[3]));
  }

  lemma PseudoHeaderSum(s: Octets4, d: Octets4, protocol: Byte, length: Word16)
    ensures Sum(LeWords(PseudoHeader(s, d, protocol, length)))
         == Sum(LeWords(s)) + Sum(LeWords(d)) + Swap16(protocol) + Swap16(length)
  {
    hide LeWords, Sum;
    SumOfConcatenation(s, d);
    SumOfConcatenation(s + d, [0, protocol]);
    SumOfConcatenation(s + d + [0, protocol], Be16(length));
    OneWord(0, protocol);
    OneWord(length / 0x100, length % 0x100);
  }

  lemma OneWord(a: Byte, b: Byte)
    ensures Sum(LeWords([a, b])) == LoadLe(a, b)
  {
    assert LeWords([a, b]) == [LoadLe(a, b)] + LeWords([a, b][2..]);
    assert LeWords([a, b][2..]) == [];
  }

  /**
   Replacing a zeroed checksum field by the computed value makes prefix and
   header verify together.
   */
  lemma StoredFieldVerifies(p: seq<Byte>, before: seq<Byte>, after: seq<Byte>, c: Word16)
    requires |p| % 2 == 0 && |before| % 2 == 0
    requires c == CodeChecksum(Sum(LeWords(p)), before + Le16(0) + after)
    ensures Verifies(p + (before + Le16(c) + after))
  {
    hide Fold, Sum, LeWords, Verifies, Le16;
    var prior := Sum(LeWords(p));
    var zeroed, stored := before + Le16(0) + after, before + Le16(c) + after;
    var s := prior + Sum(LeWords(zeroed));
    assert Sum(LeWords(stored)) == Sum(LeWords(zeroed)) + c by {
      FieldSum(before, 0, after);
      FieldSum(before, c, after);
    }
    assert Sum(LeWords(p + stored)) == s + c by { SumOfConcatenation(p, stored); }
    assert Fold(s + c) == 0xFFFF by { ComplementCompletes(s); }
    VerifiesInHostOrder(p + stored);
  }

  lemma FieldSum(before: seq<Byte>, field: Word16, after: seq<Byte>)
    requires |before| % 2 == 0
    ensures Sum(LeWords(before + Le16(field) + after)) == Sum(LeWords(before)) + field + Sum(LeWords(after))
  {
    assert Sum(LeWords(Le16(field))) == field by { OneWord(field % 0x100, field / 0x100); }
    hide LeWords, Sum, Le16;
    SumOfConcatenation(before, Le16(field));
    SumOfConcatenation(before + Le16(field), after);
  }

  /** Truncating the complemented 64-bit sum to 16 bits leaves the 16-bit complement. */
  lemma TruncatedComplement(prior: nat, bytes: seq<Byte>, r: Word64)
    requires prior <= 6 * 0xFFFF && |bytes| <= TCP_HEADER_SIZE
    requires r == TWO_TO_64 - 1 - Fold(Wrap(prior + Sum(LeWords(bytes))))
    ensures r % 0x1_0000 == CodeChecksum(prior, bytes)
  {
    hide Fold, Sum, LeWords;
    assert Sum(LeWords(bytes)) <= 0xFFFF * |bytes| by { SumBound(bytes); }
    NoWrap(prior + Sum(LeWords(bytes)));
    var f := Fold(prior + Sum(LeWords(bytes)));
    assert r == (0x1_0000 as int) * 0xFFFF_FFFF_FFFF + (0xFFFF - f);
  }

  lemma {:induction false} SumBound(b: seq<Byte>)
    ensures Sum(LeWords(b)) <= 0xFFFF * |b|
  {
    if |b| > 1 {
      SumBound(b[2..]);
    }
  }

  /** `computeICMPHeaderChecksum`: the header verifies once the result is stored in it. */
  method ComputeIcmpHeaderChecksum(header: IcmpHeader) returns (c: Word16)
    ensures Verifies(SerializeIcmp(header.(checksum := c)))
    ensures c == CodeChecksum(0, SerializeIcmp(header.(checksum := 0)))
  {
    NothingToSum();
    hide Verifies, CodeChecksum, LeWords, Sum, Le16, Fold, Wrap;
    var zeroed := header.(checksum := 0);
    var bytes := SerializeIcmp(zeroed);
    var r := ComputeChecksum(bytes, ICMP_HEADER_SIZE, 0);
    assert bytes[..ICMP_HEADER_SIZE] == bytes;
    TruncatedComplement(0, bytes, r);
    c := r % 0x1_0000;
    var after := Le16(header.id) + Le16(header.sequence);
    StoredFieldVerifies([], [header.kind, header.code], after, c);
    assert [] + SerializeIcmp(header.(checksum := c)) == SerializeIcmp(header.(checksum := c));
  }

  /** `computeTCPHeaderChecksum`: pseudo header and header verify once the result is stored. */
  method ComputeTcpHeaderChecksum(header: TcpHeader, source: Octets4, destination: Octets4) returns (c: Word16)
    ensures Verifies(PseudoHeader(source, destination, IPPROTO_TCP, TCP_HEADER_SIZE) + SerializeTcp(header.(check := c)))
    ensures c == CodeChecksum(Sum(LeWords(PseudoHeader(source, destination, IPPROTO_TCP, TCP_HEADER_SIZE))),
                              SerializeTcp(header.(check := 0)))
  {
    hide Verifies, CodeChecksum, LeWords, Sum, PseudoHeader, Le16, Le32, Fold, Wrap;
    var sum := ComputePseudoheaderChecksum(IPPROTO_TCP, TCP_HEADER_SIZE, source, destination);
    var bytes := SerializeTcp(header.(check := 0));
    var r := ComputeChecksum(bytes, TCP_HEADER_SIZE, sum);
    assert bytes[..TCP_HEADER_SIZE] == bytes;
    TruncatedComplement(sum, bytes, r);
    c := r % 0x1_0000;
    StoredFieldVerifies(PseudoHeader(source, destination, IPPROTO_TCP, TCP_HEADER_SIZE),
                        TcpBeforeCheck(header), Le16(header.urgPtr), c);
  }

  /** `computeUdpHeaderChecksum`: likewise for UDP; a zero result is kept as it is. */
  method ComputeUdpHeaderChecksum(header: UdpHeader, source: Octets4, destination: Octets4) returns (c: Word16)
    ensures Verifies(PseudoHeader(source, destination, IPPROTO_UDP, UDP_HEADER_SIZE) + SerializeUdp(header.(check := c)))
    ensures c == CodeChecksum(Sum(LeWords(PseudoHeader(source, destination, IPPROTO_UDP, UDP_HEADER_SIZE))),
                              SerializeUdp(header.(check := 0)))
  {
    hide Verifies, CodeChecksum, LeWords, Sum, PseudoHeader, Le16, Fold, Wrap;
    var sum := ComputePseudoheaderChecksum(IPPROTO_UDP, UDP_HEADER_SIZE, source, destination);
    var bytes := SerializeUdp(header.(check := 0));
    var r := ComputeChecksum(bytes, UDP_HEADER_SIZE, sum);
    assert bytes[..UDP_HEADER_SIZE] == bytes;
    TruncatedComplement(sum, bytes, r);
    c := r % 0x1_0000;
    var before := Le16(header.source) + Le16(header.dest) + Le16(header.len);
    StoredFieldVerifies(PseudoHeader(source, destination, IPPROTO_UDP, UDP_HEADER_SIZE), before, [], c);
  }

  // ----- The bytes on the wire -----

  /** `serialize`: the memory image of the header. */
  function Serialize(p: Packet): (bytes: seq<Byte>)
    ensures |bytes| >= 8
  {
    match p
    case IcmpPacket(_, _, h) => SerializeIcmp(h)
    case TcpPacket(_, _, h) => SerializeTcp(h)
    case UdpPacket(_, _, h) => SerializeUdp(h)
  }

  /** Two and four bytes read as a number in network byte order. */
  function Net16(w: seq<Byte>, at: nat): int
    requires at + 2 <= |w|
  {
    0x100 * w[at] as int + w[at + 1]
  }

  function Net32(w: seq<Byte>, at: nat): int
    requires at + 4 <= |w|
  {
    0x1_0000 * Net16(w, at) + Net16(w, at + 2)
  }

  lemma Net16OfImage(w: seq<Byte>, at: nat, field: Word16)
    requires at + 2 <= |w| && w[at..at + 2] == Le16(field)
    ensures Net16(w, at) == Swap16(field)
  {
    assert w[at] == w[at..at + 2][0] && w[at + 1] == w[at..at + 2][1];
  }

  lemma Net32OfImage(w: seq<Byte>, at: nat, field: Word32)
    requires at + 4 <= |w| && w[at..at + 4] == Le32(field)
    ensures Net32(w, at) == Swap32(field)
  {
    hide Le16;
    assert w[at..at + 2] == w[at..at + 4][..2] == Le16(field % 0x1_0000);
    assert w[at + 2..at + 4] == w[at..at + 4][2..] == Le16(field / 0x1_0000);
    Net16OfImage(w, at, field % 0x1_0000);
    Net16OfImage(w, at + 2, field / 0x1_0000);
    hide Swap16;
  }

  /** Where the fields of the TCP header lie: section 3.1 of RFC 793. */
  lemma TcpWire(h: TcpHeader)
    ensures var w := SerializeTcp(h);
            && |w| == 20
            && Net16(w, 0) == Swap16(h.source) && Net16(w, 2) == Swap16(h.dest)
            && Net32(w, 4) == Swap32(h.seqNo) && Net32(w, 8) == Swap32(h.ackNo)
            && w[12] == 16 * (h.dataOffset as int) + h.unused && w[13] == h.flags
            && Net16(w, 14) == Swap16(h.window) && Net16(w, 16) == Swap16(h.check) && Net16(w, 18) == Swap16(h.urgPtr)
  {
    hide Le16, Le32, Swap16, Swap32, Net16, Net32;
    var w := SerializeTcp(h);
    Net16OfImage(w, 0, h.source);
    Net16OfImage(w, 2, h.dest);
    Net32OfImage(w, 4, h.seqNo);
    Net32OfImage(w, 8, h.ackNo);
    Net16OfImage(w, 14, h.window);
    Net16OfImage(w, 16, h.check);
    Net16OfImage(w, 18, h.urgPtr);
  }

  /** RFC 768. */
  lemma UdpWire(h: UdpHeader)
    ensures var w := SerializeUdp(h);
            && |w| == 8
            && Net16(w, 0) == Swap16(h.source) && Net16(w, 2) == Swap16(h.dest)
            && Net16(w, 4) == Swap16(h.len) && Net16(w, 6) == Swap16(h.check)
  {
    hide Le16, Swap16, Net16;
    var w := SerializeUdp(h);
    Net16OfImage(w, 0, h.source);
    Net16OfImage(w, 2, h.dest);
    Net16OfImage(w, 4, h.len);
    Net16OfImage(w, 6, h.check);
  }

  /** RFC 792, Echo or Echo Reply Message. */
  lemma IcmpWire(h: IcmpHeader)
    ensures var w := SerializeIcmp(h);
            && |w| == 8 && w[0] == h.kind && w[1] == h.code
            && Net16(w, 2) == Swap16(h.checksum) && Net16(w, 4) == Swap16(h.id) && Net16(w, 6) == Swap16(h.sequence)
  {
    hide Le16, Swap16, Net16;
    var w := SerializeIcmp(h);
    Net16OfImage(w, 2, h.checksum);
    Net16OfImage(w, 4, h.id);
    Net16OfImage(w, 6, h.sequence);
  }

  // ----- Packet construction -----

  lemma EchoRequestWire(p: Packet)
    requires p.IcmpPacket? && p.icmp.sequence == 0
    ensures var w := Serialize(p);
            && |w| == 8 && w[0] == p.icmp.kind && w[1] == p.icmp.code && w == SerializeIcmp(p.icmp)
            && Net16(w, 2) == Swap16(p.icmp.checksum) && (p.icmp.checksum == 0 ==> Net16(w, 2) == 0)
            && Net16(w, 4) == Swap16(p.icmp.id) && Net16(w, 6) == 0
  {
    IcmpWire(p.icmp);
    assert Swap16(0) == 0;
    hide Swap16, Net16, SerializeIcmp;
  }

  /** `CreateIcmp4Packet`, with the drawn random number as a parameter. */
  method CreateIcmp4Packet(source: SocketAddress, destination: SocketAddress, rand: nat) returns (r: Creation)
    ensures r.FamilyMismatch? <==> source.V4? != destination.V4?
    ensures r.Created? ==>
              && r.packet.IcmpPacket? && r.packet.source == source && r.packet.destination == destination
              && r.packet.icmp.kind == ICMP_ECHO && r.packet.icmp.code == 0 && r.packet.icmp.sequence == 0
              && Swap16(r.packet.icmp.id) == rand % 0x1_0000
              && Verifies(SerializeIcmp(r.packet.icmp))
    ensures r.Created? ==>
              var w := Serialize(r.packet);
              && |w| == 8 && w[0] == 8 && w[1] == 0 && Net16(w, 2) == Swap16(r.packet.icmp.checksum)
              && Net16(w, 4) == rand % 0x1_0000 && Net16(w, 6) == 0 && Verifies(w)
  {
    hide Verifies, SerializeIcmp, Serialize, Net16, Swap16;
    if source.V4? != destination.V4? {
      return FamilyMismatch;
    }
    var id := rand % 0x1_0000;
    Swap16Twice(id);
    var header := IcmpHeader(ICMP_ECHO, 0, 0, Swap16(id), 0);
    var checksum := ComputeIcmpHeaderChecksum(header);
    r := Created(IcmpPacket(source, destination, header.(checksum := checksum)));
    EchoRequestWire(r.packet);
  }

  /** `CreateIcmp6Packet`: the kernel fills in the checksum. */
  method CreateIcmp6Packet(source: SocketAddress, destination: SocketAddress, rand: nat) returns (r: Creation)
    ensures r.FamilyMismatch? <==> source.V4? != destination.V4?
    ensures r.Created? ==>
              && r.packet.IcmpPacket? && r.packet.source == source && r.packet.destination == destination
              && r.packet.icmp.kind == ICMP6_ECHO_REQUEST && r.packet.icmp.checksum == 0
              && r.packet.icmp.code == 0 && r.packet.icmp.sequence == 0
              && Swap16(r.packet.icmp.id) == rand % 0x1_0000
    ensures r.Created? ==>
              var w := Serialize(r.packet);
              && |w| == 8 && w[0] == 128 && w[1] == 0 && Net16(w, 2) == 0 && Net16(w, 4) == rand % 0x1_0000 && Net16(w, 6) == 0
  {
    hide Swap16, Net16, Serialize, SerializeIcmp;
    if source.V4? != destination.V4? {
      return FamilyMismatch;
    }
    var id := rand % 0x1_0000;
    Swap16Twice(id);
    r := Created(IcmpPacket(source, destination, IcmpHeader(ICMP6_ECHO_REQUEST, 0, 0, Swap16(id), 0)));
    EchoRequestWire(r.packet);
  }

  lemma SynWire(p: Packet)
    requires p.TcpPacket? && p.tcp.ackNo == 0
    ensures var w := Serialize(p);
            && |w| == 20
            && Net16(w, 0) == Swap16(p.tcp.source) && Net16(w, 2) == Swap16(p.tcp.dest)
            && Net32(w, 4) == Swap32(p.tcp.seqNo) && Net32(w, 8) == 0
            && w[12] == 16 * (p.tcp.dataOffset as int) + p.tcp.unused && w[13] == p.tcp.flags
            && Net16(w, 14) == Swap16(p.tcp.window)
            && Net16(w, 16) == Swap16(p.tcp.check) && Net16(w, 18) == Swap16(p.tcp.urgPtr)
  {
    TcpWire(p.tcp);
    assert Swap32(0) == 0;
    hide Swap16, Swap32, Net16, Net32, SerializeTcp;
  }

  lemma UdpPacketWire(p: Packet)
    requires p.UdpPacket?
    ensures var w := Serialize(p);
            && |w| == 8
            && Net16(w, 0) == Swap16(p.udp.source) && Net16(w, 2) == Swap16(p.udp.dest)
            && Net16(w, 4) == Swap16(p.udp.len) && Net16(w, 6) == Swap16(p.udp.check)
  {
    UdpWire(p.udp);
    hide Swap16, Net16, SerializeUdp;
  }

  /**
   The `TcpPacket` constructor. The urgent pointer is never assigned, so it is a
   parameter; `dport` is truncated to 16 bits by `htons`.
   */
  method CreateTcpPacket(source: SocketAddress, destination: SocketAddress, dport: int,
                         portRand: nat, seqRand: nat, urgPtr: Word16) returns (r: Creation)
    ensures r.FamilyMismatch? <==> source.V4? != destination.V4?
    ensures r.Created? ==>
              && r.packet.TcpPacket? && r.packet.source == source && r.packet.destination == destination
              && Swap16(r.packet.tcp.source) == 50000 + portRand % 15001
              && Swap16(r.packet.tcp.dest) == dport % 0x1_0000
              && Swap32(r.packet.tcp.seqNo) == seqRand % 65001 && r.packet.tcp.ackNo == 0
              && r.packet.tcp.unused == 0 && r.packet.tcp.dataOffset == 5 && r.packet.tcp.flags == 0x02
              && r.packet.tcp.window == Swap16(5760) && r.packet.tcp.urgPtr == urgPtr
              && (source.V6? ==> r.packet.tcp.check == 0)
              && (source.V4? ==> Verifies(PseudoHeader(source.octets, destination.octets, IPPROTO_TCP, TCP_HEADER_SIZE)
                                          + SerializeTcp(r.packet.tcp)))
    ensures r.Created? ==>
              var w := Serialize(r.packet);
              && |w| == 20
              && Net16(w, 0) == 50000 + portRand % 15001 && Net16(w, 2) == dport % 0x1_0000
              && Net32(w, 4) == seqRand % 65001 && Net32(w, 8) == 0
              && w[12] == 0x50 && w[13] == 0x02 && Net16(w, 14) == 5760
              && Net16(w, 16) == Swap16(r.packet.tcp.check) && Net16(w, 18) == Swap16(urgPtr)
  {
    hide Verifies, SerializeTcp, PseudoHeader, Sum;
    if source.V4? != destination.V4? {
      return FamilyMismatch;
    }
    hide Swap16, Swap32, Net16, Net32, Serialize;
    var sport, port, seqNo := 50000 + portRand % 15001, dport % 0x1_0000, seqRand % 65001;
    Swap16Twice(sport);
    Swap16Twice(port);
    Swap32Twice(seqNo);
    Swap16Twice(5760);
    var header := TcpHeader(Swap16(sport), Swap16(port), Swap32(seqNo), 0, 0, 5, 0x02, Swap16(5760), 0, urgPtr);
    if source.V4? {
      var check := ComputeTcpHeaderChecksum(header, source.octets, destination.octets);
      header := header.(check := check);
    }
    r := Created(TcpPacket(source, destination, header));
    SynWire(r.packet);
  }

  /** The `UdpPacket` constructor. */
  method CreateUdpPacket(source: SocketAddress, destination: SocketAddress, dport: int, portRand: nat)
    returns (r: Creation)
    ensures r.FamilyMismatch? <==> source.V4? != destination.V4?
    ensures r.Created? ==>
              && r.packet.UdpPacket? && r.packet.source == source && r.packet.destination == destination
              && Swap16(r.packet.udp.source) == 50000 + portRand % 15001
              && Swap16(r.packet.udp.dest) == dport % 0x1_0000
              && Swap16(r.packet.udp.len) == UDP_HEADER_SIZE
              && (source.V6? ==> r.packet.udp.check == 0)
              && (source.V4? ==> Verifies(PseudoHeader(source.octets, destination.octets, IPPROTO_UDP, UDP_HEADER_SIZE)
                                          + SerializeUdp(r.packet.udp)))
    ensures r.Created? ==>
              var w := Serialize(r.packet);
              && |w| == 8
              && Net16(w, 0) == 50000 + portRand % 15001 && Net16(w, 2) == dport % 0x1_0000
              && Net16(w, 4) == 8 && Net16(w, 6) == Swap16(r.packet.udp.check)
  {
    hide Verifies, SerializeUdp, PseudoHeader, Sum;
    if source.V4? != destination.V4? {
      return FamilyMismatch;
    }
    hide Swap16, Net16, Serialize;
    var sport, port := 50000 + portRand % 15001, dport % 0x1_0000;
    Swap16Twice(sport);
    Swap16Twice(port);
    Swap16Twice(UDP_HEADER_SIZE);
    var header := UdpHeader(Swap16(sport), Swap16(port), Swap16(UDP_HEADER_SIZE), 0);
    if source.V4? {
      var check := ComputeUdpHeaderChecksum(header, source.octets, destination.octets);
      header := header.(check := check);
    }
    r := Created(UdpPacket(source, destination, header));
    UdpPacketWire(r.packet);
  }

  // ----- The zero checksum of UDP -----

  /**
   The stored field is zero exactly when the folded sum is all ones, that is when
   the sum of pseudo header and header is a multiple of 65535. RFC 768 reserves
   the zero field for "no checksum"; the source does not replace it.
   */
  lemma UdpFieldIsZero(header: UdpHeader, source: Octets4, destination: Octets4)
    ensures var prior := Sum(LeWords(PseudoHeader(source, destination, IPPROTO_UDP, UDP_HEADER_SIZE)));
            var bytes := SerializeUdp(header.(check := 0));
            && (CodeChecksum(prior, bytes) == 0 <==> Fold(prior + Sum(LeWords(bytes))) == 0xFFFF)
            && (CodeChecksum(prior, bytes) == 0 <==> (prior + Sum(LeWords(bytes))) % 0xFFFF == 0)
  {
    hide LeWords, Sum, Fold, PseudoHeader, SerializeUdp;
    var prior := Sum(LeWords(PseudoHeader(source, destination, IPPROTO_UDP, UDP_HEADER_SIZE)));
    assert prior > 0 by { PseudoHeaderSum(source, destination, IPPROTO_UDP, UDP_HEADER_SIZE); }
    FoldMeaning(prior + Sum(LeWords(SerializeUdp(header.(check := 0)))));
  }

  /** A probe from 192.168.121.147 port 50000 to 1.1.1.1 port 80 is sent with a zero checksum field. */
  lemma UdpZeroFieldHappens()
    ensures CodeChecksum(Sum(LeWords(PseudoHeader([192, 168, 121, 147], [1, 1, 1, 1], IPPROTO_UDP, UDP_HEADER_SIZE))),
                         SerializeUdp(UdpHeader(Swap16(50000), Swap16(80), Swap16(UDP_HEADER_SIZE), 0))) == 0
  {
    hide LeWords, Sum, Fold, PseudoHeader, SerializeUdp, CodeChecksum;
    var header := UdpHeader(Swap16(50000), Swap16(80), Swap16(UDP_HEADER_SIZE), 0);
    var s: Octets4, d: Octets4 := [192, 168, 121, 147], [1, 1, 1, 1];
    PseudoHeaderSum(s, d, IPPROTO_UDP, UDP_HEADER_SIZE);
    AddressWords(s);
    AddressWords(d);
    UdpHeaderSum(header);
    assert header.(check := 0) == header;
    UdpFieldIsZero(header, s, d);
  }

  lemma NothingToSum()
    ensures Sum(LeWords([])) == 0
  {
  }

  lemma UdpHeaderSum(h: UdpHeader)
    ensures Sum(LeWords(SerializeUdp(h))) == h.source + h.dest + h.len + h.check
  {
    hide LeWords, Sum, Le16;
    assert [] + Le16(h.source) + [] == Le16(h.source);
    assert Sum(LeWords([])) == 0 by { NothingToSum(); }
    assert Le16(h.source) + Le16(h.dest) + [] == Le16(h.source) + Le16(h.dest);
    assert Le16(h.source) + Le16(h.dest) + Le16(h.len) + [] == Le16(h.source) + Le16(h.dest) + Le16(h.len);
    FieldSum([], h.source, []);
    FieldSum(Le16(h.source), h.dest, []);
    FieldSum(Le16(h.source) + Le16(h.dest), h.len, []);
    FieldSum(Le16(h.source) + Le16(h.dest) + Le16(h.len), h.check, []);
  }
}
