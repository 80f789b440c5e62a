/** Addresses, protocol headers and the bytes `serialize` produces for them. */
module Headers {
  import opened Bytes

  type Octets4 = s: seq<Byte> | |s| == 4 witness [0, 0, 0, 0]
  type Octets16 = s: seq<Byte> | |s| == 16 witness [0, 0, 0, 0, 0, 0, 0, 0, 0, 0, 0, 0, 0, 0, 0, 0]
  type Nibble = x: int | 0 <= x < 16

  datatype SocketAddress = V4(octets: Octets4) | V6(segments: Octets16)

  // Every field holds the host's reading of its memory, so a field assigned
  // `htons(x)` holds Swap16(x).

  datatype IcmpHeader = IcmpHeader(kind: Byte, code: Byte, checksum: Word16, id: Word16, sequence: Word16)

  datatype TcpHeader = TcpHeader(
    source: Word16, dest: Word16, seqNo: Word32, ackNo: Word32,
    unused: Nibble, dataOffset: Nibble, flags: Byte, window: Word16, check: Word16, urgPtr: Word16)

  datatype UdpHeader = UdpHeader(source: Word16, dest: Word16, len: Word16, check: Word16)

  const ICMP_HEADER_SIZE := 8
  const TCP_HEADER_SIZE := 20
  const UDP_HEADER_SIZE := 8
  const IPV6_HEADER_SIZE := 40

  const ICMP_ECHOREPLY := 0
  const ICMP_DEST_UNREACH := 3
  const ICMP_ECHO := 8
  const ICMP_TIME_EXCEEDED := 11
  const ICMP6_DST_UNREACH := 1
  const ICMP6_TIME_EXCEEDED := 3
  const ICMP6_ECHO_REQUEST := 128
  const ICMP6_ECHO_REPLY := 129

  const IPPROTO_ICMP := 1
  const IPPROTO_TCP := 6
  const IPPROTO_UDP := 17
  const IPPROTO_ICMPV6 := 58

  function SerializeIcmp(h: IcmpHeader): seq<Byte> {
    [h.kind, h.code] + Le16(h.checksum) + (Le16(h.id) + Le16(h.sequence))
  }

  /** The sixteen bytes of a TCP header that come before its checksum. */
  function TcpBeforeCheck(h: TcpHeader): seq<Byte> {
    Le16(h.source) + Le16(h.dest) + Le32(h.seqNo) + Le32(h.ackNo)
    + [h.unused + 16 * (h.dataOffset as int), h.flags] + Le16(h.window)
  }

  function SerializeTcp(h: TcpHeader): seq<Byte> {
    TcpBeforeCheck(h) + Le16(h.check) + Le16(h.urgPtr)
  }

  function SerializeUdp(h: UdpHeader): seq<Byte> {
    Le16(h.source) + Le16(h.dest) + Le16(h.len) + Le16(h.check) + []
  }

  /** The IPv4 pseudo header of section 3.1 of RFC 793, as it would be on the wire. */
  function PseudoHeader(source: Octets4, destination: Octets4, protocol: Byte, length: Word16): (bytes: seq<Byte>)
    ensures |bytes| == 12 && bytes[..4] == source && bytes[4..8] == destination
    ensures bytes[8] == 0 && bytes[9] == protocol && 0x100 * bytes[10] as int + bytes[11] == length
  {
    source + destination + [0, protocol] + Be16(length)
  }
}
