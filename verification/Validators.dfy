/**
 The response validators: which probe a received message belongs to.

 A message sits at the start of a 4096-byte buffer; the bytes after it are left
 over from earlier messages. An offset into the buffer plays the part of the
 source's `const char *`, and a size that the source reduces by a header length
 wraps modulo 2^64 as its `size_t` does.
 */
module Validators {
  import opened Bytes
  import opened Headers
  import opened Packets

  const BUFFER_SIZE := 4096

  type Buffer = b: seq<Byte> | |b| == BUFFER_SIZE witness seq(BUFFER_SIZE, _ => 0)

  datatype ResponseInfo = ResponseInfo(client: SocketAddress, protocol: int, size: Word64)

  datatype Response = Response(info: ResponseInfo, buffer: Buffer)

  /** `isValid` returns true, returns false, or throws. */
  datatype Verdict = Accepted | Rejected | Threw

  datatype HeaderSize = Bytes(count: nat) | UnknownVersion

  /** The classes derived from `ResponseValidator`. */
  datatype Validator = IcmpValidator | IcmpToTcpValidator | TcpToTcpValidator | UdpValidator

  function Decide(holds: bool): Verdict {
    if holds then Accepted else Rejected
  }

  // ----- common.cpp -----

  function VersionAt(b: Buffer, at: nat): nat
    requires at < BUFFER_SIZE
  {
    b[at] / 16
  }

  function GetIpHeaderSize(b: Buffer, at: nat): (size: HeaderSize)
    requires at < BUFFER_SIZE
    ensures size.Bytes? ==> size.count <= 60
  {
    if VersionAt(b, at) == 4 then Bytes(b[at] % 16 * 4)
    else if VersionAt(b, at) == 6 then Bytes(IPV6_HEADER_SIZE)
    else UnknownVersion
  }

  predicate IsIpHeaderPresent(b: Buffer) {
    VersionAt(b, 0) == 4 || VersionAt(b, 0) == 6
  }

  /** The offset at which the validator looks for the transport message. */
  function PayloadOffset(b: Buffer): (at: nat)
    ensures at <= 60
  {
    if IsIpHeaderPresent(b) then GetIpHeaderSize(b, 0).count else 0
  }

  // ----- The four validators -----

  function ValidateProtocol(v: Validator, protocol: int): bool {
    match v
    case TcpToTcpValidator => protocol == IPPROTO_TCP
    case _ => protocol == IPPROTO_ICMP || protocol == IPPROTO_ICMPV6
  }

  function ValidateSize(v: Validator, size: Word64): bool {
    match v
    case IcmpValidator => size >= ICMP_HEADER_SIZE
    case IcmpToTcpValidator => size >= ICMP_HEADER_SIZE + TCP_HEADER_SIZE
    case TcpToTcpValidator => size >= TCP_HEADER_SIZE
    case UdpValidator => size >= ICMP_HEADER_SIZE + UDP_HEADER_SIZE
  }

  /** `validateTimeExceeded` for an ICMP probe: the id in the quoted echo request. */
  function QuotedId(b: Buffer, at: nat, id: Word16): Verdict
    requires at <= 60
  {
    match GetIpHeaderSize(b, at + ICMP_HEADER_SIZE)
    case UnknownVersion => Threw
    case Bytes(n) => Decide(Load16(b, at + ICMP_HEADER_SIZE + n + 4) == id)
  }

  /** `validateSameSequence` behind `advanceToTcpHeader`: the quoted sequence number. */
  function QuotedSequence(b: Buffer, at: nat, seqNo: Word32): Verdict
    requires at <= 60
  {
    match GetIpHeaderSize(b, at + ICMP_HEADER_SIZE)
    case UnknownVersion => Threw
    case Bytes(n) => Decide(Load32(b, at + ICMP_HEADER_SIZE + n + 4) == seqNo)
  }

  function IcmpFields(p: Packet, client: SocketAddress, b: Buffer, at: nat): Verdict
    requires p.IcmpPacket? && at <= 60
  {
    var kind := b[at];
    if kind == ICMP_ECHOREPLY || kind == ICMP6_ECHO_REPLY then
      Decide(client == p.destination && Load16(b, at + 4) == p.icmp.id)
    else if kind == ICMP_TIME_EXCEEDED || kind == ICMP6_TIME_EXCEEDED then
      QuotedId(b, at, p.icmp.id)
    else
      Rejected
  }

  function IcmpToTcpFields(p: Packet, client: SocketAddress, b: Buffer, at: nat): Verdict
    requires p.TcpPacket? && at <= 60
  {
    var kind := b[at];
    if kind == (if client.V4? then ICMP_DEST_UNREACH else ICMP6_DST_UNREACH) then
      if client == p.destination then QuotedSequence(b, at, p.tcp.seqNo) else Rejected
    else if kind == (if client.V4? then ICMP_TIME_EXCEEDED else ICMP6_TIME_EXCEEDED) then
      QuotedSequence(b, at, p.tcp.seqNo)
    else
      Rejected
  }

  /** The acknowledgement must be one past the sequence number, modulo 2^32. */
  function TcpToTcpFields(p: Packet, client: SocketAddress, b: Buffer, at: nat): Verdict
    requires p.TcpPacket? && at <= 60
  {
    Decide(p.destination == client
           && (Swap32(Load32(b, at + 8)) - 1) % TWO_TO_32 == Swap32(p.tcp.seqNo))
  }

  function UdpFields(p: Packet, client: SocketAddress, b: Buffer, at: nat): Verdict
    requires p.UdpPacket? && at <= 60
  {
    var kind := b[at];
    if client.V4? then
      Decide(kind == (if p.destination == client then ICMP_DEST_UNREACH else ICMP_TIME_EXCEEDED))
    else
      Decide(kind == (if p.destination == client then ICMP6_DST_UNREACH else ICMP6_TIME_EXCEEDED))
  }

  /** A validator only ever serves packets of its own kind. */
  predicate Serves(v: Validator, p: Packet) {
    match v
    case IcmpValidator => p.IcmpPacket?
    case UdpValidator => p.UdpPacket?
    case _ => p.TcpPacket?
  }

  function ValidateFields(v: Validator, p: Packet, client: SocketAddress, b: Buffer, at: nat): Verdict
    requires Serves(v, p) && at <= 60
  {
    match v
    case IcmpValidator => IcmpFields(p, client, b, at)
    case IcmpToTcpValidator => IcmpToTcpFields(p, client, b, at)
    case TcpToTcpValidator => TcpToTcpFields(p, client, b, at)
    case UdpValidator => UdpFields(p, client, b, at)
  }

  /** The three checks, in the source's order, on the message at `at`. */
  function ValidateAll(v: Validator, p: Packet, info: ResponseInfo, b: Buffer, at: nat): Verdict
    requires Serves(v, p) && at <= 60
  {
    if ValidateProtocol(v, info.protocol) && ValidateSize(v, info.size)
    then ValidateFields(v, p, info.client, b, at)
    else Rejected
  }

  /** `skipIpHeader`: what is left of the message, its size reduced modulo 2^64. */
  function Stripped(info: ResponseInfo, header: nat): ResponseInfo {
    info.(size := (info.size - header) % TWO_TO_64)
  }

  /** `ResponseValidator::isValid`. */
  function RunValidator(v: Validator, p: Packet, info: ResponseInfo, b: Buffer): Verdict
    requires Serves(v, p)
  {
    if info.size < 1 then Threw
    else if IsIpHeaderPresent(b) then ValidateAll(v, p, Stripped(info, PayloadOffset(b)), b, PayloadOffset(b))
    else ValidateAll(v, p, info, b, 0)
  }

  /** `Packet::isValid`, with the dispatch of `TcpResponseValidator`. */
  function IsValid(p: Packet, r: Response): Verdict {
    match p
    case IcmpPacket(_, _, _) => RunValidator(IcmpValidator, p, r.info, r.buffer)
    case UdpPacket(_, _, _) => RunValidator(UdpValidator, p, r.info, r.buffer)
    case TcpPacket(_, _, _) =>
      if r.info.protocol == IPPROTO_ICMP || r.info.protocol == IPPROTO_ICMPV6 then
        RunValidator(IcmpToTcpValidator, p, r.info, r.buffer)
      else if r.info.protocol == IPPROTO_TCP then
        RunValidator(TcpToTcpValidator, p, r.info, r.buffer)
      else
        Rejected
  }
}
