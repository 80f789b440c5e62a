/**
 The genuine replies to a probe, byte by byte, and the round trip from the
 serialized probe through the network back to the validator. What arrives is
 described with the numbers of the standards (RFC 791, RFC 792, RFC 4443 and the
 assigned protocol numbers), not with the constants the validators compare with.
 */
module Replies {
  import opened Bytes
  import opened Headers
  import opened Packets
  import opened ProbeResults
  import opened Validators
  import opened ValidatorProofs
  import opened ValidatorReads

  /** An IP header as a router writes it: IPv4 with 0 to 10 option words, or the fixed IPv6 header. */
  predicate LegalIpHeader(h: seq<Byte>, v4: bool) {
    && |h| > 0
    && if v4 then h[0] / 16 == 4 && 5 <= h[0] % 16 && |h| == h[0] % 16 * 4
       else h[0] / 16 == 6 && |h| == 40
  }

  /**
   A message as a raw socket delivers it: behind its IP header over IPv4, bare over
   IPv6, at the start of the buffer. Anything may follow it.
   */
  predicate Arrives(r: Response, outer: seq<Byte>, message: seq<Byte>) {
    && (if r.info.client.V4? then LegalIpHeader(outer, true) else outer == [])
    && |outer + message| <= r.info.size <= BUFFER_SIZE
    && r.buffer[..|outer + message|] == outer + message
  }

  /** The protocol number of the socket that received an ICMP message. */
  predicate OverIcmp(info: ResponseInfo) {
    info.protocol == if info.client.V4? then 1 else 58
  }

  /** A first byte that is not taken for an IP header; an IPv4 header of length zero skips nothing. */
  predicate StandsBare(first: Byte) {
    first == 0x40 || (first / 16 != 4 && first / 16 != 6)
  }

  /** The outer header is skipped, and nothing else is, exactly when there is one or the message stands bare. */
  lemma OuterHeaderDetected(r: Response, outer: seq<Byte>, message: seq<Byte>)
    requires Arrives(r, outer, message) && message != []
    ensures PayloadOffset(r.buffer) == |outer| <==> outer != [] || StandsBare(message[0])
  {
    var whole := outer + message;
    assert r.buffer[0] == whole[0] == r.buffer[..|whole|][0];
    assert outer != [] ==> whole[0] == outer[0];
  }

  /** The bytes of the message are found behind the outer header, and the size is reduced by it. */
  lemma ArrivalLayout(r: Response, outer: seq<Byte>, message: seq<Byte>)
    requires Arrives(r, outer, message) && message != []
    requires outer == [] ==> StandsBare(message[0])
    ensures |outer| <= 60 && PayloadOffset(r.buffer) == |outer|
    ensures r.buffer[|outer|..|outer| + |message|] == message
    ensures r.buffer[|outer|] == message[0]
    ensures (r.info.size - |outer|) % TWO_TO_64 == r.info.size - |outer| >= |message|
    ensures !IsIpHeaderPresent(r.buffer) ==> outer == []
  {
    OuterHeaderDetected(r, outer, message);
    var whole, b := outer + message, r.buffer;
    assert whole[|outer|..] == message;
    assert b[|outer|..|whole|] == b[..|whole|][|outer|..];
    assert b[|outer|] == b[..|whole|][|outer|] == whole[|outer|];
  }

  /** So a validator runs its checks on the message itself. */
  lemma ArrivedValidation(v: Validator, p: Packet, r: Response, outer: seq<Byte>, message: seq<Byte>)
    requires Serves(v, p) && Arrives(r, outer, message) && message != []
    requires outer == [] ==> StandsBare(message[0])
    ensures |outer| <= 60
    ensures RunValidator(v, p, r.info, r.buffer)
         == ValidateAll(v, p, r.info.(size := r.info.size - |outer|), r.buffer, |outer|)
  {
    ArrivalLayout(r, outer, message);
    hide Arrives, ValidateAll, PayloadOffset, GetIpHeaderSize;
    assert Stripped(r.info, |outer|) == r.info.(size := r.info.size - |outer|);
    assert !IsIpHeaderPresent(r.buffer) ==> |outer| == 0;
  }

  /** When protocol and size are right, the verdict is that of the fields of the message itself. */
  lemma ArrivedVerdict(v: Validator, p: Packet, r: Response, outer: seq<Byte>, message: seq<Byte>)
    requires Dispatch(p, r.info.protocol) == Some(v)
    requires Arrives(r, outer, message) && message != [] && (outer == [] ==> StandsBare(message[0]))
    requires ValidateProtocol(v, r.info.protocol) && ValidateSize(v, r.info.size - |outer|)
    ensures |outer| <= 60 && IsValid(p, r) == ValidateFields(v, p, r.info.client, r.buffer, |outer|)
  {
    ArrivalLayout(r, outer, message);
    VerdictOfFields(p, r.info, r.buffer);
    hide Arrives, IsValid, ValidateFields, PayloadOffset, Dispatch;
  }

  // ----- Error messages that quote the probe -----

  /** ICMP header, inner IP header and the first eight bytes of the probe. */
  function ErrorMessage(q: Packet, icmp: seq<Byte>, inner: seq<Byte>): seq<Byte> {
    icmp + inner + Serialize(q)[..8]
  }

  /** An ICMP message of any type laid out like an error that quotes the probe. */
  predicate Quotes(q: Packet, r: Response, outer: seq<Byte>, icmp: seq<Byte>, inner: seq<Byte>) {
    && |icmp| == 8
    && LegalIpHeader(inner, r.info.client.V4?)
    && OverIcmp(r.info)
    && Arrives(r, outer, ErrorMessage(q, icmp, inner))
  }

  lemma ErrorLayout(q: Packet, b: Buffer, at: nat, icmp: seq<Byte>, inner: seq<Byte>)
    requires |icmp| == ICMP_HEADER_SIZE && 0 < |inner| <= 60
    requires at + |ErrorMessage(q, icmp, inner)| <= BUFFER_SIZE
    requires b[at..at + |ErrorMessage(q, icmp, inner)|] == ErrorMessage(q, icmp, inner)
    ensures b[at + ICMP_HEADER_SIZE] == inner[0]
    ensures var quote := at + ICMP_HEADER_SIZE + |inner|; b[quote..quote + 8] == Serialize(q)[..8]
  {
    var message := ErrorMessage(q, icmp, inner);
    var slice := b[at..at + |message|];
    var quote := ICMP_HEADER_SIZE + |inner|;
    assert message[ICMP_HEADER_SIZE] == inner[0];
    assert b[at + ICMP_HEADER_SIZE] == slice[ICMP_HEADER_SIZE];
    assert message[quote..] == Serialize(q)[..8];
    SliceOfSlice(b, at, |message|, quote, |message|);
  }

  lemma SliceOfSlice(b: seq<Byte>, at: nat, n: nat, from: nat, to: nat)
    requires from <= to <= n && at + n <= |b|
    ensures b[at + from..at + to] == b[at..at + n][from..to]
  {
    var s := b[at..at + n];
    assert |b[at + from..at + to]| == |s[from..to]|;
    forall i | 0 <= i < to - from ensures b[at + from..at + to][i] == s[from..to][i] {
      assert s[from..to][i] == s[from + i] == b[at + (from + i)];
    }
  }

  lemma SequenceField(h: TcpHeader)
    ensures SerializeTcp(h)[..8][4..8] == Le32(h.seqNo)
    ensures SerializeTcp(h)[8..12] == Le32(h.ackNo)
    ensures |SerializeTcp(h)| == 20 && SerializeTcp(h)[0] == Le16(h.source)[0]
  {
    hide Le16, Le32;
    var ports := Le16(h.source) + Le16(h.dest);
    var rest := [h.unused + 16 * (h.dataOffset as int), h.flags] + Le16(h.window) + Le16(h.check) + Le16(h.urgPtr);
    assert SerializeTcp(h) == (ports + Le32(h.seqNo)) + (Le32(h.ackNo) + rest);
    assert SerializeTcp(h)[..8] == ports + Le32(h.seqNo);
  }

  /** The eight quoted bytes contain the field the validators compare. */
  lemma QuotedField(q: Packet, b: Buffer, at: nat)
    requires at + 8 <= BUFFER_SIZE && b[at..at + 8] == Serialize(q)[..8]
    ensures q.IcmpPacket? ==> Load16(b, at + 4) == q.icmp.id
    ensures q.TcpPacket? ==> Load32(b, at + 4) == q.tcp.seqNo
  {
    hide Load16, Load32;
    if q.IcmpPacket? {
      hide Le16;
      assert Serialize(q)[..8][4..6] == Le16(q.icmp.id);
      SliceOfSlice(b, at, 8, 4, 6);
      Load16OfImage(b, at + 4, q.icmp.id);
    }
    if q.TcpPacket? {
      SequenceField(q.tcp);
      hide Le32, SerializeTcp;
      SliceOfSlice(b, at, 8, 4, 8);
      Load32OfImage(b, at + 4, q.tcp.seqNo);
    }
  }

  /** What the validators read of a message that quotes `q`. */
  lemma QuoteRead(q: Packet, r: Response, outer: seq<Byte>, icmp: seq<Byte>, inner: seq<Byte>)
    requires !q.UdpPacket? && Quotes(q, r, outer, icmp, inner) && (outer == [] ==> StandsBare(icmp[0]))
    ensures |outer| <= 60 && r.buffer[|outer|] == icmp[0] && 0 < |inner| <= 60
    ensures r.info.size - |outer| >= ICMP_HEADER_SIZE + TCP_HEADER_SIZE
    ensures GetIpHeaderSize(r.buffer, |outer| + ICMP_HEADER_SIZE) == Bytes(|inner|)
    ensures var field := |outer| + ICMP_HEADER_SIZE + |inner| + 4;
            && (q.IcmpPacket? ==> Load16(r.buffer, field) == q.icmp.id)
            && (q.TcpPacket? ==> Load32(r.buffer, field) == q.tcp.seqNo)
  {
    hide Load16, Load32, Serialize;
    var message, at, b := ErrorMessage(q, icmp, inner), |outer|, r.buffer;
    assert message[0] == icmp[0] && |message| == ICMP_HEADER_SIZE + |inner| + 8;
    ArrivalLayout(r, outer, message);
    ErrorLayout(q, b, at, icmp, inner);
    QuotedField(q, b, at + ICMP_HEADER_SIZE + |inner|);
  }

  /** The verdict of the fields, given what they are. */
  lemma QuoteJudged(v: Validator, p: Packet, q: Packet, client: SocketAddress, b: Buffer, at: nat, n: nat)
    requires SameTarget(p, q) && !q.UdpPacket? && at <= 60 && n <= 60
    requires v == if p.IcmpPacket? then IcmpValidator else IcmpToTcpValidator
    requires b[at] != ICMP_ECHOREPLY && b[at] != ICMP6_ECHO_REPLY
    requires GetIpHeaderSize(b, at + ICMP_HEADER_SIZE) == Bytes(n)
    requires q.IcmpPacket? ==> Load16(b, at + ICMP_HEADER_SIZE + n + 4) == q.icmp.id
    requires q.TcpPacket? ==> Load32(b, at + ICMP_HEADER_SIZE + n + 4) == q.tcp.seqNo
    ensures ValidateFields(v, p, client, b, at)
         == if ErrorKind(q, b[at], client) && SameIdentity(p, q) then Accepted else Rejected
  {
    hide Load16, Load32, GetIpHeaderSize;
  }

  /**
   Serialize-then-quote round trip, for every ICMP type but echo reply and every legal
   outer and inner header length: a message that quotes `q` is accepted by a probe of
   the same target exactly when it is of a type that leads to the quoted header and
   the two have the same id or sequence number, and otherwise rejected.
   */
  lemma QuotedProbeRoundTrip(p: Packet, q: Packet, r: Response, outer: seq<Byte>, icmp: seq<Byte>, inner: seq<Byte>)
    requires SameTarget(p, q) && !q.UdpPacket?
    requires Quotes(q, r, outer, icmp, inner) && (outer == [] ==> StandsBare(icmp[0]))
    requires icmp[0] != 0 && icmp[0] != 129
    ensures IsValid(p, r) == if ErrorKind(q, icmp[0], r.info.client) && SameIdentity(p, q) then Accepted else Rejected
  {
    hide IsValid, GetIpHeaderSize, Load16, Load32, ValidateFields, ErrorKind, SameIdentity, PayloadOffset, ErrorMessage, Arrives, Serialize;
    var v := if p.IcmpPacket? then IcmpValidator else IcmpToTcpValidator;
    MessageStart(q, icmp, inner);
    QuoteRead(q, r, outer, icmp, inner);
    SizeOfQuote(v, r, |outer|);
    assert Dispatch(p, r.info.protocol) == Some(v);
    hide ValidateProtocol, ValidateSize, Dispatch, StandsBare, LegalIpHeader;
    ArrivedVerdict(v, p, r, outer, ErrorMessage(q, icmp, inner));
    QuoteJudged(v, p, q, r.info.client, r.buffer, |outer|, |inner|);
  }

  lemma MessageStart(q: Packet, icmp: seq<Byte>, inner: seq<Byte>)
    requires |icmp| == ICMP_HEADER_SIZE
    ensures ErrorMessage(q, icmp, inner) != [] && ErrorMessage(q, icmp, inner)[0] == icmp[0]
  {
  }

  lemma SizeOfQuote(v: Validator, r: Response, at: nat)
    requires (v == IcmpValidator || v == IcmpToTcpValidator) && OverIcmp(r.info)
    requires r.info.size - at >= ICMP_HEADER_SIZE + TCP_HEADER_SIZE
    ensures ValidateProtocol(v, r.info.protocol) && ValidateSize(v, r.info.size - at)
  {
  }

  /** The types that lead to the quoted header, in numbers. */
  lemma ErrorKindInNumbers(p: Packet, kind: Byte, client: SocketAddress)
    ensures ErrorKind(p, kind, client) <==>
            match p
            case IcmpPacket(_, _, _) => kind == 11 || kind == 3
            case TcpPacket(_, _, _) =>
              if client.V4? then kind == 11 || (kind == 3 && client == p.destination)
              else kind == 3 || (kind == 1 && client == p.destination)
            case UdpPacket(_, _, _) => false
  {
  }

  /**
   So ICMP and TCP probes accept a time-exceeded message that quotes them from any hop,
   and a TCP probe a destination-unreachable message from the destination.
   */
  lemma ErrorAccepted(p: Packet, r: Response, outer: seq<Byte>, icmp: seq<Byte>, inner: seq<Byte>)
    requires !p.UdpPacket? && Quotes(p, r, outer, icmp, inner)
    requires || icmp[0] == (if r.info.client.V4? then 11 else 3)
             || (p.TcpPacket? && r.info.client == p.destination && icmp[0] == (if r.info.client.V4? then 3 else 1))
    ensures IsValid(p, r) == Accepted
  {
    ErrorKindInNumbers(p, icmp[0], r.info.client);
    hide ErrorKind, Quotes, IsValid;
    QuotedProbeRoundTrip(p, p, r, outer, icmp, inner);
  }

  // ----- Direct replies from the destination -----

  predicate IsEchoReplyFor(q: Packet, r: Response, outer: seq<Byte>, h: IcmpHeader) {
    && q.IcmpPacket? && r.info.client == q.destination && OverIcmp(r.info)
    && h.kind == (if r.info.client.V4? then 0 else 129)
    && h.id == q.icmp.id
    && Arrives(r, outer, SerializeIcmp(h))
  }

  /** A segment acknowledging one past the probe's sequence number. */
  predicate IsTcpReplyFor(q: Packet, r: Response, outer: seq<Byte>, h: TcpHeader) {
    && q.TcpPacket? && r.info.client == q.destination && r.info.protocol == 6
    && Swap32(h.ackNo) == (Swap32(q.tcp.seqNo) + 1) % TWO_TO_32
    && Arrives(r, outer, SerializeTcp(h))
  }

  /** The source ports whose high byte, the first of a bare segment, reads as that of an IP header. */
  predicate LooksLikeIpHeader(port: Word16) {
    16640 <= port <= 20479 || 24576 <= port <= 28671
  }

  lemma EchoReplyRoundTrip(p: Packet, q: Packet, r: Response, outer: seq<Byte>, h: IcmpHeader)
    requires SameTarget(p, q) && IsEchoReplyFor(q, r, outer, h)
    ensures IsValid(p, r) == if SameIdentity(p, q) then Accepted else Rejected
  {
    hide Load16, Le16;
    var message, at, b := SerializeIcmp(h), |outer|, r.buffer;
    assert message[0] == h.kind && |message| == 8 && message[4..6] == Le16(h.id);
    ArrivalLayout(r, outer, message);
    SliceOfSlice(b, at, 8, 4, 6);
    Load16OfImage(b, at + 4, h.id);
    ArrivedValidation(IcmpValidator, p, r, outer, message);
    hide GetIpHeaderSize, PayloadOffset, Arrives, RunValidator;
  }

  /** One past a sequence number modulo 2^32, less one modulo 2^32, is the sequence number. */
  lemma AcknowledgementMeaning(s: Word32, t: Word32)
    ensures ((t + 1) % TWO_TO_32 - 1) % TWO_TO_32 == s <==> t == s
  {
  }

  lemma PortByte(w: Word16)
    ensures Le16(w)[0] == w % 0x100 == Swap16(w) / 0x100
    ensures LooksLikeIpHeader(Swap16(w)) <==> !StandsBare(w % 0x100)
  {
  }

  lemma TcpReplyRoundTrip(p: Packet, q: Packet, r: Response, outer: seq<Byte>, h: TcpHeader)
    requires SameTarget(p, q) && IsTcpReplyFor(q, r, outer, h)
    requires outer == [] ==> !LooksLikeIpHeader(Swap16(h.source))
    ensures IsValid(p, r) == if SameIdentity(p, q) then Accepted else Rejected
  {
    PortByte(h.source);
    SequenceField(h);
    hide Load32, Swap32, Swap16, Le16, Le32, SerializeTcp;
    var message, at, b := SerializeTcp(h), |outer|, r.buffer;
    ArrivalLayout(r, outer, message);
    SliceOfSlice(b, at, 20, 8, 12);
    Load32OfImage(b, at + 8, h.ackNo);
    AcknowledgementMeaning(Swap32(p.tcp.seqNo), Swap32(q.tcp.seqNo));
    if Swap32(p.tcp.seqNo) == Swap32(q.tcp.seqNo) {
      Swap32Injective(p.tcp.seqNo, q.tcp.seqNo);
    }
    ArrivedValidation(TcpToTcpValidator, p, r, outer, message);
    hide GetIpHeaderSize, PayloadOffset, Arrives, RunValidator;
  }

  // ----- Bare segments taken for IP datagrams -----

  /** The acknowledgement a host sends from `sport`. */
  function ReplyHeader(p: Packet, sport: Word16): TcpHeader
    requires p.TcpPacket?
  {
    TcpHeader(Swap16(sport), p.tcp.source, 0, Swap32((Swap32(p.tcp.seqNo) + 1) % TWO_TO_32), 0, 5, 0x12, 0, 0, 0)
  }

  lemma ReplyHeaderFields(p: Packet, sport: Word16)
    requires p.TcpPacket?
    ensures Swap16(ReplyHeader(p, sport).source) == sport
    ensures Swap32(ReplyHeader(p, sport).ackNo) == (Swap32(p.tcp.seqNo) + 1) % TWO_TO_32
  {
    hide Swap16, Swap32;
    Swap16Twice(sport);
    Swap32Twice((Swap32(p.tcp.seqNo) + 1) % TWO_TO_32);
  }

  /** A message at the start of the buffer, with `stale` in the rest of it. */
  function InBuffer(message: seq<Byte>, stale: Byte): Buffer
    requires |message| <= BUFFER_SIZE
  {
    message + seq(BUFFER_SIZE - |message|, _ => stale)
  }

  lemma Filled(message: seq<Byte>, stale: Byte)
    requires 0 < |message| <= BUFFER_SIZE
    ensures InBuffer(message, stale)[..|message|] == [] + message && InBuffer(message, stale)[0] == message[0]
    ensures forall i :: |message| <= i < BUFFER_SIZE ==> InBuffer(message, stale)[i] == stale
  {
  }

  function BareReply(p: Packet, sport: Word16, stale: Byte): Response
    requires p.TcpPacket?
  {
    SequenceField(ReplyHeader(p, sport));
    Response(ResponseInfo(p.destination, IPPROTO_TCP, TCP_HEADER_SIZE), InBuffer(SerializeTcp(ReplyHeader(p, sport)), stale))
  }

  lemma BareReplyIsReply(p: Packet, sport: Word16, stale: Byte)
    requires p.TcpPacket? && p.destination.V6?
    ensures var h, r := ReplyHeader(p, sport), BareReply(p, sport, stale);
            && IsTcpReplyFor(p, r, [], h) && Swap16(h.source) == sport
            && r.info == ResponseInfo(p.destination, IPPROTO_TCP, TCP_HEADER_SIZE) && r.buffer[0] == sport / 0x100
            && forall i :: TCP_HEADER_SIZE <= i < BUFFER_SIZE ==> r.buffer[i] == stale
  {
    hide ReplyHeader, InBuffer, SerializeTcp, Swap16, Swap32, Le16, Le32;
    var h := ReplyHeader(p, sport);
    ReplyHeaderFields(p, sport);
    PortByte(h.source);
    SequenceField(h);
    Filled(SerializeTcp(h), stale);
    assert |[] + SerializeTcp(h)| == TCP_HEADER_SIZE;
  }

  lemma MissedOffset(sport: Word16, b: Buffer)
    requires LooksLikeIpHeader(sport) && b[0] == sport / 0x100
    ensures 4 <= PayloadOffset(b) <= 60 && PayloadOffset(b) % 4 == 0
  {
    if sport < 24576 {
      assert b[0] / 16 == 4;
    } else {
      assert b[0] / 16 == 6;
    }
  }

  lemma MissedField(p: Packet, b: Buffer, at: nat, stale: Byte)
    requires p.TcpPacket? && TCP_HEADER_SIZE <= at <= 60
    requires stale == if Swap32(p.tcp.seqNo) == TWO_TO_32 - 1 then 1 else 0
    requires forall i :: TCP_HEADER_SIZE <= i < BUFFER_SIZE ==> b[i] == stale
    ensures TcpToTcpFields(p, p.destination, b, at) == Rejected
  {
    UniformWord(b, at + 8, stale);
    hide Load32, Swap32;
  }

  lemma UniformWord(b: Buffer, at: nat, value: Byte)
    requires at + 4 <= BUFFER_SIZE && value <= 1
    requires b[at] == b[at + 1] == b[at + 2] == b[at + 3] == value
    ensures Swap32(Load32(b, at)) == if value == 0 then 0 else 0x0101_0101
  {
    if value == 0 {
      assert Load32(b, at) == 0;
    } else {
      assert Load32(b, at) == 0x0101_0101;
    }
  }

  lemma ShortOfHeader(info: ResponseInfo, at: nat)
    requires info.size == TCP_HEADER_SIZE && 0 < at <= TCP_HEADER_SIZE
    ensures !ValidateSize(TcpToTcpValidator, Stripped(info, at).size)
  {
  }

  /** From a port that looks like an IP header the size check fails, or the field is read from stale bytes. */
  lemma BareReplyMissed(p: Packet, info: ResponseInfo, b: Buffer, sport: Word16, stale: Byte)
    requires p.TcpPacket? && LooksLikeIpHeader(sport)
    requires info == ResponseInfo(p.destination, IPPROTO_TCP, TCP_HEADER_SIZE)
    requires b[0] == sport / 0x100 && forall i :: TCP_HEADER_SIZE <= i < BUFFER_SIZE ==> b[i] == stale
    requires stale == if Swap32(p.tcp.seqNo) == TWO_TO_32 - 1 then 1 else 0
    ensures IsValid(p, Response(info, b)) == Rejected
  {
    MissedOffset(sport, b);
    VerdictOfFields(p, info, b);
    hide PayloadOffset, IsValid, TcpToTcpFields, Stripped, ValidateSize, Swap32;
    var at := PayloadOffset(b);
    if at <= TCP_HEADER_SIZE {
      ShortOfHeader(info, at);
    } else {
      MissedField(p, b, at, stale);
    }
  }

  /**
   Over IPv6 raw sockets deliver no IP header. Every such reply from a port is
   accepted by the probe it acknowledges, whatever lies behind it in the buffer, if
   and only if the port is outside 16640-20479 and 24576-28671.
   */
  lemma BareTcpAcceptedExactly(p: Packet, sport: Word16)
    requires p.TcpPacket? && p.destination.V6?
    ensures (forall r, h :: IsTcpReplyFor(p, r, [], h) && Swap16(h.source) == sport ==> IsValid(p, r) == Accepted)
       <==> !LooksLikeIpHeader(sport)
  {
    hide IsTcpReplyFor, IsValid, Swap16, BareReply, ReplyHeader;
    if LooksLikeIpHeader(sport) {
      var stale: Byte := if Swap32(p.tcp.seqNo) == TWO_TO_32 - 1 then 1 else 0;
      var h, r := ReplyHeader(p, sport), BareReply(p, sport, stale);
      BareReplyIsReply(p, sport, stale);
      BareReplyMissed(p, r.info, r.buffer, sport, stale);
    } else {
      forall r, h | IsTcpReplyFor(p, r, [], h) && Swap16(h.source) == sport ensures IsValid(p, r) == Accepted {
        TcpReplyRoundTrip(p, p, r, [], h);
      }
    }
  }

  // ----- All of them -----

  /** The ICMP errors routers and the destination send: time exceeded and destination unreachable, by family. */
  predicate RouterError(kind: Byte, client: SocketAddress) {
    if client.V4? then kind == 11 || kind == 3 else kind == 3 || kind == 1
  }

  predicate IsErrorFor(q: Packet, r: Response, outer: seq<Byte>, icmp: seq<Byte>, inner: seq<Byte>) {
    Quotes(q, r, outer, icmp, inner) && RouterError(icmp[0], r.info.client)
  }

  /**
   What a router or the destination sends in answer to an ICMP or TCP probe, except for
   the bare segments that `BareTcpAcceptedExactly` excludes.
   */
  ghost predicate Answers(q: Packet, r: Response) {
    || (exists outer, icmp, inner :: IsErrorFor(q, r, outer, icmp, inner))
    || (exists outer, h :: IsEchoReplyFor(q, r, outer, h))
    || (exists outer, h :: IsTcpReplyFor(q, r, outer, h) && (outer == [] ==> !LooksLikeIpHeader(Swap16(h.source))))
  }

  /** The messages whose type the code does not drop, whatever they quote. */
  predicate Recognised(q: Packet, r: Response) {
    var kind := r.buffer[PayloadOffset(r.buffer)];
    r.info.protocol == IPPROTO_TCP || kind == ICMP_ECHOREPLY || kind == ICMP6_ECHO_REPLY || ErrorKind(q, kind, r.info.client)
  }

  /** The answers the code recognises. */
  ghost predicate Genuine(q: Packet, r: Response) {
    Answers(q, r) && Recognised(q, r)
  }

  /**
   An answer to one probe is accepted by exactly the probes that share its identity if
   the code recognises its type, and by none otherwise; validation never throws.
   */
  lemma AnswerAttribution(p: Packet, q: Packet, r: Response)
    requires SameTarget(p, q) && !q.UdpPacket? && Answers(q, r)
    ensures IsValid(p, r) == if Recognised(q, r) && SameIdentity(p, q) then Accepted else Rejected
  {
    hide IsValid, SameIdentity, SameTarget, IsErrorFor, IsEchoReplyFor, IsTcpReplyFor, Swap16, Recognised;
    if outer, icmp, inner :| IsErrorFor(q, r, outer, icmp, inner) {
      ErrorAttribution(p, q, r, outer, icmp, inner);
    } else if outer, h :| IsEchoReplyFor(q, r, outer, h) {
      EchoReplyRoundTrip(p, q, r, outer, h);
      EchoReplyRecognised(q, r, outer, h);
    } else if outer, h :| IsTcpReplyFor(q, r, outer, h) && (outer == [] ==> !LooksLikeIpHeader(Swap16(h.source))) {
      TcpReplyRoundTrip(p, q, r, outer, h);
      TcpReplyRecognised(q, r, outer, h);
    }
  }

  /**
   The errors the code drops: ICMPv6 destination unreachable for an ICMP probe, and
   destination unreachable from anyone but the destination for a TCP probe.
   */
  lemma QuoteRecognised(q: Packet, r: Response, outer: seq<Byte>, icmp: seq<Byte>, inner: seq<Byte>)
    requires !q.UdpPacket? && IsErrorFor(q, r, outer, icmp, inner)
    ensures Recognised(q, r) <==> ErrorKind(q, icmp[0], r.info.client)
    ensures Recognised(q, r) <==> !(icmp[0] == (if r.info.client.V4? then 3 else 1)
                                    && if q.IcmpPacket? then r.info.client.V6? else r.info.client != q.destination)
  {
    hide GetIpHeaderSize, PayloadOffset;
    var message := ErrorMessage(q, icmp, inner);
    assert message[0] == icmp[0];
    ArrivalLayout(r, outer, message);
  }

  lemma ErrorAttribution(p: Packet, q: Packet, r: Response, outer: seq<Byte>, icmp: seq<Byte>, inner: seq<Byte>)
    requires SameTarget(p, q) && !q.UdpPacket? && IsErrorFor(q, r, outer, icmp, inner)
    ensures IsValid(p, r) == if Recognised(q, r) && SameIdentity(p, q) then Accepted else Rejected
  {
    hide IsValid, SameIdentity, SameTarget, ErrorKind, Recognised;
    QuotedProbeRoundTrip(p, q, r, outer, icmp, inner);
    QuoteRecognised(q, r, outer, icmp, inner);
  }

  lemma EchoReplyRecognised(q: Packet, r: Response, outer: seq<Byte>, h: IcmpHeader)
    requires IsEchoReplyFor(q, r, outer, h)
    ensures Recognised(q, r)
  {
    hide PayloadOffset;
    assert SerializeIcmp(h)[0] == h.kind;
    ArrivalLayout(r, outer, SerializeIcmp(h));
  }

  lemma TcpReplyRecognised(q: Packet, r: Response, outer: seq<Byte>, h: TcpHeader)
    requires IsTcpReplyFor(q, r, outer, h)
    ensures Recognised(q, r)
  {
  }

  /** In particular a genuine reply is accepted by exactly the probes that share the identity of the one it answers. */
  lemma GenuineReplyAttribution(p: Packet, q: Packet, r: Response)
    requires SameTarget(p, q) && !q.UdpPacket? && Genuine(q, r)
    ensures IsValid(p, r) == if SameIdentity(p, q) then Accepted else Rejected
  {
    hide IsValid, SameIdentity, SameTarget, Answers, Recognised;
    AnswerAttribution(p, q, r);
  }

  // ----- From anyone but the destination, and UDP -----

  /**
   The types of the messages accepted from anyone but the destination: time exceeded
   for TCP probes; for ICMP probes both numbers of time exceeded, in either family.
   */
  predicate KindFromElsewhere(p: Packet, kind: Byte, client: SocketAddress) {
    match p
    case IcmpPacket(_, _, _) => kind == 11 || kind == 3
    case TcpPacket(_, _, _) => kind == if client.V4? then 11 else 3
    case UdpPacket(_, _, _) => false
  }

  /** Nothing of another type is accepted from there. */
  lemma AcceptedFromElsewhere(p: Packet, r: Response)
    requires !p.UdpPacket? && IsValid(p, r) == Accepted && r.info.client != p.destination
    ensures r.info.protocol == 1 || r.info.protocol == 58
    ensures KindFromElsewhere(p, r.buffer[PayloadOffset(r.buffer)], r.info.client)
  {
  }

  /** And a message from there that quotes the probe is accepted exactly when it is of such a type. */
  lemma QuotedFromElsewhere(p: Packet, r: Response, outer: seq<Byte>, icmp: seq<Byte>, inner: seq<Byte>)
    requires !p.UdpPacket? && r.info.client != p.destination && Quotes(p, r, outer, icmp, inner)
    requires outer == [] ==> StandsBare(icmp[0])
    ensures IsValid(p, r) == if KindFromElsewhere(p, icmp[0], r.info.client) then Accepted else Rejected
  {
    hide Load16, Load32, Swap32, Serialize;
    var message, v := ErrorMessage(p, icmp, inner), if p.IcmpPacket? then IcmpValidator else IcmpToTcpValidator;
    assert message[0] == icmp[0] && |message| == ICMP_HEADER_SIZE + |inner| + 8;
    if KindFromElsewhere(p, icmp[0], r.info.client) {
      QuotedProbeRoundTrip(p, p, r, outer, icmp, inner);
    } else {
      ArrivalLayout(r, outer, message);
      ArrivedValidation(v, p, r, outer, message);
      hide GetIpHeaderSize, PayloadOffset, Arrives, ErrorMessage, RunValidator;
      assert IsValid(p, r) == RunValidator(v, p, r.info, r.buffer);
    }
  }

  /** So an ICMP probe takes an IPv4 destination-unreachable message from any router for its reply. */
  lemma UnreachableFromAnyRouter(p: Packet, r: Response, outer: seq<Byte>, icmp: seq<Byte>, inner: seq<Byte>)
    requires p.IcmpPacket? && r.info.client.V4? && Quotes(p, r, outer, icmp, inner)
    requires icmp[0] == 3
    ensures IsValid(p, r) == Accepted
  {
    hide IsValid, Quotes;
    QuotedProbeRoundTrip(p, p, r, outer, icmp, inner);
  }

  /**
   A UDP probe accepts an ICMP message exactly when it has at least 16 bytes and is
   destination unreachable from the destination or time exceeded from elsewhere, in
   the numbering of the sender's family; it never looks at the quoted probe.
   */
  lemma UdpVerdictOnArrival(p: Packet, r: Response, outer: seq<Byte>, message: seq<Byte>)
    requires p.UdpPacket? && Arrives(r, outer, message) && OverIcmp(r.info) && message != []
    requires outer == [] ==> StandsBare(message[0])
    ensures IsValid(p, r) ==
            Decide(r.info.size - |outer| >= 16
                   && message[0] == match r.info.client
                                    case V4(_) => if r.info.client == p.destination then 3 else 11
                                    case V6(_) => if r.info.client == p.destination then 1 else 3)
  {
    ArrivalLayout(r, outer, message);
    ArrivedValidation(UdpValidator, p, r, outer, message);
    hide Arrives, RunValidator, PayloadOffset;
  }
}
