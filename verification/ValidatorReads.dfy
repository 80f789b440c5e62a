/**
 How far into the buffer a verdict reads. The buffer is reused, so bytes behind a
 short message are left over from earlier ones; this module gives the exact extent
 below which they can, and from which they cannot, change the verdict.
 */
module ValidatorReads {
  import opened Bytes
  import opened Headers
  import opened Packets
  import opened ProbeResults
  import opened Validators

  // ----- Comparing a field -----

  predicate HasField(b: Buffer, at: nat, expected: seq<Byte>)
    requires at + |expected| <= BUFFER_SIZE
  {
    b[at..at + |expected|] == expected
  }

  /** Where a byte-by-byte comparison is decided: behind the first difference, or at the end. */
  function FieldExtent(b: Buffer, at: nat, expected: seq<Byte>): nat
    requires at + |expected| <= BUFFER_SIZE
    decreases |expected|
  {
    if expected == [] then at
    else if b[at] != expected[0] then at + 1
    else FieldExtent(b, at + 1, expected[1..])
  }

  lemma FieldDiffers(b: Buffer, at: nat, expected: seq<Byte>, i: nat)
    requires at + |expected| <= BUFFER_SIZE && i < |expected| && b[at + i] != expected[i]
    ensures !HasField(b, at, expected)
  {
    assert b[at..at + |expected|][i] == b[at + i];
  }

  lemma FieldOfTail(b: Buffer, at: nat, expected: seq<Byte>)
    requires at + |expected| <= BUFFER_SIZE && expected != [] && b[at] == expected[0]
    ensures HasField(b, at, expected) <==> HasField(b, at + 1, expected[1..])
  {
    var rest := expected[1..];
    assert b[at..at + |expected|] == [b[at]] + b[at + 1..at + 1 + |rest|];
    assert expected == [expected[0]] + rest;
  }

  lemma {:induction false} FieldExtentMeaning(b: Buffer, at: nat, expected: seq<Byte>)
    requires at + |expected| <= BUFFER_SIZE
    ensures at <= FieldExtent(b, at, expected) <= at + |expected|
    ensures HasField(b, at, expected) ==> FieldExtent(b, at, expected) == at + |expected|
    ensures !HasField(b, at, expected) ==> FieldExtent(b, at, expected) > at
                                           && b[FieldExtent(b, at, expected) - 1] != expected[FieldExtent(b, at, expected) - 1 - at]
    ensures forall i :: 0 <= i < FieldExtent(b, at, expected) - 1 - at ==> b[at + i] == expected[i]
    decreases |expected|
  {
    if expected != [] && b[at] == expected[0] {
      FieldExtentMeaning(b, at + 1, expected[1..]);
      FieldOfTail(b, at, expected);
      hide HasField;
      forall i | 0 < i < FieldExtent(b, at, expected) - 1 - at ensures b[at + i] == expected[i] {
        assert b[at + 1 + (i - 1)] == expected[1..][i - 1];
      }
    } else if expected != [] {
      FieldDiffers(b, at, expected, 0);
    }
  }

  lemma FieldSettled(b: Buffer, c: Buffer, n: nat, at: nat, expected: seq<Byte>)
    requires at + |expected| <= BUFFER_SIZE && n <= BUFFER_SIZE && b[..n] == c[..n]
    requires FieldExtent(b, at, expected) <= n
    ensures HasField(b, at, expected) <==> HasField(c, at, expected)
  {
    FieldExtentMeaning(b, at, expected);
    if HasField(b, at, expected) {
      assert c[at..at + |expected|] == c[..n][at..at + |expected|];
    } else {
      var last := FieldExtent(b, at, expected) - 1;
      assert c[last] == c[..n][last] == b[..n][last];
      FieldDiffers(c, at, expected, last - at);
    }
  }

  /** Some other rest of the buffer turns the comparison around. */
  lemma FieldOpen(b: Buffer, n: nat, at: nat, expected: seq<Byte>) returns (c: Buffer)
    requires at + |expected| <= BUFFER_SIZE && n <= BUFFER_SIZE && expected != []
    requires FieldExtent(b, at, expected) > n
    ensures c[..n] == b[..n]
    ensures HasField(c, at, expected) <==> !HasField(b, at, expected)
  {
    FieldExtentMeaning(b, at, expected);
    if HasField(b, at, expected) {
      var last := at + |expected| - 1;
      c := b[last := if b[last] == 0 then 1 else 0];
      assert b[last] == b[at..at + |expected|][|expected| - 1];
      FieldDiffers(c, at, expected, |expected| - 1);
    } else {
      c := b[..at] + expected + b[at + |expected|..];
      assert c[at..at + |expected|] == expected;
      forall i | 0 <= i < n ensures c[i] == b[i] {
        if at <= i < at + |expected| {
          assert b[at + (i - at)] == expected[i - at];
        }
      }
    }
  }

  lemma Field16(b: Buffer, at: nat, w: Word16)
    requires at + 2 <= BUFFER_SIZE
    ensures Load16(b, at) == w <==> HasField(b, at, Le16(w))
  {
    if Load16(b, at) == w {
      assert b[at..at + 2] == [b[at], b[at + 1]];
    } else if HasField(b, at, Le16(w)) {
      Load16OfImage(b, at, w);
    }
  }

  lemma Field32(b: Buffer, at: nat, w: Word32)
    requires at + 4 <= BUFFER_SIZE
    ensures Load32(b, at) == w <==> HasField(b, at, Le32(w))
  {
    if Load32(b, at) == w {
      Field16(b, at, w % 0x1_0000);
      Field16(b, at + 2, w / 0x1_0000);
      assert b[at..at + 4] == b[at..at + 2] + b[at + 2..at + 4];
    } else if HasField(b, at, Le32(w)) {
      Load32OfImage(b, at, w);
    }
  }

  /** The acknowledgement field, in memory, that a segment must have. */
  function ExpectedAck(seqNo: Word32): Word32 {
    Swap32((Swap32(seqNo) + 1) % TWO_TO_32)
  }

  lemma AckByField(ack: Word32, seqNo: Word32)
    ensures (Swap32(ack) - 1) % TWO_TO_32 == Swap32(seqNo) <==> ack == ExpectedAck(seqNo)
  {
    hide Swap32;
    var s := Swap32(seqNo);
    Swap32Twice((s + 1) % TWO_TO_32);
    Swap32Twice(ack);
    OneLess(Swap32(ack), s);
  }

  lemma OneLess(a: Word32, s: Word32)
    ensures (a - 1) % TWO_TO_32 == s <==> a == (s + 1) % TWO_TO_32
  {
  }

  // ----- What a verdict comes down to -----

  /** A verdict is settled by the bytes before an offset, or is that of one comparison. */
  datatype Reads = Settled(upTo: nat) | Compares(at: nat, expected: seq<Byte>)

  function QuotedReads(b: Buffer, at: nat, expected: seq<Byte>): Reads
    requires at <= 60
  {
    match GetIpHeaderSize(b, at + ICMP_HEADER_SIZE)
    case UnknownVersion => Settled(at + ICMP_HEADER_SIZE + 1)
    case Bytes(n) => Compares(at + ICMP_HEADER_SIZE + n + 4, expected)
  }

  function IcmpReads(p: Packet, client: SocketAddress, b: Buffer, at: nat): Reads
    requires p.IcmpPacket? && at <= 60
  {
    if b[at] in {ICMP_ECHOREPLY, ICMP6_ECHO_REPLY} && client == p.destination then
      Compares(at + 4, Le16(p.icmp.id))
    else if b[at] in {ICMP_TIME_EXCEEDED, ICMP6_TIME_EXCEEDED} then
      QuotedReads(b, at, Le16(p.icmp.id))
    else
      Settled(at + 1)
  }

  predicate QuotesTcp(p: Packet, client: SocketAddress, kind: Byte) {
    || kind == (if client.V4? then ICMP_TIME_EXCEEDED else ICMP6_TIME_EXCEEDED)
    || (kind == (if client.V4? then ICMP_DEST_UNREACH else ICMP6_DST_UNREACH) && client == p.destination)
  }

  function FieldReads(v: Validator, p: Packet, client: SocketAddress, b: Buffer, at: nat): (question: Reads)
    requires Serves(v, p) && at <= 60
    ensures question.Compares? ==> question.expected != [] && question.at + |question.expected| <= 136
    ensures question.Settled? ==> question.upTo <= 136
  {
    match v
    case IcmpValidator => IcmpReads(p, client, b, at)
    case IcmpToTcpValidator =>
      if QuotesTcp(p, client, b[at]) then QuotedReads(b, at, Le32(p.tcp.seqNo)) else Settled(at + 1)
    case TcpToTcpValidator =>
      if client == p.destination then Compares(at + 8, Le32(ExpectedAck(p.tcp.seqNo))) else Settled(1)
    case UdpValidator => Settled(at + 1)
  }

  /** The validator `Packet::isValid` uses for a message; none when it rejects the protocol outright. */
  function Dispatch(p: Packet, protocol: int): (v: Option<Validator>)
    ensures v.Some? ==> Serves(v.value, p)
  {
    match p
    case IcmpPacket(_, _, _) => Some(IcmpValidator)
    case UdpPacket(_, _, _) => Some(UdpValidator)
    case TcpPacket(_, _, _) =>
      if protocol == IPPROTO_ICMP || protocol == IPPROTO_ICMPV6 then Some(IcmpToTcpValidator)
      else if protocol == IPPROTO_TCP then Some(TcpToTcpValidator)
      else None
  }

  function FieldsExtent(v: Validator, p: Packet, client: SocketAddress, b: Buffer, at: nat): nat
    requires Serves(v, p) && at <= 60
  {
    match FieldReads(v, p, client, b, at)
    case Settled(n) => n
    case Compares(a, expected) => FieldExtent(b, a, expected)
  }

  /** The number of bytes of the buffer that the verdict depends on. */
  function Extent(p: Packet, info: ResponseInfo, b: Buffer): nat {
    var v := Dispatch(p, info.protocol);
    var at := PayloadOffset(b);
    if info.size < 1 || v.None? then 0
    else if ValidateProtocol(v.value, info.protocol) && ValidateSize(v.value, Stripped(info, at).size) then
      FieldsExtent(v.value, p, info.client, b, at)
    else 1
  }

  lemma ReadsDecide(v: Validator, p: Packet, client: SocketAddress, b: Buffer, at: nat)
    requires Serves(v, p) && at <= 60
    ensures match FieldReads(v, p, client, b, at)
            case Settled(_) => true
            case Compares(a, expected) => ValidateFields(v, p, client, b, at) == Decide(HasField(b, a, expected))
  {
    hide Load16, Load32, Swap32, Le16, Le32;
    var field := FieldReads(v, p, client, b, at);
    if field.Compares? {
      match v
      case IcmpValidator => Field16(b, field.at, p.icmp.id);
      case IcmpToTcpValidator => Field32(b, field.at, p.tcp.seqNo);
      case TcpToTcpValidator =>
        Field32(b, at + 8, ExpectedAck(p.tcp.seqNo));
        AckByField(Load32(b, at + 8), p.tcp.seqNo);
    }
  }

  /** Bytes from the extent on play no part. */
  lemma FieldsSettled(v: Validator, p: Packet, client: SocketAddress, b: Buffer, c: Buffer, at: nat, n: nat)
    requires Serves(v, p) && at <= 60 && n <= BUFFER_SIZE
    requires b[..n] == c[..n] && FieldsExtent(v, p, client, b, at) <= n
    ensures ValidateFields(v, p, client, b, at) == ValidateFields(v, p, client, c, at)
  {
    hide Load16, Load32, Swap32, Le16, Le32, FieldExtent;
    var field := FieldReads(v, p, client, b, at);
    forall i | 0 <= i < n ensures b[i] == c[i] {
      assert b[i] == b[..n][i] && c[i] == c[..n][i];
    }
    if field.Compares? {
      FieldExtentMeaning(b, field.at, field.expected);
      assert field.at < n by { FieldExtentPositive(b, field.at, field.expected); }
      assert FieldReads(v, p, client, c, at) == field;
      FieldSettled(b, c, n, field.at, field.expected);
      ReadsDecide(v, p, client, b, at);
      ReadsDecide(v, p, client, c, at);
    }
  }

  lemma FieldExtentPositive(b: Buffer, at: nat, expected: seq<Byte>)
    requires at + |expected| <= BUFFER_SIZE && expected != []
    ensures FieldExtent(b, at, expected) > at
  {
    if b[at] == expected[0] {
      FieldExtentMeaning(b, at + 1, expected[1..]);
    }
  }

  // ----- Stale bytes that decide -----

  /** The kind of the message is not among the received bytes. */
  lemma KindOpen(v: Validator, p: Packet, client: SocketAddress, b: Buffer, at: nat, n: nat) returns (c: Buffer)
    requires Serves(v, p) && v != TcpToTcpValidator && at <= 60 && n <= at
    ensures c[..n] == b[..n]
    ensures ValidateFields(v, p, client, c, at) != ValidateFields(v, p, client, b, at)
  {
    if ValidateFields(v, p, client, b, at) != Rejected {
      c := b[at := 5];
    } else if v.UdpValidator? {
      c := b[at := match client
                   case V4(_) => if p.destination == client then ICMP_DEST_UNREACH else ICMP_TIME_EXCEEDED
                   case V6(_) => if p.destination == client then ICMP6_DST_UNREACH else ICMP6_TIME_EXCEEDED];
    } else {
      c := b[at := if client.V4? then ICMP_TIME_EXCEEDED else ICMP6_TIME_EXCEEDED][at + ICMP_HEADER_SIZE := 0];
      assert VersionAt(c, at + ICMP_HEADER_SIZE) == 0;
    }
  }

  /** The kind quotes the probe, but the version of the inner header is not among the received bytes. */
  lemma VersionOpen(v: Validator, p: Packet, client: SocketAddress, b: Buffer, at: nat, n: nat) returns (c: Buffer)
    requires Serves(v, p) && at < n <= at + ICMP_HEADER_SIZE && at <= 60
    requires (v.IcmpValidator? && b[at] in {ICMP_TIME_EXCEEDED, ICMP6_TIME_EXCEEDED})
             || (v.IcmpToTcpValidator? && QuotesTcp(p, client, b[at]))
    ensures c[..n] == b[..n]
    ensures ValidateFields(v, p, client, c, at) != ValidateFields(v, p, client, b, at)
  {
    hide Load16, Load32;
    var version := at + ICMP_HEADER_SIZE;
    c := b[version := if GetIpHeaderSize(b, version).UnknownVersion? then 0x45 else 0];
    assert c[at] == b[at];
  }

  /** Bytes before the extent that have not been received can turn the verdict around. */
  lemma FieldsOpen(v: Validator, p: Packet, client: SocketAddress, b: Buffer, at: nat, n: nat) returns (c: Buffer)
    requires Serves(v, p) && at <= 60 && 1 <= n <= BUFFER_SIZE
    requires FieldsExtent(v, p, client, b, at) > n
    ensures c[..n] == b[..n]
    ensures ValidateFields(v, p, client, c, at) != ValidateFields(v, p, client, b, at)
  {
    hide Load16, Load32, Swap32, Le16, Le32, FieldExtent, ValidateFields, QuotesTcp;
    var field := FieldReads(v, p, client, b, at);
    var quotes := (v.IcmpValidator? && b[at] in {ICMP_TIME_EXCEEDED, ICMP6_TIME_EXCEEDED})
                  || (v.IcmpToTcpValidator? && QuotesTcp(p, client, b[at]));
    if v != TcpToTcpValidator && n <= at {
      c := KindOpen(v, p, client, b, at, n);
    } else if quotes && n <= at + ICMP_HEADER_SIZE {
      c := VersionOpen(v, p, client, b, at, n);
    } else {
      assert field.Compares?;
      c := FieldOpen(b, n, field.at, field.expected);
      forall i | 0 <= i < n ensures b[i] == c[i] {
        assert b[i] == b[..n][i] && c[i] == c[..n][i];
      }
      assert FieldReads(v, p, client, c, at) == field;
      ReadsDecide(v, p, client, b, at);
      ReadsDecide(v, p, client, c, at);
    }
  }

  // ----- The whole verdict -----

  /** However the buffer goes on behind the received bytes, the verdict is the same. */
  ghost predicate ReceivedBytesDecide(p: Packet, info: ResponseInfo, b: Buffer)
    requires info.size <= BUFFER_SIZE
  {
    forall c: Buffer :: c[..info.size] == b[..info.size] ==> IsValid(p, Response(info, c)) == IsValid(p, Response(info, b))
  }

  lemma VerdictOfFields(p: Packet, info: ResponseInfo, b: Buffer)
    ensures IsValid(p, Response(info, b))
         == var v := Dispatch(p, info.protocol);
            if v.None? then Rejected
            else if info.size < 1 then Threw
            else
              var at := PayloadOffset(b);
              if ValidateProtocol(v.value, info.protocol) && ValidateSize(v.value, Stripped(info, at).size)
              then ValidateFields(v.value, p, info.client, b, at)
              else Rejected
  {
    hide ValidateFields, ValidateProtocol, ValidateSize;
    assert !IsIpHeaderPresent(b) ==> Stripped(info, PayloadOffset(b)) == info;
  }

  /** The least payload each size check asks for. */
  function LeastPayload(v: Validator): nat {
    match v
    case IcmpValidator => 8
    case IcmpToTcpValidator => 28
    case TcpToTcpValidator => 20
    case UdpValidator => 16
  }

  /** A message shorter than its own IP header passes every size check: the size wraps. */
  lemma ShortMessagePassesSizeCheck(v: Validator, info: ResponseInfo, at: nat)
    requires at <= 60
    ensures ValidateSize(v, Stripped(info, at).size) <==> info.size < at || info.size >= at + LeastPayload(v)
  {
    if info.size < at {
      assert (info.size - at) % TWO_TO_64 == info.size - at + TWO_TO_64;
    } else {
      assert (info.size - at) % TWO_TO_64 == info.size - at;
    }
  }

  /**
   The ICMP types that lead to the quoted header. For ICMP probes the source merges
   the numbers of both families, so ICMPv4 destination unreachable (3) is among them.
   */
  predicate ErrorKind(p: Packet, kind: Byte, client: SocketAddress) {
    match p
    case IcmpPacket(_, _, _) => kind == ICMP_TIME_EXCEEDED || kind == ICMP6_TIME_EXCEEDED
    case TcpPacket(_, _, _) => QuotesTcp(p, client, kind)
    case UdpPacket(_, _, _) => false
  }

  lemma FieldsThrow(v: Validator, p: Packet, client: SocketAddress, b: Buffer, at: nat)
    requires Serves(v, p) && at <= 60
    ensures ValidateFields(v, p, client, b, at) == Threw <==>
            v != TcpToTcpValidator && ErrorKind(p, b[at], client) && VersionAt(b, at + ICMP_HEADER_SIZE) !in {4, 6}
  {
    hide Load16, Load32, Swap32;
  }

  /**
   Validation throws exactly when the message is empty (for a TCP probe: an empty ICMP
   or TCP message), or is ICMP, passes the size check, is of a type that quotes a
   probe, and has neither version 4 nor 6 where the quoted IP header begins.
   */
  lemma ThrowsExactly(p: Packet, info: ResponseInfo, b: Buffer)
    ensures var at := PayloadOffset(b);
            var icmp := info.protocol == 1 || info.protocol == 58;
            IsValid(p, Response(info, b)) == Threw <==>
              if info.size == 0 then !p.TcpPacket? || icmp || info.protocol == 6
              else
                && icmp && (info.size < at || info.size >= at + (if p.TcpPacket? then 28 else 8))
                && ErrorKind(p, b[at], info.client) && VersionAt(b, at + 8) !in {4, 6}
  {
    hide IsValid, ValidateFields, PayloadOffset, VersionAt, ErrorKind, ValidateSize, Stripped;
    VerdictOfFields(p, info, b);
    var v, at := Dispatch(p, info.protocol), PayloadOffset(b);
    if v.Some? && info.size > 0 {
      ShortMessagePassesSizeCheck(v.value, info, at);
      FieldsThrow(v.value, p, info.client, b, at);
      if p.UdpPacket? {
        NoQuoteForUdp(p, b[at], info.client);
      }
    }
  }

  lemma NoQuoteForUdp(p: Packet, kind: Byte, client: SocketAddress)
    requires p.UdpPacket?
    ensures !ErrorKind(p, kind, client)
  {
  }

  /** No verdict reads further than 136 bytes. */
  lemma VerdictReadsFirst136(p: Packet, info: ResponseInfo, b: Buffer, c: Buffer)
    requires b[..136] == c[..136]
    ensures IsValid(p, Response(info, b)) == IsValid(p, Response(info, c))
  {
    hide IsValid, ValidateFields, ValidateProtocol, ValidateSize, Stripped, PayloadOffset, Dispatch, FieldReads;
    VerdictOfFields(p, info, b);
    VerdictOfFields(p, info, c);
    SameOffset(b, c, 136);
    var v, at := Dispatch(p, info.protocol), PayloadOffset(b);
    if v.Some? {
      var field := FieldReads(v.value, p, info.client, b, at);
      if field.Compares? {
        FieldExtentMeaning(b, field.at, field.expected);
      }
      FieldsSettled(v.value, p, info.client, b, c, at, 136);
    }
  }

  /** The received bytes decide exactly when they cover the extent. */
  lemma StaleBytesIgnoredExactly(p: Packet, info: ResponseInfo, b: Buffer)
    requires info.size <= BUFFER_SIZE
    ensures ReceivedBytesDecide(p, info, b) <==> Extent(p, info, b) <= info.size
  {
    hide IsValid, ValidateFields, FieldsExtent, ValidateProtocol, ValidateSize, Stripped;
    var n, at := info.size, PayloadOffset(b);
    VerdictOfFields(p, info, b);
    if Extent(p, info, b) <= n {
      forall c: Buffer | c[..n] == b[..n] ensures IsValid(p, Response(info, c)) == IsValid(p, Response(info, b)) {
        VerdictOfFields(p, info, c);
        SameOffset(b, c, n);
        hide PayloadOffset;
        var v := Dispatch(p, info.protocol);
        if n >= 1 && v.Some? && ValidateProtocol(v.value, info.protocol) && ValidateSize(v.value, Stripped(info, at).size) {
          FieldsSettled(v.value, p, info.client, b, c, at, n);
        }
      }
    } else {
      var c := FieldsOpen(Dispatch(p, info.protocol).value, p, info.client, b, at, n);
      VerdictOfFields(p, info, c);
      SameOffset(b, c, n);
    }
  }

  lemma SameOffset(b: Buffer, c: Buffer, n: nat)
    requires n <= BUFFER_SIZE && b[..n] == c[..n]
    ensures n >= 1 ==> PayloadOffset(b) == PayloadOffset(c)
  {
    if n >= 1 {
      assert b[0] == b[..n][0] && c[0] == c[..n][0];
    }
  }

  /** In particular they do when an ICMP header, a TCP header, or a quoted header with eight bytes behind it has arrived. */
  lemma CompleteMessageDecides(p: Packet, info: ResponseInfo, b: Buffer)
    requires info.size <= BUFFER_SIZE
    requires PayloadOffset(b) + (if info.protocol == IPPROTO_TCP then TCP_HEADER_SIZE else ICMP_HEADER_SIZE) <= info.size
    requires info.protocol != IPPROTO_TCP && b[PayloadOffset(b)] in {ICMP_TIME_EXCEEDED, ICMP_DEST_UNREACH, ICMP6_DST_UNREACH} ==>
               match GetIpHeaderSize(b, PayloadOffset(b) + ICMP_HEADER_SIZE)
               case UnknownVersion => PayloadOffset(b) + ICMP_HEADER_SIZE + 1 <= info.size
               case Bytes(n) => PayloadOffset(b) + ICMP_HEADER_SIZE + n + 8 <= info.size
    ensures ReceivedBytesDecide(p, info, b)
  {
    var v, at := Dispatch(p, info.protocol), PayloadOffset(b);
    StaleBytesIgnoredExactly(p, info, b);
    if v.Some? {
      var field := FieldReads(v.value, p, info.client, b, at);
      hide Le16, Le32, FieldExtent, ReceivedBytesDecide, ValidateSize;
      if field.Compares? {
        FieldExtentMeaning(b, field.at, field.expected);
      }
    }
  }
}
