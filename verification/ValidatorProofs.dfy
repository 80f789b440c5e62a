/** Which probe the validators attribute a message to. */
module ValidatorProofs {
  import opened Bytes
  import opened Headers
  import opened Packets
  import opened Validators

  /** Two probes the factory could have made for one target: same kind, same destination. */
  predicate SameTarget(p: Packet, q: Packet) {
    && p.destination == q.destination
    && (p.IcmpPacket? <==> q.IcmpPacket?)
    && (p.TcpPacket? <==> q.TcpPacket?)
  }

  /** What a validator can tell two probes of one kind apart by. */
  predicate SameIdentity(p: Packet, q: Packet) {
    || (p.IcmpPacket? && q.IcmpPacket? && p.icmp.id == q.icmp.id)
    || (p.TcpPacket? && q.TcpPacket? && p.tcp.seqNo == q.tcp.seqNo)
    || (p.UdpPacket? && q.UdpPacket?)
  }

  /** On every accepting path, a message accepted by two probes of a kind finds the same identity in both. */
  lemma AcceptedByOneIdentity(p: Packet, q: Packet, r: Response)
    requires SameTarget(p, q)
    requires IsValid(p, r) == Accepted && IsValid(q, r) == Accepted
    ensures SameIdentity(p, q)
  {
    if p.TcpPacket? && r.info.protocol == IPPROTO_TCP {
      Swap32Injective(p.tcp.seqNo, q.tcp.seqNo);
    }
  }

  /** Conversely probes with one identity and target get one verdict; UDP probes always do. */
  lemma IdentityDeterminesVerdict(p: Packet, q: Packet, r: Response)
    requires SameTarget(p, q) && SameIdentity(p, q)
    ensures IsValid(p, r) == IsValid(q, r)
  {
  }

  /** Whether validation throws does not depend on which probe of the target is asked. */
  lemma ThrowingIsShared(p: Packet, q: Packet, r: Response)
    requires SameTarget(p, q)
    ensures IsValid(p, r) == Threw <==> IsValid(q, r) == Threw
  {
  }
}
