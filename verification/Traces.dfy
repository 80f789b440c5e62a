/** What a data sender is asked to do and what comes of it, as both engines record it. */
module Traces {
  import opened Packets
  import opened ProbeResults
  import opened Validators

  /**
   A packet sent or refused with its ttl, and what a call of `tryReceiving` with the
   given milliseconds brought. Each carries the time at which the call returned.
   */
  datatype Event =
    | Sent(packet: Packet, ttl: nat, at: int)
    | Refused(packet: Packet, ttl: nat, at: int)
    | Received(asked: nat, response: Option<Response>, at: int)

  /** A packet handed to the data sender, and whether it was sent. */
  datatype Sending = Sending(packet: Packet, ttl: nat, sent: bool)

  /** The milliseconds a receive was given and what it brought. */
  datatype Reception = Reception(asked: nat, response: Option<Response>)

  function Sendings(trace: seq<Event>): seq<Sending> {
    if trace == [] then []
    else
      Sendings(trace[..|trace| - 1]) + match trace[|trace| - 1]
                                       case Sent(packet, ttl, _) => [Sending(packet, ttl, true)]
                                       case Refused(packet, ttl, _) => [Sending(packet, ttl, false)]
                                       case Received(_, _, _) => []
  }

  function Receptions(trace: seq<Event>): seq<Reception> {
    if trace == [] then []
    else
      Receptions(trace[..|trace| - 1]) + match trace[|trace| - 1]
                                         case Received(asked, response, _) => [Reception(asked, response)]
                                         case _ => []
  }

  lemma OneMore(trace: seq<Event>, e: Event)
    ensures Sendings(trace + [e]) == Sendings(trace) + match e
                                                       case Sent(packet, ttl, _) => [Sending(packet, ttl, true)]
                                                       case Refused(packet, ttl, _) => [Sending(packet, ttl, false)]
                                                       case Received(_, _, _) => []
    ensures Receptions(trace + [e]) == Receptions(trace) + match e
                                                           case Received(asked, response, _) => [Reception(asked, response)]
                                                           case _ => []
  {
    assert (trace + [e])[..|trace|] == trace;
  }
}
