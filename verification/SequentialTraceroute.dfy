/** `SequentialTraceroute`: one probe at a time, waiting for each before the next. */
module SequentialTraceroute {
  import opened Bytes
  import opened Headers
  import opened Packets
  import opened ProbeResults
  import opened Schedule
  import opened Traces
  import opened Validators

  // ----- What a probe meets in the network -----

  datatype Outcome = NoReply | Reply(sender: SocketAddress)

  /** The outcome a result reports. */
  function Kind(r: ProbeResult): Outcome {
    if r.success && r.responseSender.Some? then Reply(r.responseSender.value) else NoReply
  }

  /** One call of `tryReceiving`: the milliseconds it was given, what it brought, and when it returned. */
  datatype Attempt = Attempt(asked: nat, response: Option<Response>, at: int)

  /** The wait for one probe: when it was sent and the receive attempts made since. */
  datatype Wait = Wait(sentAt: int, attempts: seq<Attempt>)

  predicate Accepts(valid: (Packet, Response) -> Verdict, p: Packet, attempt: Attempt) {
    attempt.response.Some? && valid(p, attempt.response.value) == Accepted
  }

  predicate Throws(valid: (Packet, Response) -> Verdict, p: Packet, attempt: Attempt) {
    attempt.response.Some? && valid(p, attempt.response.value) == Threw
  }

  /** The outcome that follows from the receive attempts made for a probe: its first accepted response. */
  function OutcomeOf(valid: (Packet, Response) -> Verdict, p: Packet, attempts: seq<Attempt>): Outcome {
    if attempts == [] then NoReply
    else if Accepts(valid, p, attempts[0]) then Reply(attempts[0].response.value.info.client)
    else OutcomeOf(valid, p, attempts[1..])
  }

  lemma {:induction false} OutcomeOfFirstAccepted(valid: (Packet, Response) -> Verdict, p: Packet, attempts: seq<Attempt>)
    requires forall i :: 0 <= i < |attempts| - 1 ==> !Accepts(valid, p, attempts[i])
    ensures OutcomeOf(valid, p, attempts)
         == if attempts != [] && Accepts(valid, p, attempts[|attempts| - 1])
            then Reply(attempts[|attempts| - 1].response.value.info.client) else NoReply
    decreases attempts
  {
    if attempts != [] && !Accepts(valid, p, attempts[0]) {
      OutcomeOfFirstAccepted(valid, p, attempts[1..]);
    }
  }

  // ----- The environment -----

  function ReceivedAll(attempts: seq<Attempt>): seq<Event> {
    seq(|attempts|, i requires 0 <= i < |attempts| => Received(attempts[i].asked, attempts[i].response, attempts[i].at))
  }

  /**
   The clock and the data sender. Receiving takes at least one microsecond and at
   most the milliseconds it was given (one microsecond when that is none); everything
   else about both calls is arbitrary. `trace` records every call.
   */
  class Network {
    var now: int
    ghost var trace: seq<Event>

    constructor (start: int)
      ensures now == start && trace == []
    {
      now, trace := start, [];
    }

    method TrySending(packet: Packet, ttl: nat) returns (sent: bool)
      modifies this
      ensures now >= old(now)
      ensures trace == old(trace) + [if sent then Sent(packet, ttl, now) else Refused(packet, ttl, now)]
    {
      var later: int := *;
      now := if later > now then later else now;
      sent := *;
      trace := trace + [if sent then Sent(packet, ttl, now) else Refused(packet, ttl, now)];
    }

    method TryReceiving(milliseconds: nat) returns (response: Option<Response>)
      modifies this
      ensures old(now) + 1 <= now <= old(now) + MaxReceiveTime(1000 * milliseconds)
      ensures trace == old(trace) + [Received(milliseconds, response, now)]
    {
      var elapsed: int := *;
      var most := MaxReceiveTime(1000 * milliseconds);
      now := now + if 1 <= elapsed <= most then elapsed else most;
      response := *;
      trace := trace + [Received(milliseconds, response, now)];
    }
  }

  // ----- One probe -----

  datatype ProbeOutcome = Probed(result: ProbeResult) | SendFailed | ValidationThrew

  /** When the `i`-th attempt began: at the sending, or when the attempt before it returned. */
  function BegunAt(w: Wait, i: nat): int
    requires i <= |w.attempts|
  {
    if i == 0 then w.sentAt else w.attempts[i - 1].at
  }

  /**
   An attempt begun at the given time asks for the whole milliseconds left since the
   sending, of which at least 10 microseconds must be left; it takes time, but no more
   than that; and it does not make validation throw.
   */
  predicate AttemptMade(valid: (Packet, Response) -> Verdict, p: Packet, timeout: nat, sentAt: int, begun: int, a: Attempt) {
    var left := timeout - (begun - sentAt);
    left >= 10 && a.asked == left / 1000 && 1 <= a.at - begun <= (if left < 1000 then 1 else left) && !Throws(valid, p, a)
  }

  /** The attempts so far, one after the other. */
  predicate Waiting(valid: (Packet, Response) -> Verdict, p: Packet, timeout: nat, w: Wait) {
    forall i :: 0 <= i < |w.attempts| ==> AttemptMade(valid, p, timeout, w.sentAt, BegunAt(w, i), w.attempts[i])
  }

  predicate AcceptedLast(valid: (Packet, Response) -> Verdict, p: Packet, w: Wait) {
    w.attempts != [] && Accepts(valid, p, w.attempts[|w.attempts| - 1])
  }

  /** A wait that is over: with the first accepted response, or when less than 10 microseconds are left. */
  predicate Waited(valid: (Packet, Response) -> Verdict, p: Packet, timeout: nat, w: Wait) {
    && Waiting(valid, p, timeout, w)
    && (forall i :: 0 <= i < |w.attempts| - 1 ==> !Accepts(valid, p, w.attempts[i]))
    && (AcceptedLast(valid, p, w) || timeout - (BegunAt(w, |w.attempts|) - w.sentAt) < 10)
  }

  /** A success reports the time from the sending to the accepted response and its sender; a failure the timeout. */
  function ResultOf(valid: (Packet, Response) -> Verdict, p: Packet, timeout: nat, w: Wait): ProbeResult {
    if AcceptedLast(valid, p, w) then
      var last := w.attempts[|w.attempts| - 1];
      ProbeResult(true, last.at - w.sentAt, Some(last.response.value.info.client))
    else ProbeResult(false, timeout, None)
  }

  /** A result is a success within the timeout, or a failure after exactly the timeout. */
  predicate ResultTimely(r: ProbeResult, timeout: nat) {
    if r.success then 1 <= r.waitedFor <= timeout && r.responseSender.Some? else r == FailedProbe(timeout)
  }

  /** The times of the attempts increase, so there are at most `timeout - 9`, and the last is within the timeout. */
  lemma {:induction false} WaitingTimes(valid: (Packet, Response) -> Verdict, p: Packet, timeout: nat, w: Wait, n: nat)
    requires Waiting(valid, p, timeout, w) && n <= |w.attempts|
    ensures w.sentAt + n <= BegunAt(w, n)
    ensures n > 0 ==> n <= timeout - 9 && BegunAt(w, n) <= w.sentAt + timeout
  {
    if n > 0 {
      WaitingTimes(valid, p, timeout, w, n - 1);
      var left := timeout - (BegunAt(w, n - 1) - w.sentAt);
      assert left >= 10;
    }
  }

  /** What the result of a wait means. */
  lemma ResultMeaning(valid: (Packet, Response) -> Verdict, p: Packet, timeout: nat, w: Wait)
    requires Waited(valid, p, timeout, w)
    ensures Kind(ResultOf(valid, p, timeout, w)) == OutcomeOf(valid, p, w.attempts)
    ensures ResultTimely(ResultOf(valid, p, timeout, w), timeout)
    ensures |w.attempts| <= if timeout <= 9 then 0 else timeout - 9
  {
    OutcomeOfFirstAccepted(valid, p, w.attempts);
    WaitingTimes(valid, p, timeout, w, |w.attempts|);
  }

  /** The trace of one probe: its sending, then the receive attempts made for it. */
  function Episode(packet: Packet, ttl: nat, w: Wait): seq<Event> {
    [Sent(packet, ttl, w.sentAt)] + ReceivedAll(w.attempts)
  }

  /**
   The body of the retry loop. The trace grows by the sending and the attempts of one
   wait, whose result is reported; or by a refused sending; or by a wait whose last
   response made validation throw.
   */
  method ProbeOnce(net: Network, packet: Packet, ttl: nat, timeout: nat, valid: (Packet, Response) -> Verdict)
    returns (outcome: ProbeOutcome, ghost w: Wait)
    modifies net
    ensures net.trace == old(net.trace) + if outcome.SendFailed? then [Refused(packet, ttl, net.now)] else Episode(packet, ttl, w)
    ensures old(net.now) <= w.sentAt <= net.now
    ensures outcome.Probed? ==>
              && Waited(valid, packet, timeout, w) && outcome.result == ResultOf(valid, packet, timeout, w)
              && net.now == BegunAt(w, |w.attempts|)
    ensures outcome.ValidationThrew? ==>
              && w.attempts != [] && Throws(valid, packet, w.attempts[|w.attempts| - 1])
              && Waiting(valid, packet, timeout, w.(attempts := w.attempts[..|w.attempts| - 1]))
  {
    hide MaxReceiveTime, Waiting, Episode;
    var sent := net.TrySending(packet, ttl);
    w := Wait(net.now, []);
    if !sent {
      return SendFailed, w;
    }
    NothingReceived(packet, ttl, valid, timeout, w);
    var sentAt := net.now;
    var isResponseValid := false;
    var response: Option<Response> := None;
    var timeLeft := TimeLeft(net.now, sentAt, timeout);
    while !(isResponseValid || timeLeft < MIN_TIME_WAIT_FOR_RESPONSE)
      invariant w.sentAt == sentAt && net.now == BegunAt(w, |w.attempts|) && sentAt <= net.now
      invariant timeLeft == TimeLeft(net.now, sentAt, timeout)
      invariant net.trace == old(net.trace) + Episode(packet, ttl, w)
      invariant Waiting(valid, packet, timeout, w)
      invariant isResponseValid <==> AcceptedLast(valid, packet, w)
      invariant isResponseValid ==> response == w.attempts[|w.attempts| - 1].response
      invariant forall i :: 0 <= i < |w.attempts| - 1 ==> !Accepts(valid, packet, w.attempts[i])
      decreases !isResponseValid, sentAt + timeout - net.now
    {
      ghost var before := w;
      MillisecondsLeft(timeLeft);
      response := net.TryReceiving(timeLeft / 1000);
      w := Wait(sentAt, w.attempts + [Attempt(timeLeft / 1000, response, net.now)]);
      EpisodeGrows(old(net.trace), packet, ttl, before, w);
      assert before.attempts == w.attempts[..|w.attempts| - 1];
      if response.Some? {
        match valid(packet, response.value)
        case Threw => return ValidationThrew, w;
        case Accepted => isResponseValid := true;
        case Rejected =>
      }
      WaitingGrows(valid, packet, timeout, before, w);
      timeLeft := TimeLeft(net.now, sentAt, timeout);
    }
    if isResponseValid {
      outcome := Probed(SuccessProbe(TimePassed(net.now, sentAt), response.value.info.client));
    } else {
      outcome := Probed(FailedProbe(timeout));
    }
  }

  lemma NothingReceived(packet: Packet, ttl: nat, valid: (Packet, Response) -> Verdict, timeout: nat, w: Wait)
    requires w.attempts == []
    ensures Episode(packet, ttl, w) == [Sent(packet, ttl, w.sentAt)] && Waiting(valid, packet, timeout, w)
  {
  }

  lemma EpisodeGrows(before: seq<Event>, packet: Packet, ttl: nat, v: Wait, w: Wait)
    requires w.attempts != [] && v == w.(attempts := w.attempts[..|w.attempts| - 1])
    ensures var a := w.attempts[|w.attempts| - 1];
            before + Episode(packet, ttl, v) + [Received(a.asked, a.response, a.at)] == before + Episode(packet, ttl, w)
  {
    var a := w.attempts[|w.attempts| - 1];
    assert ReceivedAll(w.attempts) == ReceivedAll(v.attempts) + [Received(a.asked, a.response, a.at)];
  }

  lemma WaitingGrows(valid: (Packet, Response) -> Verdict, p: Packet, timeout: nat, v: Wait, w: Wait)
    requires w.attempts != [] && v == w.(attempts := w.attempts[..|w.attempts| - 1]) && Waiting(valid, p, timeout, v)
    requires AttemptMade(valid, p, timeout, w.sentAt, BegunAt(v, |v.attempts|), w.attempts[|w.attempts| - 1])
    ensures Waiting(valid, p, timeout, w)
  {
    hide AttemptMade;
    var n := |v.attempts|;
    forall i | 0 <= i <= n ensures BegunAt(w, i) == BegunAt(v, i) {
    }
    assert forall i :: 0 <= i < n ==> w.attempts[i] == v.attempts[i];
  }

  lemma MillisecondsLeft(left: nat)
    requires left >= 10
    ensures MaxReceiveTime(1000 * (left / 1000)) <= if left < 1000 then 1 else left
  {
  }

  // ----- The whole run -----

  datatype RunOutcome = Completed(results: seq<TracerouteResult>) | Failed

  /** What was received while waiting for each probe. */
  type Heard = map<Label, Wait>

  /** The trace of a run over some probes: their episodes one after the other. */
  function Episodes(ls: seq<Label>, packetFor: Label -> Packet, heard: Heard): seq<Event>
    requires forall l :: l in ls ==> l in heard
  {
    if ls == [] then []
    else
      var n := |ls| - 1;
      Episodes(ls[..n], packetFor, heard) + Episode(packetFor(ls[n]), ls[n].ttl, heard[ls[n]])
  }

  lemma {:induction false} EpisodesOfExtension(ls: seq<Label>, packetFor: Label -> Packet, heard: Heard, more: Heard)
    requires forall l :: l in ls ==> l in heard && l in more && heard[l] == more[l]
    ensures Episodes(ls, packetFor, heard) == Episodes(ls, packetFor, more)
    decreases |ls|
  {
    if ls != [] {
      EpisodesOfExtension(ls[..|ls| - 1], packetFor, heard, more);
    }
  }

  /**
   The shape of a sequential result: consecutive ttls from the first, `retries`
   results each, a reply from the destination in the last row only, and a shorter
   list only when its last row has one.
   */
  predicate SequentialShape(ttlBegin: nat, ttlEnd: nat, retries: nat, destination: SocketAddress, rs: seq<TracerouteResult>) {
    && |rs| <= ttlEnd + 1 - ttlBegin
    && (forall j :: 0 <= j < |rs| ==> rs[j].ttl == ttlBegin + j && |rs[j].probeResults| == retries)
    && (forall j :: 0 <= j < |rs| - 1 ==> !RepliedFrom(rs[j].probeResults, destination))
    && (|rs| < ttlEnd + 1 - ttlBegin ==> rs != [] && RepliedFrom(rs[|rs| - 1].probeResults, destination))
  }

  /** The results of a row are those of the waits for its probes. */
  predicate RowHeard(row: TracerouteResult, heard: Heard, timeout: nat,
                     valid: (Packet, Response) -> Verdict, packetFor: Label -> Packet)
  {
    forall i :: 0 <= i < |row.probeResults| ==>
      && Label(row.ttl, i) in heard
      && Waited(valid, packetFor(Label(row.ttl, i)), timeout, heard[Label(row.ttl, i)])
      && row.probeResults[i] == ResultOf(valid, packetFor(Label(row.ttl, i)), timeout, heard[Label(row.ttl, i)])
  }

  /** The probes that have been made when the loops stand at a ttl and retry. */
  function ProbedSoFar(ttlBegin: nat, ttl: nat, retries: nat, i: nat): seq<Label>
    requires ttlBegin <= ttl && i <= retries
  {
    (if ttl == ttlBegin then [] else Labels(ttlBegin, ttl - 1, retries)) + Row(ttl, retries)[..i]
  }

  /** Exactly those probes have been heard for, and the trace is that of their episodes. */
  ghost predicate Recorded(net: Network, before: seq<Event>, ls: seq<Label>, packetFor: Label -> Packet, heard: Heard)
    reads net
  {
    && (forall l :: l in heard <==> l in ls)
    && net.trace == before + Episodes(ls, packetFor, heard)
  }

  /** The last thing that happened was a refused send, or a response that made validation throw. */
  ghost predicate Aborted(net: Network, valid: (Packet, Response) -> Verdict, packetFor: Label -> Packet)
    reads net
  {
    && net.trace != []
    && match net.trace[|net.trace| - 1]
       case Sent(_, _, _) => false
       case Refused(_, _, _) => true
       case Received(_, response, _) => response.Some? && exists l :: valid(packetFor(l), response.value) == Threw
  }

  lemma {:induction false} LabelsSnoc(b: nat, e: nat, n: nat)
    requires b <= e
    ensures Labels(b, e, n) == (if e == b then [] else Labels(b, e - 1, n)) + Row(e, n)
    decreases e - b
  {
    if b < e {
      LabelsSnoc(b + 1, e, n);
      if b + 1 < e {
        assert Row(b, n) + (Labels(b + 1, e - 1, n) + Row(e, n)) == (Row(b, n) + Labels(b + 1, e - 1, n)) + Row(e, n);
      } else {
        assert Labels(b, e - 1, n) == Row(b, n) + Labels(b + 1, e - 1, n) == Row(b, n);
      }
    } else {
      assert Labels(b, e, n) == Row(b, n) + Labels(b + 1, e, n);
    }
  }

  /** A probe after those already made is none of them. */
  lemma NewProbe(b: nat, ttl: nat, n: nat, i: nat)
    requires b <= ttl && i < n
    ensures Label(ttl, i) !in ProbedSoFar(b, ttl, n, i)
    ensures ProbedSoFar(b, ttl, n, i + 1) == ProbedSoFar(b, ttl, n, i) + [Label(ttl, i)]
  {
    if ttl > b {
      LabelScheduled(b, ttl - 1, n, Label(ttl, i));
    }
    assert Row(ttl, n)[..i + 1] == Row(ttl, n)[..i] + [Label(ttl, i)];
  }

  /** One more episode recorded. */
  lemma RecordOne(ls: seq<Label>, l: Label, packetFor: Label -> Packet, heard: Heard, w: Wait)
    requires forall k :: k in heard <==> k in ls
    requires l !in ls
    ensures forall k :: k in heard[l := w] <==> k in ls + [l]
    ensures Episodes(ls + [l], packetFor, heard[l := w]) == Episodes(ls, packetFor, heard) + Episode(packetFor(l), l.ttl, w)
  {
    var more := heard[l := w];
    assert (ls + [l])[..|ls|] == ls;
    EpisodesOfExtension(ls, packetFor, heard, more);
  }

  /** The retry loop for one ttl, after the probes of the ttls before it. */
  method ProbeTtl(net: Network, ttlBegin: nat, ttl: nat, retries: nat, timeout: nat,
                  packetFor: Label -> Packet, valid: (Packet, Response) -> Verdict,
                  ghost before: Heard, ghost launch: seq<Event>)
    returns (completed: bool, row: seq<ProbeResult>, reached: bool, ghost heard: Heard)
    requires ttlBegin <= ttl && Recorded(net, launch, ProbedSoFar(ttlBegin, ttl, retries, 0), packetFor, before)
    modifies net
    ensures !completed ==> Aborted(net, valid, packetFor)
    ensures completed ==>
              && |row| == retries
              && RowHeard(TracerouteResult(ttl, row), heard, timeout, valid, packetFor)
              && (forall l :: l in before ==> l in heard && heard[l] == before[l])
              && Recorded(net, launch, ProbedSoFar(ttlBegin, ttl, retries, retries), packetFor, heard)
              && (reached <==> exists i :: 0 <= i < |row| && row[i].responseSender == Some(packetFor(Label(ttl, i)).destination))
  {
    hide Waited, ResultOf, ProbedSoFar, Episodes, Episode;
    row, reached, heard := [], false, before;
    for i := 0 to retries
      invariant |row| == i
      invariant RowHeard(TracerouteResult(ttl, row), heard, timeout, valid, packetFor)
      invariant forall l :: l in before ==> l in heard && heard[l] == before[l]
      invariant Recorded(net, launch, ProbedSoFar(ttlBegin, ttl, retries, i), packetFor, heard)
      invariant reached <==> exists k :: 0 <= k < |row| && row[k].responseSender == Some(packetFor(Label(ttl, k)).destination)
    {
      ghost var made, l := ProbedSoFar(ttlBegin, ttl, retries, i), Label(ttl, i);
      NewProbe(ttlBegin, ttl, retries, i);
      var packet := packetFor(Label(ttl, i));
      var outcome, w := ProbeOnce(net, packet, ttl, timeout, valid);
      if !outcome.Probed? {
        LastOfEpisode(packet, ttl, w);
        return false, row, reached, heard;
      }
      RecordOne(made, l, packetFor, heard, w);
      assert launch + Episodes(made, packetFor, heard) + Episode(packet, ttl, w)
          == launch + Episodes(made + [l], packetFor, heard[l := w]);
      heard := heard[l := w];
      var next := row + [outcome.result];
      if outcome.result.success && outcome.result.responseSender == Some(packet.destination) {
        assert next[i].responseSender == Some(packetFor(Label(ttl, i)).destination);
        reached := true;
      } else {
        assert next[i].responseSender != Some(packet.destination) by {
          ResultMeaning(valid, packet, timeout, w);
          SenderOfSuccess(outcome.result, timeout);
        }
      }
      assert forall k :: 0 <= k < |row| ==> next[k] == row[k];
      row := next;
    }
    completed := true;
  }

  lemma SenderOfSuccess(r: ProbeResult, timeout: nat)
    requires ResultTimely(r, timeout)
    ensures r.responseSender.Some? <==> r.success
  {
  }

  lemma LastOfEpisode(packet: Packet, ttl: nat, w: Wait)
    ensures Episode(packet, ttl, w) != []
    ensures w.attempts != [] ==>
              var a := w.attempts[|w.attempts| - 1];
              Episode(packet, ttl, w)[|Episode(packet, ttl, w)| - 1] == Received(a.asked, a.response, a.at)
  {
  }

  /**
   `beginProbing`. `heard` is what was received while waiting for each probe: the
   trace of the network grows by the episodes of the probes made, in schedule order.
   The run fails only because a send was refused or a validation threw.
   */
  method BeginProbing(net: Network, ttlBegin: nat, ttlEnd: nat, retries: nat, timeout: nat, destination: SocketAddress,
                      packetFor: Label -> Packet, valid: (Packet, Response) -> Verdict)
    returns (r: RunOutcome, ghost heard: Heard)
    requires ttlBegin <= ttlEnd < TWO_TO_32 - 1 && retries < TWO_TO_32
    requires forall l :: packetFor(l).destination == destination
    modifies net
    ensures r.Failed? ==> Aborted(net, valid, packetFor)
    ensures r.Completed? ==>
              && r.results != [] && SequentialShape(ttlBegin, ttlEnd, retries, destination, r.results)
              && (forall j :: 0 <= j < |r.results| ==> RowHeard(r.results[j], heard, timeout, valid, packetFor))
              && Recorded(net, old(net.trace), Labels(ttlBegin, ttlBegin + |r.results| - 1, retries), packetFor, heard)
  {
    hide RowHeard, RepliedFrom, ProbedSoFar, Episodes, Labels;
    var probes: seq<TracerouteResult> := [];
    heard := map[];
    var ttl := ttlBegin;
    var destinationReached := false;
    NothingProbed(ttlBegin, retries, packetFor);
    assert old(net.trace) + [] == old(net.trace);
    while ttl <= ttlEnd && !destinationReached
      invariant ttlBegin <= ttl <= ttlEnd + 1
      invariant |probes| == ttl - ttlBegin
      invariant forall j :: 0 <= j < |probes| ==> probes[j].ttl == ttlBegin + j && |probes[j].probeResults| == retries
      invariant forall j :: 0 <= j < |probes| ==> RowHeard(probes[j], heard, timeout, valid, packetFor)
      invariant forall j :: 0 <= j < |probes| - 1 ==> !RepliedFrom(probes[j].probeResults, destination)
      invariant destinationReached <==> probes != [] && RepliedFrom(probes[|probes| - 1].probeResults, destination)
      invariant Recorded(net, old(net.trace), ProbedSoFar(ttlBegin, ttl, retries, 0), packetFor, heard)
    {
      var completed, row, reached, heardNow :=
        ProbeTtl(net, ttlBegin, ttl, retries, timeout, packetFor, valid, heard, old(net.trace));
      if !completed {
        return Failed, heard;
      }
      ReachedMeaning(row, ttl, destination, packetFor);
      RowDone(ttlBegin, ttl, retries);
      var next := probes + [TracerouteResult(ttl, row)];
      forall j | 0 <= j < |probes| ensures RowHeard(probes[j], heardNow, timeout, valid, packetFor) {
        HeardMore(probes[j], heard, heardNow, timeout, valid, packetFor);
      }
      probes, heard, destinationReached := next, heardNow, reached;
      ttl := ttl + 1;
    }
    RowDone(ttlBegin, ttl - 1, retries);
    r := Completed(probes);
  }

  lemma HeardMore(row: TracerouteResult, heard: Heard, more: Heard, timeout: nat,
                  valid: (Packet, Response) -> Verdict, packetFor: Label -> Packet)
    requires RowHeard(row, heard, timeout, valid, packetFor)
    requires forall l :: l in heard ==> l in more && more[l] == heard[l]
    ensures RowHeard(row, more, timeout, valid, packetFor)
  {
    hide OutcomeOf, Kind, ResultTimely;
  }

  lemma NothingProbed(ttlBegin: nat, retries: nat, packetFor: Label -> Packet)
    ensures ProbedSoFar(ttlBegin, ttlBegin, retries, 0) == [] && Episodes([], packetFor, map[]) == []
  {
  }

  lemma RowDone(ttlBegin: nat, ttl: nat, retries: nat)
    requires ttlBegin <= ttl
    ensures ProbedSoFar(ttlBegin, ttl, retries, retries) == ProbedSoFar(ttlBegin, ttl + 1, retries, 0) == Labels(ttlBegin, ttl, retries)
  {
    LabelsSnoc(ttlBegin, ttl, retries);
    assert Row(ttl, retries)[..retries] == Row(ttl, retries);
  }

  lemma ReachedMeaning(row: seq<ProbeResult>, ttl: nat, destination: SocketAddress, packetFor: Label -> Packet)
    requires forall l :: packetFor(l).destination == destination
    ensures RepliedFrom(row, destination)
       <==> exists i :: 0 <= i < |row| && row[i].responseSender == Some(packetFor(Label(ttl, i)).destination)
  {
    if RepliedFrom(row, destination) {
      var x :| x in row && x.responseSender == Some(destination);
      var i :| 0 <= i < |row| && row[i] == x;
      assert row[i].responseSender == Some(packetFor(Label(ttl, i)).destination);
    }
  }
}
