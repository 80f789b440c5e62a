/**
 The three parts together: probes as the source serializes them, replies as
 routers and the destination write them, the source's validators deciding which
 probe each belongs to, and the concurrent engine collecting them.
 */
module EndToEnd {
  import opened Bytes
  import opened Packets
  import opened ProbeResults
  import opened Schedule
  import opened Validators
  import opened ValidatorProofs
  import opened Replies
  import opened FastMachine
  import opened FastSafety
  import opened FastRuns
  import opened FastLosses
  import opened SequentialTraceroute
  import opened Refinement
  import opened AnsweredRuns
  import Fast = FastTraceroute

  /** The response is a genuine reply to some scheduled probe, from the sender the network has for it. */
  ghost predicate GenuineResponse(c: Config, network: Label -> Outcome, r: Response) {
    exists l :: l in Probes(c) && Genuine(c.packetFor(l), r) && network(l) == Reply(r.info.client)
  }

  /** A message no scheduled probe accepts and on which validation does not throw, as other traffic of a raw socket. */
  predicate Harmless(c: Config, r: Response) {
    forall l :: l in Probes(c) ==> c.valid(c.packetFor(l), r) == Rejected
  }

  ghost predicate Expected(c: Config, network: Label -> Outcome, r: Response) {
    GenuineResponse(c, network, r) || Harmless(c, r)
  }

  /** Every response taken in during the run is genuine or harmless; late and duplicate ones are allowed. */
  ghost predicate GenuineTraffic(c: Config, network: Label -> Outcome, acts: seq<Action>) {
    forall k :: 0 <= k < |acts| && acts[k].Process? && acts[k].response.Some? ==>
      Expected(c, network, acts[k].response.value)
  }

  /**
   The same for what the sequential engine hears, and a genuine reply to a probe is
   heard while waiting for it if the network has one.
   */
  ghost predicate SequentialTraffic(c: Config, network: Label -> Outcome, heard: Heard) {
    forall l :: l in heard ==>
      && (forall a :: a in heard[l].attempts && a.response.Some? ==> Expected(c, network, a.response.value))
      && (network(l).Reply? ==> exists a :: a in heard[l].attempts && a.response.Some? && Genuine(c.packetFor(l), a.response.value))
  }

  /**
   Such are late replies to probes of other runs to the same target, which have other
   ids or sequence numbers, and answers of the types that the code drops.
   */
  lemma OthersAreHarmless(c: Config, q: Packet, r: Response)
    requires DistinctProbes(c) && !q.UdpPacket? && Answers(q, r)
    requires forall l :: l in Probes(c) ==> SameTarget(c.packetFor(l), q)
    requires forall l :: l in Probes(c) ==> !Recognised(q, r) || !SameIdentity(c.packetFor(l), q)
    ensures Harmless(c, r)
  {
    hide IsValid, SameTarget, SameIdentity, Probes, Answers, Recognised;
    forall l | l in Probes(c) ensures c.valid(c.packetFor(l), r) == Rejected {
      AnswerAttribution(c.packetFor(l), q, r);
    }
  }

  /** A genuine reply to `l` is taken in while the probe is pending. */
  ghost predicate AnsweredInTime(c: Config, s0: State, acts: seq<Action>, l: Label) {
    exists k :: 0 <= k < |acts| && acts[k].Process? && acts[k].response.Some? &&
      Genuine(c.packetFor(l), acts[k].response.value) &&
      var at := Exec(c, s0, acts[..k]);
      at.Some? && exists p :: p in at.value.pending && p.probe == l
  }

  /** A scheduled probe never throws on such a response, and accepts it only as the network's reply to itself. */
  lemma ExpectedIsHonest(c: Config, network: Label -> Outcome, k: Label, r: Response)
    requires DistinctProbes(c) && k in Probes(c) && Expected(c, network, r)
    ensures c.valid(c.packetFor(k), r) != Threw
    ensures c.valid(c.packetFor(k), r) == Accepted ==> network(k) == Reply(r.info.client)
  {
    hide IsValid, SameTarget, SameIdentity, Probes, Genuine;
    if !Harmless(c, r) {
      var l :| l in Probes(c) && Genuine(c.packetFor(l), r) && network(l) == Reply(r.info.client);
      GenuineReplyAttribution(c.packetFor(k), c.packetFor(l), r);
    }
  }

  /** Hence it is honest in every state of a fast run. */
  lemma GenuineIsHonest(c: Config, network: Label -> Outcome, s: State, r: Response)
    requires DistinctProbes(c) && QueueSound(c, s) && Expected(c, network, r)
    ensures Honest(c, network, s, Some(r))
  {
    hide DistinctProbes, Expected, Probes;
    forall p | p in s.pending
      ensures c.valid(p.packet, r) != Threw
      ensures c.valid(p.packet, r) == Accepted ==> network(p.probe) == Reply(r.info.client)
    {
      assert p.packet == c.packetFor(p.probe) && p.probe in Probes(c);
      ExpectedIsHonest(c, network, p.probe, r);
    }
  }

  /** And what the sequential engine hears is honest. */
  lemma SequentialTrafficIsHonest(c: Config, network: Label -> Outcome, rs: seq<TracerouteResult>, heard: Heard)
    requires DistinctProbes(c) && SequentialResult(c, rs, heard) && SequentialTraffic(c, network, heard)
    ensures SequentialHonest(c, network, heard)
  {
    forall l | l in heard ensures HonestWait(c.valid, c.packetFor(l), heard[l].attempts, network(l)) {
      hide Probes, SequentialResult, DistinctProbes, Expected, Genuine, HonestWait;
      HeardScheduled(c, rs, heard, l);
      WaitIsHonest(c, network, l, heard[l].attempts);
    }
  }

  lemma HeardScheduled(c: Config, rs: seq<TracerouteResult>, heard: Heard, l: Label)
    requires SequentialResult(c, rs, heard) && l in heard
    ensures l in Probes(c)
  {
    hide RowHeard;
    LabelScheduled(c.ttlBegin, c.ttlBegin + |rs| - 1, c.retries, l);
    LabelScheduled(c.ttlBegin, c.ttlEnd, c.retries, l);
    hide Labels;
  }

  lemma WaitIsHonest(c: Config, network: Label -> Outcome, l: Label, attempts: seq<Attempt>)
    requires DistinctProbes(c) && l in Probes(c)
    requires forall a :: a in attempts && a.response.Some? ==> Expected(c, network, a.response.value)
    requires network(l).Reply? ==> exists a :: a in attempts && a.response.Some? && Genuine(c.packetFor(l), a.response.value)
    ensures HonestWait(c.valid, c.packetFor(l), attempts, network(l))
  {
    hide Probes, DistinctProbes, Expected, Genuine;
    forall i | 0 <= i < |attempts| && Accepts(c.valid, c.packetFor(l), attempts[i])
      ensures network(l) == Reply(attempts[i].response.value.info.client)
    {
      ExpectedIsHonest(c, network, l, attempts[i].response.value);
    }
    if network(l).Reply? {
      var a :| a in attempts && a.response.Some? && Genuine(c.packetFor(l), a.response.value);
      OwnReplyAccepted(c, l, a.response.value);
      var i :| 0 <= i < |attempts| && attempts[i] == a;
      assert Accepts(c.valid, c.packetFor(l), attempts[i]);
    }
  }

  lemma OwnReplyAccepted(c: Config, l: Label, r: Response)
    requires DistinctProbes(c) && l in Probes(c) && Genuine(c.packetFor(l), r)
    ensures c.valid(c.packetFor(l), r) == Accepted
  {
    hide IsValid, Genuine, Probes;
    GenuineReplyAttribution(c.packetFor(l), c.packetFor(l), r);
  }

  lemma GenuineTrafficIsHonest(c: Config, network: Label -> Outcome, launch: int, acts: seq<Action>)
    requires DistinctProbes(c) && GenuineTraffic(c, network, acts)
    ensures HonestRun(c, network, Init([], launch), acts)
  {
    hide DistinctProbes, QueueSound, Expected;
    forall k | 0 <= k < |acts| && acts[k].Process? && Exec(c, Init([], launch), acts[..k]).Some?
      ensures Honest(c, network, Exec(c, Init([], launch), acts[..k]).value, acts[k].response)
    {
      var at := Exec(c, Init([], launch), acts[..k]).value;
      RunConserves(c, launch, acts[..k], at);
      if acts[k].response.Some? {
        GenuineIsHonest(c, network, at, acts[k].response.value);
      }
    }
  }

  lemma AnswerArrives(c: Config, launch: int, acts: seq<Action>, l: Label)
    requires DistinctProbes(c) && l in Probes(c)
    requires AnsweredInTime(c, Init([], launch), acts, l)
    ensures ReplyArrives(c, Init([], launch), acts, l)
  {
    hide IsValid, SameTarget, Genuine, Probes;
    var s0 := Init([], launch);
    var k :| 0 <= k < |acts| && acts[k].Process? && acts[k].response.Some? &&
      Genuine(c.packetFor(l), acts[k].response.value) &&
      var at := Exec(c, s0, acts[..k]);
      at.Some? && exists p :: p in at.value.pending && p.probe == l;
    var at := Exec(c, s0, acts[..k]).value;
    var p :| p in at.pending && p.probe == l;
    RunConserves(c, launch, acts[..k], at);
    assert p.packet == c.packetFor(l);
    OwnReplyAccepted(c, l, acts[k].response.value);
  }

  /**
   The hypotheses on the network for a run of the fast engine and one of the sequential
   engine, each with its own packets, in terms of what each has recorded.
   */
  ghost predicate OneNetwork(c: Config, d: Config, network: Label -> Outcome, launch: State, acts: seq<Action>, heard: Heard) {
    && GenuineTraffic(c, network, acts)
    && (forall l :: l in Probes(c) && network(l).Reply? ==> AnsweredInTime(c, launch, acts, l))
    && SequentialTraffic(d, network, heard)
  }

  /**
   Fast refines Sequential, end to end. Each engine has probes of its own, ICMP or TCP
   with distinct ids or sequence numbers. On one network, whose replies are genuine and
   reach both engines in time among any harmless traffic, every interleaving of the
   fast engine that exits by count agrees with every result of the sequential one for
   the same search. What either engine accepts is derived from the bytes of the replies.
   */
  lemma FastAgreesEndToEnd(c: Config, d: Config, network: Label -> Outcome, launch: int, acts: seq<Action>, s: State,
                           rs: seq<TracerouteResult>, heard: Heard)
    requires WellFormed(c) && c.retries >= 1 && SameSearch(c, d) && DistinctProbes(c) && DistinctProbes(d)
    requires Exec(c, Init([], launch), acts) == Some(s) && s.receiver.Exited? && |s.log| == |Probes(c)|
    requires OneNetwork(c, d, network, Init([], launch), acts, heard) && SequentialResult(d, rs, heard)
    ensures Agree(FastResult(c, s), rs)
  {
    hide Exec, GenuineTraffic, HonestRun, AnsweredInTime, ReplyArrives, SequentialResult, SequentialTraffic, SequentialHonest;
    hide Agree, DistinctProbes, Probes;
    GenuineTrafficIsHonest(c, network, launch, acts);
    SequentialTrafficIsHonest(d, network, rs, heard);
    forall l | l in Probes(c) && network(l).Reply? ensures ReplyArrives(c, Init([], launch), acts, l) {
      AnswerArrives(c, launch, acts, l);
    }
    ValidatedFastRefinesSequential(c, d, network, launch, acts, s, rs, heard);
  }

  /** With all probes registered by the last safe moment, every finished run exits by count. */
  lemma TimelyFastAgreesEndToEnd(c: Config, d: Config, network: Label -> Outcome, launch: int, acts: seq<Action>, s: State,
                                 limit: int, rs: seq<TracerouteResult>, heard: Heard)
    requires WellFormed(c) && c.retries >= 1 && SameSearch(c, d) && DistinctProbes(c) && DistinctProbes(d)
    requires c.slack < Deadline(c)
    requires Exec(c, Init([], launch), acts) == Some(s) && s.receiver.Exited?
    requires AllRegisteredBy(c, Init([], launch), acts, limit) && limit <= s.beginAt + LastSafeMoment(c)
    requires OneNetwork(c, d, network, Init([], launch), acts, heard) && SequentialResult(d, rs, heard)
    ensures Agree(FastResult(c, s), rs)
  {
    hide Exec, AllRegisteredBy, OneNetwork, SequentialResult, Agree, DistinctProbes, Probes, WellFormed, LastSafeMoment;
    NoProbeLost(c, launch, acts, s, limit);
    assert |s.log| == |Probes(c)| by {
      assert |multiset(LogLabels(s.log))| == |s.log|;
      assert |multiset(Probes(c))| == |Probes(c)|;
    }
    FastAgreesEndToEnd(c, d, network, launch, acts, s, rs, heard);
  }

  /**
   The two objects themselves, run one after the other with packets drawn anew: if both
   complete, the fast one by count, and the recorded traffic is that of one network,
   their results agree.
   */
  method RunBoth(c: Config, d: Config, net: Network, fast: Fast.FastTraceroute, ghost network: Label -> Outcome)
    returns (sequential: RunOutcome, completed: bool, results: seq<TracerouteResult>, ghost heard: Heard)
    requires WellFormed(c) && 1 <= c.retries < TWO_TO_32 && SameSearch(c, d) && DistinctProbes(c) && DistinctProbes(d)
    requires forall l :: d.packetFor(l).destination == d.destination
    requires fast.c == c && fast.queue == []
    modifies net, fast
    ensures sequential.Completed? ==>
              sequential.results != [] &&
              Recorded(net, old(net.trace), Labels(d.ttlBegin, d.ttlBegin + |sequential.results| - 1, d.retries), d.packetFor, heard)
    ensures sequential.Completed? && completed && |fast.state.log| == |Probes(c)|
            && OneNetwork(c, d, network, fast.launch, fast.acts, heard) ==>
              Agree(results, sequential.results)
  {
    hide DistinctProbes, Probes, OneNetwork, Exec, Agree, RowHeard, SequentialShape, Labels, Episodes, FastResult;
    sequential, heard := BeginProbing(net, d.ttlBegin, d.ttlEnd, d.retries, d.timeout, d.destination, d.packetFor, d.valid);
    ghost var launch := fast.clock;
    completed, results := fast.BeginProbing();
    if sequential.Completed? && completed && |fast.state.log| == |Probes(c)|
       && OneNetwork(c, d, network, fast.launch, fast.acts, heard) {
      assert SequentialResult(d, sequential.results, heard);
      FastAgreesEndToEnd(c, d, network, launch, fast.acts, fast.state, sequential.results, heard);
    }
  }

  // ----- The hypotheses can be met -----

  /** Every scheduled probe has a genuine reply. */
  ghost predicate Replied(c: Config, reply: Label -> Response) {
    forall l :: l in Probes(c) ==> Genuine(c.packetFor(l), reply(l))
  }

  lemma RepliesAccepted(c: Config, reply: Label -> Response)
    requires DistinctProbes(c) && Replied(c, reply)
    ensures forall l :: l in Probes(c) ==> c.valid(c.packetFor(l), reply(l)) == Accepted
  {
    hide DistinctProbes, Genuine, Probes;
    forall l | l in Probes(c) ensures c.valid(c.packetFor(l), reply(l)) == Accepted {
      OwnReplyAccepted(c, l, reply(l));
    }
  }

  lemma AnsweredTraffic(c: Config, network: Label -> Outcome, reply: Label -> Response)
    requires Answerable(c, reply) && Replied(c, reply)
    requires forall l :: l in Probes(c) ==> network(l) == Reply(reply(l).info.client)
    ensures GenuineTraffic(c, network, AnsweredRun(c, reply))
  {
    hide Genuine, Harmless, Answerable, AnsweredRun, TakenIn;
    var acts := AnsweredRun(c, reply);
    forall k | 0 <= k < |acts| && acts[k].Process? && acts[k].response.Some?
      ensures Expected(c, network, acts[k].response.value)
    {
      var i := RunTakesIn(c, reply, k);
      assert Probes(c)[i] in Probes(c) && acts[k].response == Some(reply(Probes(c)[i])) by { TakenInMeaning(c, reply, acts, k, i); }
    }
  }

  lemma AnsweredPromptly(c: Config, reply: Label -> Response, l: Label)
    requires Answerable(c, reply) && Replied(c, reply) && l in Probes(c)
    ensures AnsweredInTime(c, Init([], 0), AnsweredRun(c, reply), l)
  {
    hide Genuine, Exec, Answerable, AnsweredRun, TakenIn;
    var i :| 0 <= i < |Probes(c)| && Probes(c)[i] == l;
    var k := RunAnswers(c, reply, i);
    TakenInMeaning(c, reply, AnsweredRun(c, reply), k, i);
    hide Probes;
    var s := AwaitingState(c, reply, i);
    assert s.pending[0] in s.pending;
  }

  /** Any number of probes, sent by each engine with its own packets, and any genuine replies to them from the same senders. */
  lemma AnsweredEndToEnd(c: Config, d: Config, network: Label -> Outcome, replyC: Label -> Response, replyD: Label -> Response)
    returns (acts: seq<Action>, s: State, rs: seq<TracerouteResult>, heard: Heard)
    requires WellFormed(c) && c.retries >= 1 && c.timeout >= 1000 && d.timeout >= 10
    requires SameSearch(c, d) && DistinctProbes(c) && DistinctProbes(d) && Replied(c, replyC) && Replied(d, replyD)
    requires forall l :: l in Probes(c) ==> network(l) == Reply(replyC(l).info.client) == Reply(replyD(l).info.client)
    ensures Exec(c, Init([], 0), acts) == Some(s) && s.receiver.Exited? && |s.log| == |Probes(c)|
    ensures OneNetwork(c, d, network, Init([], 0), acts, heard) && SequentialResult(d, rs, heard)
    ensures Agree(FastResult(c, s), rs)
  {
    RepliesAccepted(c, replyC);
    RepliesAccepted(d, replyD);
    assert Answerable(c, replyC);
    hide DistinctProbes, Exec, Agree, AnsweredRun, GenuineTraffic, AnsweredInTime, SequentialResult, Answerable, Genuine, WellFormed;
    acts := AnsweredRun(c, replyC);
    s := AnsweredRunEnds(c, replyC);
    rs, heard := AnsweredSequential(d, replyD);
    AnsweredTraffic(c, network, replyC);
    forall l | l in Probes(c) ensures AnsweredInTime(c, Init([], 0), acts, l) {
      AnsweredPromptly(c, replyC, l);
    }
    AnsweredHeard(d, network, replyD, heard);
    hide SequentialTraffic, Probes, Replied;
    FastAgreesEndToEnd(c, d, network, 0, acts, s, rs, heard);
  }

  lemma AnsweredHeard(d: Config, network: Label -> Outcome, reply: Label -> Response, heard: Heard)
    requires Replied(d, reply) && forall l :: l in Probes(d) ==> network(l) == Reply(reply(l).info.client)
    requires forall l :: l in heard ==> l in Probes(d) && heard[l] == AnsweredWait(d, reply(l))
    ensures SequentialTraffic(d, network, heard)
  {
    hide Genuine, Harmless, Probes;
    forall l | l in heard
      ensures forall a :: a in heard[l].attempts && a.response.Some? ==> Expected(d, network, a.response.value)
      ensures exists a :: a in heard[l].attempts && a.response.Some? && Genuine(d.packetFor(l), a.response.value)
    {
      assert heard[l].attempts[0].response == Some(reply(l));
      assert GenuineResponse(d, network, reply(l));
    }
  }
}
