/**
 `FastTraceroute` over UDP resolves probes strictly in sending order: a response
 is accepted by every pending probe or by none, so it always goes to the oldest.
 */
module FastFifo {
  import opened Headers
  import opened ProbeResults
  import opened Schedule
  import opened Validators
  import opened ValidatorProofs
  import opened FastMachine
  import opened FastSafety
  import opened FastRuns
  import opened FastTiming

  /** All probes get the same verdict on any response. */
  ghost predicate Indistinguishable(c: Config) {
    forall k, l, r :: k in Probes(c) && l in Probes(c) ==> c.valid(c.packetFor(k), r) == c.valid(c.packetFor(l), r)
  }

  /** UDP probes to one destination are indistinguishable to the UDP validator. */
  lemma UdpProbesIndistinguishable(c: Config)
    requires forall p, r :: c.valid(p, r) == IsValid(p, r)
    requires forall l :: l in Probes(c) ==> c.packetFor(l).UdpPacket? && c.packetFor(l).destination == c.destination
    ensures Indistinguishable(c)
  {
    hide IsValid, Probes;
    forall k, l, r | k in Probes(c) && l in Probes(c)
      ensures c.valid(c.packetFor(k), r) == c.valid(c.packetFor(l), r)
    {
      IdentityDeterminesVerdict(c.packetFor(k), c.packetFor(l), r);
    }
  }

  lemma {:induction false} MatchTakesHead(c: Config, q: seq<Pending>, r: Response)
    requires Indistinguishable(c)
    requires forall p :: p in q ==> p.probe in Probes(c) && p.packet == c.packetFor(p.probe)
    ensures FirstMatch(c.valid, q, r).Found? ==> FirstMatch(c.valid, q, r).index == 0
    decreases q
  {
    hide Probes;
    if q != [] && c.valid(q[0].packet, r) == Rejected {
      MatchTakesHead(c, q[1..], r);
      if q[1..] != [] {
        assert q[0] in q && q[1] in q;
      }
    }
  }

  /** What has been resolved and what is pending, in order, is what has been registered. */
  predicate Fifo(c: Config, s: State) {
    && s.registered <= |Probes(c)|
    && LogLabels(s.log) + PendingLabels(s.pending) == Probes(c)[..s.registered]
  }

  /** A match moves the head or nothing. */
  lemma MatchMovesHead(c: Config, q: seq<Pending>, response: Option<Response>, at: int)
    requires Indistinguishable(c)
    requires forall p :: p in q ==> p.probe in Probes(c) && p.packet == c.packetFor(p.probe)
    ensures LogLabels(Matched(c, q, response, at)) + PendingLabels(AfterMatch(c, q, response)) == PendingLabels(q)
  {
    if response.Some? {
      MatchTakesHead(c, q, response.value);
    }
    hide Probes, Indistinguishable, FirstMatch;
    if MatchOf(c, q, response).Found? {
      HeadMoves(q, at, response.value.info.client);
    } else {
      assert LogLabels(Matched(c, q, response, at)) == [];
    }
  }

  lemma HeadMoves(q: seq<Pending>, at: int, client: SocketAddress)
    requires q != []
    ensures LogLabels([Resolved(q[0].probe, SuccessProbe(TimePassed(at, q[0].sentAt), client))]) + PendingLabels(Without(q, 0))
         == PendingLabels(q)
  {
  }

  /** A sweep with a fixed clock moves a prefix. */
  lemma SweepMovesPrefix(q: seq<Pending>, at: int, readings: seq<Reading>, end: int, timeout: nat)
    requires |q| == |readings| && InOrder(q) && Chronological(at, readings, end) && end <= at
    ensures LogLabels(Swept(q, readings, timeout)) + PendingLabels(Kept(q, readings, timeout)) == PendingLabels(q)
  {
    FixedReadings(at, readings, end);
    var k := SweepRemovesPrefix(q, readings, timeout, at);
    assert q == q[..k] + q[k..];
    LabelsOfConcatenation(q[..k], q[k..]);
  }

  lemma ProcessFifo(c: Config, s: State, a: Action)
    requires c.drift == 0 && Indistinguishable(c)
    requires a.Process? && Enabled(c, s, a)
    requires Fifo(c, s) && QueueSound(c, s)
    ensures Fifo(c, Apply(c, s, a))
  {
    if !MatchOf(c, s.pending, a.response).MatchThrew? {
      var q := AfterMatch(c, s.pending, a.response);
      var matched, swept := Matched(c, s.pending, a.response, a.matchedAt), Swept(q, a.readings, c.timeout);
      var kept := Kept(q, a.readings, c.timeout);
      MatchMovesHead(c, s.pending, a.response, a.matchedAt);
      MatchKeepsOrder(c, s.pending, a.response);
      SweepMovesPrefix(q, a.matchedAt, a.readings, a.end, c.timeout);
      LogOfConcatenation(s.log, matched);
      LogOfConcatenation(s.log + matched, swept);
      hide Kept, Swept, Matched, AfterMatch, MatchOf, Chronological, Probes, LogLabels, PendingLabels;
      Regroup(LogLabels(s.log), LogLabels(matched), LogLabels(swept), PendingLabels(kept));
    }
  }

  lemma Regroup(a: seq<Label>, b: seq<Label>, x: seq<Label>, y: seq<Label>)
    ensures ((a + b) + x) + y == a + (b + (x + y))
  {
  }

  lemma RegisterFifo(c: Config, s: State)
    requires Enabled(c, s, Register) && Fifo(c, s)
    ensures Fifo(c, Apply(c, s, Register))
  {
    var l := Probes(c)[s.registered];
    var p := Pending(c.packetFor(l), s.clock, l);
    LabelsOfConcatenation(s.pending, [p]);
    assert PendingLabels([p]) == [l];
    assert Probes(c)[..s.registered + 1] == Probes(c)[..s.registered] + [l];
  }

  /**
   In every reachable state the resolved probes, in the order of resolution, are a
   prefix of the schedule, and the pending ones are what follows it.
   */
  lemma {:induction false} RunFifo(c: Config, launch: int, acts: seq<Action>, s: State)
    requires c.drift == 0 && Indistinguishable(c)
    requires Exec(c, Init([], launch), acts) == Some(s)
    ensures Fifo(c, s)
    ensures LogLabels(s.log) <= Probes(c)
    decreases |acts|
  {
    if acts == [] {
      assert LogLabels([]) + PendingLabels([]) == [];
    } else {
      var n := |acts| - 1;
      var before := Exec(c, Init([], launch), acts[..n]).value;
      RunFifo(c, launch, acts[..n], before);
      RunConserves(c, launch, acts[..n], before);
      match acts[n]
      case Register => RegisterFifo(c, before);
      case Process(_, _, _, _) => ProcessFifo(c, before, acts[n]);
      case _ =>
    }
    assert LogLabels(s.log) <= Probes(c)[..s.registered];
  }

  /** The UDP instance, for every network and every interleaving. */
  lemma UdpResolvesInSendingOrder(c: Config, launch: int, acts: seq<Action>, s: State)
    requires c.drift == 0
    requires forall p, r :: c.valid(p, r) == IsValid(p, r)
    requires forall l :: l in Probes(c) ==> c.packetFor(l).UdpPacket? && c.packetFor(l).destination == c.destination
    requires Exec(c, Init([], launch), acts) == Some(s)
    ensures LogLabels(s.log) <= Probes(c)
    ensures |s.log| <= s.registered <= |Probes(c)|
    ensures PendingLabels(s.pending) == Probes(c)[|s.log|..s.registered]
  {
    hide Exec, IsValid, Probes;
    UdpProbesIndistinguishable(c);
    RunFifo(c, launch, acts, s);
    assert |LogLabels(s.log)| == |s.log|;
    assert (LogLabels(s.log) + PendingLabels(s.pending))[|s.log|..] == PendingLabels(s.pending);
  }

  // ----- The clock must stand still in a sweep -----

  ghost predicate ResolvesInOrder(c: Config) {
    forall launch, acts, s :: Exec(c, Init([], launch), acts) == Some(s) ==> LogLabels(s.log) <= Probes(c)
  }

  /** A sweep of two probes sent at once, one microsecond passing between their readings, that takes the second only. */
  function Overtaking(now: int): Action {
    Process(None, now, [Reading(now, now), Reading(now + 1, now + 1)], now + 1)
  }

  lemma SecondExpires(c: Config, s: State, p: Pending, q: Pending)
    requires s.receiver.Receiving? && s.receiver.since + 1 <= s.clock && c.drift >= 1
    requires s.pending == [p, q] && s.log == [] && p.sentAt == q.sentAt
    requires s.clock - p.sentAt == c.timeout - MIN_TIME_WAIT_FOR_RESPONSE
    ensures Enabled(c, s, Overtaking(s.clock))
    ensures LogLabels(Apply(c, s, Overtaking(s.clock)).log) == [q.probe]
  {
    var now := s.clock;
    var first, second := Reading(now, now), Reading(now + 1, now + 1);
    var readings := [first, second];
    assert readings[1..] == [second] && [second][1..] == [] && [p, q][1..] == [q] && [q][1..] == [];
    assert Chronological(now + 1, [second][1..], now + 1);
    assert Chronological(now, readings[1..], now + 1);
    assert AfterMatch(c, s.pending, None) == s.pending && Matched(c, s.pending, None, now) == [];
    assert Swept([q], [second], c.timeout) == [Resolved(q.probe, FailedProbe(TimePassed(now + 1, q.sentAt)))];
    assert Swept([p, q], readings, c.timeout) == Swept([q], [second], c.timeout);
  }

  /** The loop test and a receive of a microsecond. */
  lemma BriefReceive(c: Config, s0: State, acts: seq<Action>, s: State, limit: int) returns (more: seq<Action>, t: State)
    requires Reaches(c, s0, acts, s, limit) && s.receiver.Testing? && LoopContinues(c, s) && s.clock + 1 <= limit
    ensures Reaches(c, s0, more, t, limit)
    ensures t == s.(clock := s.clock + 1, receiver := Receiving(s.clock))
  {
    assert MaxReceiveTime(c.timeout) >= 1;
    hide Reaches, LoopContinues, MaxReceiveTime, Probes;
    var s1 := Apply(c, s, Test);
    Extend(c, s0, acts, s, Test, limit);
    t := Apply(c, s1, Tick(1));
    Extend(c, s0, acts + [Test], s1, Tick(1), limit);
    more := acts + [Test] + [Tick(1)];
  }

  /** Two probes registered at the start are both pending when they have 10 microseconds left. */
  lemma TwoAtTheLastMoment(c: Config, limit: int) returns (acts: seq<Action>, s: State, p: Pending, q: Pending)
    requires WellFormed(c) && |Probes(c)| >= 2 && c.timeout >= 1000 && limit == c.timeout
    ensures Reaches(c, Init([], 0), acts, s, limit)
    ensures s.receiver.Receiving? && s.receiver.since + 1 == s.clock == c.timeout - MIN_TIME_WAIT_FOR_RESPONSE
    ensures s.pending == [p, q] && p.sentAt == q.sentAt == 0 && q.probe == Probes(c)[1] && s.log == []
  {
    ExpectedSizeIsProbeCount(c);
    TimeoutBeforeDeadline(c);
    hide ExpectedSize, Deadline, Unexpired, Reaches, LoopContinues, Probes;
    var s0 := Init([], 0);
    Start(c, s0, limit);
    var s1 := Apply(c, s0, Begin);
    Extend(c, s0, [], s0, Begin, limit);
    var acts2, s2 := RegisterTwo(c, s0, [] + [Begin], s1, limit);
    p, q := s2.pending[0], s2.pending[1];
    var acts3, s3 := AdvanceSparing(c, s0, acts2, s2, c.timeout - MIN_TIME_WAIT_FOR_RESPONSE - 1, limit);
    StillTime(c, s3);
    acts, s := BriefReceive(c, s0, acts3, s3, limit);
  }

  /** With two probes and a microsecond of drift, the second can fail while the first stays pending. */
  lemma SecondOvertakes(c: Config) returns (acts: seq<Action>, s: State)
    requires WellFormed(c) && |Probes(c)| >= 2 && c.timeout >= 1000 && c.drift >= 1
    ensures Exec(c, Init([], 0), acts) == Some(s) && LogLabels(s.log) == [Probes(c)[1]]
  {
    hide Enabled, Apply, Exec, Probes, Reaches;
    var acts1, s1, p, q := TwoAtTheLastMoment(c, c.timeout as int);
    var a := Overtaking(s1.clock);
    SecondExpires(c, s1, p, q);
    ReachesRun(c, Init([], 0), acts1, s1, c.timeout as int);
    ExecStep(c, Init([], 0), acts1, s1, a);
    acts, s := acts1 + [a], Apply(c, s1, a);
  }

  lemma ReachesRun(c: Config, s0: State, acts: seq<Action>, s: State, limit: int)
    requires Reaches(c, s0, acts, s, limit)
    ensures Exec(c, s0, acts) == Some(s)
  {
  }

  lemma RegisterTwo(c: Config, s0: State, acts: seq<Action>, s: State, limit: int) returns (more: seq<Action>, t: State)
    requires Reaches(c, s0, acts, s, limit) && s.sender.Ready? && s.clock <= limit
    requires s.registered == 0 && s.pending == [] && |Probes(c)| >= 2
    ensures Reaches(c, s0, more, t, limit)
    ensures t == s.(registered := 2, pending := t.pending)
    ensures var (k, l) := (Probes(c)[0], Probes(c)[1]);
            t.pending == [Pending(c.packetFor(k), s.clock, k), Pending(c.packetFor(l), s.clock, l)]
  {
    hide Reaches, Probes;
    var s1 := Apply(c, s, Send);
    Extend(c, s0, acts, s, Send, limit);
    var s2 := Apply(c, s1, Register);
    Extend(c, s0, acts + [Send], s1, Register, limit);
    var s3 := Apply(c, s2, Send);
    Extend(c, s0, acts + [Send] + [Register], s2, Send, limit);
    t := Apply(c, s3, Register);
    Extend(c, s0, acts + [Send] + [Register] + [Send], s3, Register, limit);
    more := acts + [Send] + [Register] + [Send] + [Register];
  }

  /** A single probe is in order anyway. */
  lemma OneInOrder(c: Config, launch: int, acts: seq<Action>, s: State)
    requires |Probes(c)| <= 1 && Exec(c, Init([], launch), acts) == Some(s)
    ensures LogLabels(s.log) <= Probes(c)
  {
    hide Exec, Probes;
    ExitByCountIsClean(c, launch, acts, s);
    if s.log != [] {
      ResolvedAtMostOnce(c, launch, acts, s, s.log[0].probe);
      assert LogLabels(s.log)[0] == s.log[0].probe;
    }
  }

  /**
   The exact condition for indistinguishable probes: all runs resolve them in sending
   order if and only if the clock stands still while a sweep is made, except where
   there are not two probes or not one millisecond.
   */
  lemma InOrderExactly(c: Config)
    requires WellFormed(c) && Indistinguishable(c)
    ensures ResolvesInOrder(c) <==> c.drift == 0 || c.timeout < 1000 || |Probes(c)| <= 1
  {
    hide Indistinguishable, WellFormed, Probes;
    if c.drift == 0 || c.timeout < 1000 || |Probes(c)| <= 1 {
      hide Exec;
      forall launch, acts, s | Exec(c, Init([], launch), acts) == Some(s) ensures LogLabels(s.log) <= Probes(c) {
        if c.drift == 0 {
          RunFifo(c, launch, acts, s);
        } else if c.timeout < 1000 {
          NoResultsBelowOneMillisecond(c, [], launch, acts, s);
        } else {
          OneInOrder(c, launch, acts, s);
        }
      }
    } else {
      var acts, s := SecondOvertakes(c);
      FirstTwoDiffer(c);
    }
  }

  lemma FirstTwoDiffer(c: Config)
    requires |Probes(c)| >= 2
    ensures Probes(c)[0] != Probes(c)[1]
  {
    ScheduleIncreasing(c.ttlBegin, c.ttlEnd, c.retries);
  }
}
