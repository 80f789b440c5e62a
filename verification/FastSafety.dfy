/**
 What every interleaving of `FastTraceroute` keeps: no probe is lost from the
 books or resolved twice, and the queue stays in sending order.
 */
module FastSafety {
  import opened ProbeResults
  import opened Schedule
  import opened Validators
  import opened FastMachine

  function PendingLabels(q: seq<Pending>): seq<Label> {
    seq(|q|, i requires 0 <= i < |q| => q[i].probe)
  }

  function LogLabels(log: seq<Resolved>): seq<Label> {
    seq(|log|, i requires 0 <= i < |log| => log[i].probe)
  }

  /** What was queued at the start and what has been registered since is what is pending or resolved. */
  predicate Conserved(c: Config, q0: seq<Pending>, s: State) {
    && s.registered <= |Probes(c)|
    && (s.sender.InFlight? ==> s.registered < |Probes(c)|)
    && multiset(PendingLabels(q0)) + multiset(Probes(c)[..s.registered])
       == multiset(PendingLabels(s.pending)) + multiset(LogLabels(s.log))
  }

  /** Sending order: labels strictly increasing, sending times not decreasing. */
  predicate InOrder(q: seq<Pending>) {
    forall i, j :: 0 <= i < j < |q| ==> Before(q[i].probe, q[j].probe) && q[i].sentAt <= q[j].sentAt
  }

  /** Pending probes were queued by this run, in order, no later than now. */
  predicate QueueSound(c: Config, s: State) {
    && s.registered <= |Probes(c)|
    && InOrder(s.pending)
    && (forall p :: p in s.pending ==>
          && p.probe in Probes(c)[..s.registered]
          && p.packet == c.packetFor(p.probe)
          && p.sentAt <= s.clock)
  }

  // ----- Bookkeeping of the lock region -----

  lemma LabelsOfConcatenation(a: seq<Pending>, b: seq<Pending>)
    ensures PendingLabels(a + b) == PendingLabels(a) + PendingLabels(b)
  {
  }

  lemma LogOfConcatenation(a: seq<Resolved>, b: seq<Resolved>)
    ensures LogLabels(a + b) == LogLabels(a) + LogLabels(b)
  {
  }

  lemma MatchMovesOne(c: Config, q: seq<Pending>, response: Option<Response>, at: int)
    ensures multiset(PendingLabels(q))
         == multiset(PendingLabels(AfterMatch(c, q, response))) + multiset(LogLabels(Matched(c, q, response, at)))
  {
    var m := MatchOf(c, q, response);
    if m.Found? {
      var i := m.index;
      assert q == q[..i] + [q[i]] + q[i + 1..];
      LabelsOfConcatenation(q[..i], [q[i]]);
      LabelsOfConcatenation(q[..i] + [q[i]], q[i + 1..]);
      LabelsOfConcatenation(q[..i], q[i + 1..]);
      assert LogLabels(Matched(c, q, response, at)) == PendingLabels([q[i]]);
    } else {
      assert LogLabels(Matched(c, q, response, at)) == [];
    }
  }

  lemma {:induction false} SweepMovesSome(q: seq<Pending>, readings: seq<Reading>, timeout: nat)
    requires |q| == |readings|
    ensures multiset(PendingLabels(q))
         == multiset(PendingLabels(Kept(q, readings, timeout))) + multiset(LogLabels(Swept(q, readings, timeout)))
    decreases q
  {
    if q != [] {
      SweepMovesSome(q[1..], readings[1..], timeout);
      var kept, swept := Kept(q[1..], readings[1..], timeout), Swept(q[1..], readings[1..], timeout);
      assert q == [q[0]] + q[1..];
      LabelsOfConcatenation([q[0]], q[1..]);
      if Expired(q[0], readings[0].decide, timeout) {
        var failure := [Resolved(q[0].probe, FailedProbe(TimePassed(readings[0].report, q[0].sentAt)))];
        LogOfConcatenation(failure, swept);
        assert LogLabels(failure) == PendingLabels([q[0]]);
      } else {
        LabelsOfConcatenation([q[0]], kept);
      }
    }
  }

  lemma {:induction false} SweepKeepsOrder(q: seq<Pending>, readings: seq<Reading>, timeout: nat)
    requires |q| == |readings| && InOrder(q)
    ensures InOrder(Kept(q, readings, timeout))
    ensures forall p :: p in Kept(q, readings, timeout) ==> p in q
    decreases q
  {
    if q != [] {
      SweepKeepsOrder(q[1..], readings[1..], timeout);
      var rest := Kept(q[1..], readings[1..], timeout);
      forall p | p in rest ensures Before(q[0].probe, p.probe) && q[0].sentAt <= p.sentAt {
        var j :| 0 <= j < |q[1..]| && q[1..][j] == p;
        assert p == q[j + 1];
      }
    }
  }

  lemma MatchKeepsOrder(c: Config, q: seq<Pending>, response: Option<Response>)
    requires InOrder(q)
    ensures InOrder(AfterMatch(c, q, response))
    ensures forall p :: p in AfterMatch(c, q, response) ==> p in q
  {
  }

  lemma {:induction false} LastReading(start: int, readings: seq<Reading>, end: int)
    requires Chronological(start, readings, end)
    ensures start <= end
    decreases readings
  {
    if readings != [] {
      LastReading(readings[0].report, readings[1..], end);
    }
  }

  // ----- One step -----

  lemma RegisterConserves(c: Config, q0: seq<Pending>, s: State)
    requires Conserved(c, q0, s) && Enabled(c, s, Register)
    ensures Conserved(c, q0, Apply(c, s, Register))
  {
    var n, l := s.registered, Probes(c)[s.registered];
    var fresh_ := Pending(c.packetFor(l), s.clock, l);
    assert Probes(c)[..n + 1] == Probes(c)[..n] + [l];
    LabelsOfConcatenation(s.pending, [fresh_]);
    assert PendingLabels([fresh_]) == [l];
    assert Apply(c, s, Register).pending == s.pending + [fresh_];
    hide Probes, PendingLabels, LogLabels;
    var t := Apply(c, s, Register);
    AddToBoth(multiset(PendingLabels(q0)), multiset(Probes(c)[..n]), multiset(PendingLabels(s.pending)), multiset(LogLabels(s.log)), l);
    assert multiset(Probes(c)[..t.registered]) == multiset(Probes(c)[..n]) + multiset{l};
    assert multiset(PendingLabels(t.pending)) == multiset(PendingLabels(s.pending)) + multiset{l};
  }

  lemma AddToBoth(a: multiset<Label>, b: multiset<Label>, x: multiset<Label>, y: multiset<Label>, l: Label)
    requires a + b == x + y
    ensures a + (b + multiset{l}) == (x + multiset{l}) + y
  {
    assert a + (b + multiset{l}) == (a + b) + multiset{l};
  }

  lemma RegisterKeepsOrder(c: Config, s: State)
    requires QueueSound(c, s) && Enabled(c, s, Register)
    ensures QueueSound(c, Apply(c, s, Register))
  {
    var n, l := s.registered, Probes(c)[s.registered];
    assert Probes(c)[..n + 1] == Probes(c)[..n] + [l];
    forall p | p in s.pending ensures Before(p.probe, l) {
      var k :| 0 <= k < n && Probes(c)[k] == p.probe;
      ScheduleIncreasing(c.ttlBegin, c.ttlEnd, c.retries);
    }
    hide Probes;
    assert Apply(c, s, Register).pending == s.pending + [Pending(c.packetFor(l), s.clock, l)];
  }

  lemma ProcessConserves(c: Config, q0: seq<Pending>, s: State, a: Action)
    requires a.Process? && Enabled(c, s, a) && Conserved(c, q0, s)
    ensures Conserved(c, q0, Apply(c, s, a))
  {
    if !MatchOf(c, s.pending, a.response).MatchThrew? {
      var q := AfterMatch(c, s.pending, a.response);
      var matched, swept := Matched(c, s.pending, a.response, a.matchedAt), Swept(q, a.readings, c.timeout);
      assert Apply(c, s, a).log == s.log + matched + swept;
      LogOfConcatenation(s.log, matched);
      LogOfConcatenation(s.log + matched, swept);
      MatchMovesOne(c, s.pending, a.response, a.matchedAt);
      SweepMovesSome(q, a.readings, c.timeout);
      hide Kept, Swept, Matched, AfterMatch, MatchOf, Chronological, Probes;
    }
  }

  lemma ProcessKeepsOrder(c: Config, s: State, a: Action)
    requires a.Process? && Enabled(c, s, a) && QueueSound(c, s)
    ensures QueueSound(c, Apply(c, s, a))
  {
    if !MatchOf(c, s.pending, a.response).MatchThrew? {
      MatchKeepsOrder(c, s.pending, a.response);
      SweepKeepsOrder(AfterMatch(c, s.pending, a.response), a.readings, c.timeout);
      LastReading(a.matchedAt, a.readings, a.end);
      hide Kept, Swept, Matched, AfterMatch, MatchOf, Chronological, Probes;
    }
  }

  lemma StepConserves(c: Config, q0: seq<Pending>, s: State, a: Action)
    requires Enabled(c, s, a) && Conserved(c, q0, s)
    ensures Conserved(c, q0, Apply(c, s, a))
  {
    match a
    case Register => RegisterConserves(c, q0, s);
    case Process(_, _, _, _) => ProcessConserves(c, q0, s, a);
    case _ =>
  }

  lemma StepKeepsOrder(c: Config, s: State, a: Action)
    requires Enabled(c, s, a) && QueueSound(c, s)
    ensures QueueSound(c, Apply(c, s, a))
  {
    match a
    case Register => RegisterKeepsOrder(c, s);
    case Process(_, _, _, _) => ProcessKeepsOrder(c, s, a);
    case _ =>
  }

  // ----- Every run -----

  /** In every reachable state of every run, whatever was queued when it started. */
  lemma {:induction false} RunConservesFrom(c: Config, q0: seq<Pending>, launch: int, acts: seq<Action>, s: State)
    requires Exec(c, Init(q0, launch), acts) == Some(s)
    ensures Conserved(c, q0, s)
    decreases |acts|
  {
    if acts == [] {
      assert LogLabels([]) == [];
    } else {
      var n := |acts| - 1;
      var before := Exec(c, Init(q0, launch), acts[..n]).value;
      RunConservesFrom(c, q0, launch, acts[..n], before);
      StepConserves(c, q0, before, acts[n]);
    }
  }

  /**
   From an empty queue, registered probes are the disjoint union of pending and
   resolved ones, and the queue is in sending order.
   */
  lemma {:induction false} RunConserves(c: Config, launch: int, acts: seq<Action>, s: State)
    requires Exec(c, Init([], launch), acts) == Some(s)
    ensures Conserved(c, [], s) && QueueSound(c, s)
    ensures multiset(Probes(c)[..s.registered]) == multiset(PendingLabels(s.pending)) + multiset(LogLabels(s.log))
    decreases |acts|
  {
    RunConservesFrom(c, [], launch, acts, s);
    assert PendingLabels([]) == [];
    if acts != [] {
      var n := |acts| - 1;
      var before := Exec(c, Init([], launch), acts[..n]).value;
      RunConserves(c, launch, acts[..n], before);
      StepKeepsOrder(c, before, acts[n]);
    }
  }

  // ----- Consequences -----

  lemma ScheduleDistinct(c: Config, n: nat, l: Label)
    requires n <= |Probes(c)|
    ensures multiset(Probes(c)[..n])[l] <= 1
  {
    ScheduleIncreasing(c.ttlBegin, c.ttlEnd, c.retries);
    DistinctCount(Probes(c)[..n], l);
  }

  lemma {:induction false} DistinctCount(ls: seq<Label>, l: Label)
    requires forall i, j :: 0 <= i < j < |ls| ==> Before(ls[i], ls[j])
    ensures multiset(ls)[l] <= 1
    decreases ls
  {
    if ls != [] {
      DistinctCount(ls[1..], l);
      assert ls == [ls[0]] + ls[1..];
      assert ls[0] !in ls[1..];
    }
  }

  /** Each probe is resolved at most once, and a pending probe has no result yet. */
  lemma ResolvedAtMostOnce(c: Config, launch: int, acts: seq<Action>, s: State, l: Label)
    requires Exec(c, Init([], launch), acts) == Some(s)
    ensures multiset(LogLabels(s.log))[l] + multiset(PendingLabels(s.pending))[l] <= 1
    ensures l in LogLabels(s.log) ==> l in Probes(c)
  {
    hide Exec;
    RunConserves(c, launch, acts, s);
    ScheduleDistinct(c, s.registered, l);
    var sent := multiset(Probes(c)[..s.registered]);
    assert sent[l] == multiset(PendingLabels(s.pending))[l] + multiset(LogLabels(s.log))[l];
    if l in LogLabels(s.log) {
      assert l in multiset(LogLabels(s.log));
      assert l in Probes(c)[..s.registered];
    }
  }

  /**
   An exit by count means that every probe was sent and resolved and that the
   queue is empty, so the next run starts clean.
   */
  lemma ExitByCountIsClean(c: Config, launch: int, acts: seq<Action>, s: State)
    requires Exec(c, Init([], launch), acts) == Some(s)
    ensures |s.log| <= |Probes(c)|
    ensures |s.log| == |Probes(c)| ==>
              s.pending == [] && s.registered == |Probes(c)| && multiset(LogLabels(s.log)) == multiset(Probes(c))
  {
    hide Exec;
    RunConserves(c, launch, acts, s);
    var sent := Probes(c)[..s.registered];
    assert |multiset(sent)| == |sent| == s.registered;
    assert |multiset(PendingLabels(s.pending))| == |s.pending|;
    assert |multiset(LogLabels(s.log))| == |s.log|;
    if |s.log| == |Probes(c)| {
      assert sent == Probes(c);
      assert PendingLabels(s.pending) == [];
    }
  }
}
