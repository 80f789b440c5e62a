/**
 The hypotheses of the refinement can be met: runs of both engines, for any number
 of probes, in which every probe is answered.
 */
module AnsweredRuns {
  import opened Packets
  import opened ProbeResults
  import opened Schedule
  import opened Validators
  import opened FastMachine
  import opened FastTiming
  import opened SequentialTraceroute
  import opened Refinement

  // ----- The fast engine -----

  /** Send a probe, register it, and receive for a microsecond. */
  const SEND_AND_WAIT := [Send] + [Register] + [Test] + [Tick(1)]

  function AnsweredRound(r: Response, now: nat): seq<Action> {
    SEND_AND_WAIT + [Process(Some(r), now + 1, [], now + 1)]
  }

  /**
   A fast run in which the first `k` probes are answered: each is sent and registered
   while nothing else is pending, and its reply is taken in a microsecond later.
   */
  function AnsweredActs(c: Config, reply: Label -> Response, k: nat): seq<Action>
    requires k <= |Probes(c)|
  {
    if k == 0 then [Begin] else AnsweredActs(c, reply, k - 1) + AnsweredRound(reply(Probes(c)[k - 1]), k - 1)
  }

  function AnsweredLog(c: Config, reply: Label -> Response, k: nat): seq<Resolved>
    requires k <= |Probes(c)|
  {
    seq(k, i requires 0 <= i < k => Resolved(Probes(c)[i], SuccessProbe(1, reply(Probes(c)[i]).info.client)))
  }

  function AnsweredState(c: Config, reply: Label -> Response, k: nat): State
    requires k <= |Probes(c)|
  {
    State(k, Ready, k, [], Testing, 0, k, k, AnsweredLog(c, reply, k))
  }

  /** The state in which the `k`-th reply is taken in. */
  function AwaitingState(c: Config, reply: Label -> Response, k: nat): State
    requires k < |Probes(c)|
  {
    var l := Probes(c)[k];
    State(k + 1, Ready, k + 1, [Pending(c.packetFor(l), k, l)], Receiving(k), 0, k, k, AnsweredLog(c, reply, k))
  }

  predicate Answerable(c: Config, reply: Label -> Response) {
    && WellFormed(c) && c.timeout >= 1000
    && forall l :: l in Probes(c) ==> c.valid(c.packetFor(l), reply(l)) == Accepted
  }

  lemma TimeForAll(c: Config, k: nat)
    requires WellFormed(c) && c.timeout >= 1000 && k < |Probes(c)|
    ensures k < Deadline(c) && ExpectedSize(c) == |Probes(c)|
  {
    ExpectedSizeIsProbeCount(c);
    DeadlineGrows(c, |Probes(c)|);
    hide ExpectedSize, Probes, Deadline, WellFormed;
    var n, whole := |Probes(c)|, WholeMilliseconds(c.timeout);
    assert whole >= 1;
    hide WholeMilliseconds;
    assert whole * n >= n by { MultiplesGrow(n, 1, whole); }
  }

  /** One probe sent, registered, and waited for during a microsecond. */
  lemma SendAndWait(c: Config, s: State)
    requires s.sender.Ready? && s.registered < |Probes(c)| && s.pending == [] && s.receiver.Testing? && LoopContinues(c, s)
    ensures Exec(c, s, SEND_AND_WAIT)
         == Some(s.(registered := s.registered + 1, receiver := Receiving(s.clock), clock := s.clock + 1,
                    pending := [Pending(c.packetFor(Probes(c)[s.registered]), s.clock, Probes(c)[s.registered])]))
  {
    assert MaxReceiveTime(c.timeout) >= 1;
    hide Exec, Probes, ExpectedSize, Deadline, MaxReceiveTime, TimeLeft;
    var s1 := Apply(c, s, Send);
    assert Exec(c, s, []) == Some(s) by { NoStep(c, s); }
    ExecStep(c, s, [], s, Send);
    var s2 := Apply(c, s1, Register);
    ExecStep(c, s, [Send], s1, Register);
    assert s2.pending == [Pending(c.packetFor(Probes(c)[s.registered]), s.clock, Probes(c)[s.registered])];
    var s3 := Apply(c, s2, Test);
    ExecStep(c, s, [Send] + [Register], s2, Test);
    ExecStep(c, s, [Send] + [Register] + [Test], s3, Tick(1));
    assert [] + [Send] == [Send];
  }

  lemma NoStep(c: Config, s: State)
    ensures Exec(c, s, []) == Some(s)
  {
  }

  lemma UpToReply(c: Config, reply: Label -> Response, k: nat)
    requires Answerable(c, reply) && k < |Probes(c)|
    ensures Exec(c, AnsweredState(c, reply, k), SEND_AND_WAIT) == Some(AwaitingState(c, reply, k))
  {
    TimeForAll(c, k);
    hide Exec, Probes, ExpectedSize, Deadline, AnsweredLog;
    LengthOfAnsweredLog(c, reply, k);
    SendAndWait(c, AnsweredState(c, reply, k));
  }

  lemma LengthOfAnsweredLog(c: Config, reply: Label -> Response, k: nat)
    requires k <= |Probes(c)|
    ensures |AnsweredLog(c, reply, k)| == k
  {
  }

  lemma ReplyTaken(c: Config, reply: Label -> Response, k: nat)
    requires Answerable(c, reply) && k < |Probes(c)|
    ensures var s, a := AwaitingState(c, reply, k), Process(Some(reply(Probes(c)[k])), k + 1, [], k + 1);
            Enabled(c, s, a) && Apply(c, s, a) == AnsweredState(c, reply, k + 1)
  {
    var s, l := AwaitingState(c, reply, k), Probes(c)[k];
    var r := reply(l);
    assert l in Probes(c);
    assert FirstMatch(c.valid, s.pending, r) == Found(0);
    assert AfterMatch(c, s.pending, Some(r)) == [];
    hide Probes;
    assert AnsweredLog(c, reply, k + 1) == AnsweredLog(c, reply, k) + [Resolved(l, SuccessProbe(1, r.info.client))];
    assert Matched(c, s.pending, Some(r), k + 1) == [Resolved(l, SuccessProbe(1, r.info.client))];
    assert Kept([], [], c.timeout) == [] && Swept([], [], c.timeout) == [];
  }

  lemma RoundAppended(c: Config, reply: Label -> Response, k: nat)
    requires k < |Probes(c)|
    ensures AnsweredActs(c, reply, k + 1)
         == (AnsweredActs(c, reply, k) + SEND_AND_WAIT) + [Process(Some(reply(Probes(c)[k])), k + 1, [], k + 1)]
  {
    hide SEND_AND_WAIT, Probes;
  }

  lemma RunToReply(c: Config, reply: Label -> Response, k: nat)
    requires Answerable(c, reply) && k < |Probes(c)|
    requires Exec(c, Init([], 0), AnsweredActs(c, reply, k)) == Some(AnsweredState(c, reply, k))
    ensures Exec(c, Init([], 0), AnsweredActs(c, reply, k) + SEND_AND_WAIT) == Some(AwaitingState(c, reply, k))
  {
    hide Exec, AnsweredActs, AnsweredState, AwaitingState, Probes, Answerable, SEND_AND_WAIT;
    UpToReply(c, reply, k);
    RunOfConcatenation(c, Init([], 0), AnsweredActs(c, reply, k), AnsweredState(c, reply, k), SEND_AND_WAIT);
  }

  lemma RunThroughReply(c: Config, reply: Label -> Response, k: nat)
    requires Answerable(c, reply) && k < |Probes(c)|
    requires Exec(c, Init([], 0), AnsweredActs(c, reply, k)) == Some(AnsweredState(c, reply, k))
    ensures Exec(c, Init([], 0), AnsweredActs(c, reply, k + 1)) == Some(AnsweredState(c, reply, k + 1))
  {
    hide Exec, AnsweredActs, AnsweredState, AwaitingState, Probes, Answerable, SEND_AND_WAIT, Enabled, Apply;
    var a := Process(Some(reply(Probes(c)[k])), k + 1, [], k + 1);
    RunToReply(c, reply, k);
    ReplyTaken(c, reply, k);
    ExecStep(c, Init([], 0), AnsweredActs(c, reply, k) + SEND_AND_WAIT, AwaitingState(c, reply, k), a);
    RoundAppended(c, reply, k);
  }

  lemma AnsweredStart(c: Config, reply: Label -> Response)
    ensures Exec(c, Init([], 0), AnsweredActs(c, reply, 0)) == Some(AnsweredState(c, reply, 0))
  {
    assert [Begin][..0] == [];
    assert AnsweredLog(c, reply, 0) == [];
  }

  lemma {:induction false} AnsweredExec(c: Config, reply: Label -> Response, k: nat)
    requires Answerable(c, reply) && k <= |Probes(c)|
    ensures Exec(c, Init([], 0), AnsweredActs(c, reply, k)) == Some(AnsweredState(c, reply, k))
  {
    hide Exec, AnsweredActs, AnsweredState, Probes, Answerable;
    if k == 0 {
      AnsweredStart(c, reply);
    } else {
      AnsweredExec(c, reply, k - 1);
      RunThroughReply(c, reply, k - 1);
    }
  }

  /** Where a response is taken in, the probe it answers is the only one pending. */
  predicate TakenIn(c: Config, reply: Label -> Response, acts: seq<Action>, j: nat, i: nat)
    requires j < |acts| && i < |Probes(c)|
  {
    && acts[j].Process? && acts[j].response == Some(reply(Probes(c)[i]))
    && Exec(c, Init([], 0), acts[..j]) == Some(AwaitingState(c, reply, i))
  }

  lemma {:induction false} AnswersOnly(c: Config, reply: Label -> Response, k: nat, j: nat) returns (i: nat)
    requires Answerable(c, reply) && k <= |Probes(c)|
    requires j < |AnsweredActs(c, reply, k)| && AnsweredActs(c, reply, k)[j].Process?
    ensures i < k && TakenIn(c, reply, AnsweredActs(c, reply, k), j, i)
    decreases k
  {
    hide Exec, AnsweredActs, AwaitingState, Probes, Answerable, SEND_AND_WAIT;
    NoReplyAtStart(c, reply);
    NoReplyBefore(c, reply, k - 1, j);
    if j < |AnsweredActs(c, reply, k - 1)| {
      i := AnswersOnly(c, reply, k - 1, j);
    } else {
      i := k - 1;
      LastAnswer(c, reply, k - 1);
    }
  }

  lemma LastAnswer(c: Config, reply: Label -> Response, k: nat)
    requires Answerable(c, reply) && k < |Probes(c)|
    ensures var acts, at := AnsweredActs(c, reply, k + 1), |AnsweredActs(c, reply, k) + SEND_AND_WAIT|;
            |acts| == at + 1 && TakenIn(c, reply, acts, at, k)
  {
    hide Exec, AnsweredActs, AnsweredState, AwaitingState, Probes, Answerable, SEND_AND_WAIT;
    AnsweredExec(c, reply, k);
    RunToReply(c, reply, k);
    RoundAppended(c, reply, k);
    var acts, before := AnsweredActs(c, reply, k + 1), AnsweredActs(c, reply, k) + SEND_AND_WAIT;
    assert acts[..|before|] == before;
  }

  lemma NoReplyAtStart(c: Config, reply: Label -> Response)
    ensures AnsweredActs(c, reply, 0) == [Begin]
  {
  }

  /** The steps before a reply take in nothing. */
  lemma NoReplyBefore(c: Config, reply: Label -> Response, k: nat, j: nat)
    requires k < |Probes(c)| && j < |AnsweredActs(c, reply, k + 1)| && AnsweredActs(c, reply, k + 1)[j].Process?
    ensures j < |AnsweredActs(c, reply, k)| || j == |AnsweredActs(c, reply, k) + SEND_AND_WAIT|
    ensures j < |AnsweredActs(c, reply, k)| ==>
              && AnsweredActs(c, reply, k + 1)[j] == AnsweredActs(c, reply, k)[j]
              && AnsweredActs(c, reply, k + 1)[..j] == AnsweredActs(c, reply, k)[..j]
  {
    RoundAppended(c, reply, k);
    hide AnsweredActs, Probes;
    var before := AnsweredActs(c, reply, k);
    assert forall i :: 0 <= i < |SEND_AND_WAIT| ==> !SEND_AND_WAIT[i].Process?;
    hide SEND_AND_WAIT;
  }

  lemma {:induction false} AnswerOf(c: Config, reply: Label -> Response, k: nat, i: nat) returns (j: nat)
    requires Answerable(c, reply) && i < k <= |Probes(c)|
    ensures j < |AnsweredActs(c, reply, k)| && TakenIn(c, reply, AnsweredActs(c, reply, k), j, i)
    decreases k
  {
    hide Exec, AnsweredActs, AwaitingState, Probes, Answerable, SEND_AND_WAIT;
    LastAnswer(c, reply, k - 1);
    if i == k - 1 {
      j := |AnsweredActs(c, reply, k - 1) + SEND_AND_WAIT|;
    } else {
      j := AnswerOf(c, reply, k - 1, i);
      RoundAppended(c, reply, k - 1);
      assert AnsweredActs(c, reply, k)[..j] == AnsweredActs(c, reply, k - 1)[..j];
    }
  }

  /** The whole run: every probe answered, then the last loop test. */
  function AnsweredRun(c: Config, reply: Label -> Response): seq<Action> {
    AnsweredActs(c, reply, |Probes(c)|) + [Test]
  }

  lemma AnsweredRunEnds(c: Config, reply: Label -> Response) returns (s: State)
    requires Answerable(c, reply)
    ensures Exec(c, Init([], 0), AnsweredRun(c, reply)) == Some(s) && s.receiver.Exited? && |s.log| == |Probes(c)|
  {
    var n := |Probes(c)|;
    AnsweredExec(c, reply, n);
    ExpectedSizeIsProbeCount(c);
    LengthOfAnsweredLog(c, reply, n);
    var before := AnsweredState(c, reply, n);
    s := Apply(c, before, Test);
    hide Exec, AnsweredLog, Probes, ExpectedSize, Deadline;
    ExecStep(c, Init([], 0), AnsweredActs(c, reply, n), before, Test);
  }

  /** What the run takes in are the replies, each to the probe that is pending. */
  lemma RunTakesIn(c: Config, reply: Label -> Response, j: nat) returns (i: nat)
    requires Answerable(c, reply) && j < |AnsweredRun(c, reply)| && AnsweredRun(c, reply)[j].Process?
    ensures i < |Probes(c)| && TakenIn(c, reply, AnsweredRun(c, reply), j, i)
  {
    hide Exec, Answerable, AnsweredActs, AwaitingState, Probes;
    i := AnswersOnly(c, reply, |Probes(c)|, j);
    assert AnsweredRun(c, reply)[..j] == AnsweredActs(c, reply, |Probes(c)|)[..j];
  }

  lemma RunAnswers(c: Config, reply: Label -> Response, i: nat) returns (j: nat)
    requires Answerable(c, reply) && i < |Probes(c)|
    ensures j < |AnsweredRun(c, reply)| && TakenIn(c, reply, AnsweredRun(c, reply), j, i)
  {
    hide Exec, Answerable, AnsweredActs, AwaitingState, Probes;
    j := AnswerOf(c, reply, |Probes(c)|, i);
    assert AnsweredRun(c, reply)[..j] == AnsweredActs(c, reply, |Probes(c)|)[..j];
  }

  lemma TakenInMeaning(c: Config, reply: Label -> Response, acts: seq<Action>, j: nat, i: nat)
    requires j < |acts| && i < |Probes(c)| && TakenIn(c, reply, acts, j, i)
    ensures acts[j].Process? && acts[j].response == Some(reply(Probes(c)[i]))
    ensures Exec(c, Init([], 0), acts[..j]) == Some(AwaitingState(c, reply, i))
  {
  }

  lemma AnsweredRunIsHonest(c: Config, network: Label -> Outcome, reply: Label -> Response)
    requires Answerable(c, reply) && forall l :: l in Probes(c) ==> network(l) == Reply(reply(l).info.client)
    ensures HonestRun(c, network, Init([], 0), AnsweredRun(c, reply))
  {
    var acts := AnsweredRun(c, reply);
    forall k | 0 <= k < |acts| && acts[k].Process? && Exec(c, Init([], 0), acts[..k]).Some?
      ensures Honest(c, network, Exec(c, Init([], 0), acts[..k]).value, acts[k].response)
    {
      var i := RunTakesIn(c, reply, k);
      hide Exec, AnsweredActs, AnsweredRun, AnsweredLog;
      assert Probes(c)[i] in Probes(c);
    }
  }

  lemma AnsweredRunDelivers(c: Config, reply: Label -> Response, l: Label)
    requires Answerable(c, reply) && l in Probes(c)
    ensures Delivered(c, Init([], 0), AnsweredRun(c, reply), l)
  {
    var i :| 0 <= i < |Probes(c)| && Probes(c)[i] == l;
    var acts := AnsweredRun(c, reply);
    var j := RunAnswers(c, reply, i);
    hide Exec, AnsweredActs, AnsweredRun, AnsweredLog;
    var s := AwaitingState(c, reply, i);
    assert s.pending[0] in s.pending;
    assert DeliversTo(c, s, acts[j].response, l);
  }

  // ----- The sequential engine -----

  /** A sequential result in which every probe is answered after a microsecond. */
  function AnsweredRows(d: Config, reply: Label -> Response): seq<TracerouteResult>
    requires d.ttlBegin <= d.ttlEnd
  {
    seq(d.ttlEnd + 1 - d.ttlBegin, (j: nat) =>
      TracerouteResult(d.ttlBegin + j,
                       seq(d.retries, (i: nat) => SuccessProbe(1, reply(Label(d.ttlBegin + j, i)).info.client))))
  }

  /** Sent at time 0 and answered by the first receive, a microsecond later. */
  function AnsweredWait(d: Config, r: Response): Wait {
    Wait(0, [Attempt(d.timeout / 1000, Some(r), 1)])
  }

  predicate Answered(d: Config, reply: Label -> Response, heard: Heard, l: Label) {
    l in heard && heard[l] == AnsweredWait(d, reply(l)) && d.valid(d.packetFor(l), reply(l)) == Accepted
  }

  lemma AnsweredWaitOver(d: Config, p: Packet, r: Response)
    requires d.timeout >= 10 && d.valid(p, r) == Accepted
    ensures var w := AnsweredWait(d, r);
            Waited(d.valid, p, d.timeout, w) && ResultOf(d.valid, p, d.timeout, w) == SuccessProbe(1, r.info.client)
  {
    var w := AnsweredWait(d, r);
    assert w.attempts[0].response == Some(r);
  }

  lemma AnsweredRow(d: Config, reply: Label -> Response, j: nat, heard: Heard)
    requires d.ttlBegin + j <= d.ttlEnd && d.timeout >= 10
    requires forall l: Label :: l.ttl == d.ttlBegin + j && l.retry < d.retries ==> Answered(d, reply, heard, l)
    ensures RowHeard(AnsweredRows(d, reply)[j], heard, d.timeout, d.valid, d.packetFor)
  {
    var row := AnsweredRows(d, reply)[j];
    forall i | 0 <= i < |row.probeResults|
      ensures Label(row.ttl, i) in heard
      ensures Waited(d.valid, d.packetFor(Label(row.ttl, i)), d.timeout, heard[Label(row.ttl, i)])
      ensures row.probeResults[i] == ResultOf(d.valid, d.packetFor(Label(row.ttl, i)), d.timeout, heard[Label(row.ttl, i)])
    {
      var l := Label(d.ttlBegin + j, i);
      assert row.probeResults[i] == SuccessProbe(1, reply(l).info.client) && Label(row.ttl, i) == l;
      assert Answered(d, reply, heard, l);
      AnsweredWaitOver(d, d.packetFor(l), reply(l));
    }
  }

  lemma CutOfAnswered(d: Config, reply: Label -> Response) returns (rs: seq<TracerouteResult>)
    requires d.ttlBegin <= d.ttlEnd
    ensures rs != [] && SequentialShape(d.ttlBegin, d.ttlEnd, d.retries, d.destination, rs)
    ensures rs <= AnsweredRows(d, reply) && |rs| <= d.ttlEnd + 1 - d.ttlBegin
  {
    rs := CutAfterDestination(AnsweredRows(d, reply), d.destination);
    CutMeaning(AnsweredRows(d, reply), d.destination);
  }

  /** What is heard when the rows up to `last` have been answered. */
  lemma HeardUpTo(d: Config, reply: Label -> Response, last: nat) returns (heard: Heard)
    requires d.ttlBegin <= last <= d.ttlEnd
    requires forall l :: l in Probes(d) ==> d.valid(d.packetFor(l), reply(l)) == Accepted
    ensures forall l :: l in heard <==> l in Labels(d.ttlBegin, last, d.retries)
    ensures forall l :: l in heard ==> l in Probes(d) && heard[l] == AnsweredWait(d, reply(l))
    ensures forall l: Label :: d.ttlBegin <= l.ttl <= last && l.retry < d.retries ==> Answered(d, reply, heard, l)
  {
    var made := Labels(d.ttlBegin, last, d.retries);
    heard := map l | l in made :: AnsweredWait(d, reply(l));
    forall l: Label
      ensures l in made <==> d.ttlBegin <= l.ttl <= last && l.retry < d.retries
      ensures l in Probes(d) <==> d.ttlBegin <= l.ttl <= d.ttlEnd && l.retry < d.retries
    {
      LabelScheduled(d.ttlBegin, last, d.retries, l);
      LabelScheduled(d.ttlBegin, d.ttlEnd, d.retries, l);
    }
    hide Probes, Labels;
  }

  lemma AnsweredRowsHeard(d: Config, reply: Label -> Response, rs: seq<TracerouteResult>, heard: Heard)
    requires d.ttlBegin <= d.ttlEnd && d.timeout >= 10
    requires rs != [] && rs <= AnsweredRows(d, reply)
    requires forall l: Label :: d.ttlBegin <= l.ttl <= d.ttlBegin + |rs| - 1 && l.retry < d.retries ==> Answered(d, reply, heard, l)
    ensures forall j :: 0 <= j < |rs| ==> RowHeard(rs[j], heard, d.timeout, d.valid, d.packetFor)
  {
    forall j | 0 <= j < |rs| ensures RowHeard(rs[j], heard, d.timeout, d.valid, d.packetFor) {
      assert |AnsweredRows(d, reply)| == d.ttlEnd + 1 - d.ttlBegin;
      hide Answered, AnsweredRows, RowHeard;
      AnsweredRow(d, reply, j, heard);
      assert rs[j] == AnsweredRows(d, reply)[j];
    }
  }

  lemma AnsweredSequential(d: Config, reply: Label -> Response) returns (rs: seq<TracerouteResult>, heard: Heard)
    requires d.ttlBegin <= d.ttlEnd && d.timeout >= 10
    requires forall l :: l in Probes(d) ==> d.valid(d.packetFor(l), reply(l)) == Accepted
    ensures SequentialResult(d, rs, heard)
    ensures forall l :: l in heard ==> l in Probes(d) && heard[l] == AnsweredWait(d, reply(l))
  {
    hide Probes, Labels, AnsweredRows, RowHeard, Answered, AnsweredWait, SequentialShape;
    rs := CutOfAnswered(d, reply);
    heard := HeardUpTo(d, reply, d.ttlBegin + |rs| - 1);
    AnsweredRowsHeard(d, reply, rs, heard);
  }

  /**
   The hypotheses of the refinement can be met for any number of probes, with the
   engines' own packets: whatever replies the probes accept, from the same senders.
   */
  lemma AnsweredRunsExist(c: Config, d: Config, network: Label -> Outcome, replyC: Label -> Response, replyD: Label -> Response)
    returns (acts: seq<Action>, s: State, rs: seq<TracerouteResult>, heard: Heard)
    requires Answerable(c, replyC) && SameSearch(c, d) && c.retries >= 1 && d.timeout >= 10
    requires forall l :: l in Probes(d) ==> d.valid(d.packetFor(l), replyD(l)) == Accepted
    requires forall l :: l in Probes(c) ==> network(l) == Reply(replyC(l).info.client) == Reply(replyD(l).info.client)
    ensures Exec(c, Init([], 0), acts) == Some(s) && s.receiver.Exited? && |s.log| == |Probes(c)|
    ensures HonestRun(c, network, Init([], 0), acts)
    ensures forall l :: l in Probes(c) ==> Delivered(c, Init([], 0), acts, l)
    ensures SequentialOn(d, network, rs, heard)
  {
    hide Exec, HonestRun, Delivered, AnsweredRun, SequentialResult, Answerable;
    assert WellFormed(c) by { AnswerableMeaning(c, replyC); }
    acts := AnsweredRun(c, replyC);
    s := AnsweredRunEnds(c, replyC);
    AnsweredRunIsHonest(c, network, replyC);
    forall l | l in Probes(c) ensures Delivered(c, Init([], 0), acts, l) {
      AnsweredRunDelivers(c, replyC, l);
    }
    rs, heard := AnsweredSequential(d, replyD);
    forall l | l in heard ensures HonestWait(d.valid, d.packetFor(l), heard[l].attempts, network(l)) {
      assert Accepts(d.valid, d.packetFor(l), heard[l].attempts[0]);
    }
  }

  lemma AnswerableMeaning(c: Config, reply: Label -> Response)
    requires Answerable(c, reply)
    ensures WellFormed(c)
  {
  }
}
