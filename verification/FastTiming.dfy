/** Time in `FastTraceroute`: how long results can have waited, and when the receiver stops. */
module FastTiming {
  import opened ProbeResults
  import opened Validators
  import opened FastMachine
  import opened FastSafety
  import opened FastRuns

  // ----- Lower bound on failures: any clock -----

  /** Every failed probe waited at least `timeout - 9`. */
  predicate FailuresWaited(log: seq<Resolved>, timeout: nat) {
    forall e :: e in log && !e.result.success ==> e.result.waitedFor >= timeout - (MIN_TIME_WAIT_FOR_RESPONSE - 1)
  }

  lemma {:induction false} SweptWaited(q: seq<Pending>, start: int, readings: seq<Reading>, end: int, timeout: nat)
    requires |q| == |readings| && Chronological(start, readings, end)
    ensures FailuresWaited(Swept(q, readings, timeout), timeout)
    decreases q
  {
    if q != [] {
      SweptWaited(q[1..], readings[0].report, readings[1..], end, timeout);
    }
  }

  /** In every run, from any queue, whatever time the receiver spends in its lock region. */
  lemma {:induction false} FailedProbesWaitedLongEnough(c: Config, q0: seq<Pending>, launch: int, acts: seq<Action>, s: State)
    requires Exec(c, Init(q0, launch), acts) == Some(s)
    ensures FailuresWaited(s.log, c.timeout)
    decreases |acts|
  {
    if acts != [] {
      var n := |acts| - 1;
      var before := Exec(c, Init(q0, launch), acts[..n]).value;
      FailedProbesWaitedLongEnough(c, q0, launch, acts[..n], before);
      if acts[n].Process? && !MatchOf(c, before.pending, acts[n].response).MatchThrew? {
        SweptWaited(AfterMatch(c, before.pending, acts[n].response), acts[n].matchedAt, acts[n].readings, acts[n].end, c.timeout);
      }
    }
  }

  // ----- Sweeps with a fixed clock -----

  predicate FixedAt(readings: seq<Reading>, now: int) {
    forall i :: 0 <= i < |readings| ==> readings[i] == Reading(now, now)
  }

  /** All readings of a lock region in which no time passes show its time. */
  lemma {:induction false} FixedReadings(start: int, readings: seq<Reading>, end: int)
    requires Chronological(start, readings, end) && end <= start
    ensures FixedAt(readings, start)
    ensures end == start
    decreases readings
  {
    if readings != [] {
      LastReading(readings[0].report, readings[1..], end);
      FixedReadings(readings[0].report, readings[1..], end);
    }
  }

  /** With a fixed clock, the failures are of expired probes and report how long they have waited. */
  lemma {:induction false} SweptNow(q: seq<Pending>, readings: seq<Reading>, timeout: nat, now: int, e: Resolved)
    requires |q| == |readings| && FixedAt(readings, now)
    requires e in Swept(q, readings, timeout)
    ensures !e.result.success && exists p :: p in q && Expired(p, now, timeout) && e.result.waitedFor == now - p.sentAt
    decreases q
  {
    assert readings[0] == Reading(now, now);
    var failure := Resolved(q[0].probe, FailedProbe(TimePassed(now, q[0].sentAt)));
    if Expired(q[0], now, timeout) && e == failure {
      assert q[0] in q;
    } else {
      SweptNow(q[1..], readings[1..], timeout, now, e);
      var p :| p in q[1..] && Expired(p, now, timeout) && e.result.waitedFor == now - p.sentAt;
      assert p in q;
    }
  }

  /** With a fixed clock, the sweep of a queue in sending order removes exactly a prefix. */
  lemma {:induction false} ExpiredPrefix(q: seq<Pending>, readings: seq<Reading>, timeout: nat, now: int)
    returns (k: nat)
    requires |q| == |readings| && InOrder(q)
    requires FixedAt(readings, now)
    ensures k <= |q|
    ensures Kept(q, readings, timeout) == q[k..]
    ensures LogLabels(Swept(q, readings, timeout)) == PendingLabels(q[..k])
    ensures forall i :: 0 <= i < |q| ==> (Expired(q[i], now, timeout) <==> i < k)
    decreases q
  {
    if q == [] {
      k := 0;
    } else if Expired(q[0], now, timeout) {
      var k' := ExpiredPrefix(q[1..], readings[1..], timeout, now);
      k := k' + 1;
      assert q[..k] == [q[0]] + q[1..][..k'];
      var failure := [Resolved(q[0].probe, FailedProbe(TimePassed(now, q[0].sentAt)))];
      var rest := Swept(q[1..], readings[1..], timeout);
      assert readings[0] == Reading(now, now);
      assert Swept(q, readings, timeout) == failure + rest;
      LogOfConcatenation(failure, rest);
      LabelsOfConcatenation([q[0]], q[1..][..k']);
      assert LogLabels(failure) == PendingLabels([q[0]]);
      assert q[1..][k'..] == q[k..];
      forall i | 0 < i < |q| ensures Expired(q[i], now, timeout) <==> i < k {
        assert q[i] == q[1..][i - 1];
      }
    } else {
      k := 0;
      NothingExpired(q, readings, timeout, now);
    }
  }

  /** And the failures are those of the prefix. */
  lemma SweepRemovesPrefix(q: seq<Pending>, readings: seq<Reading>, timeout: nat, now: int)
    returns (k: nat)
    requires |q| == |readings| && InOrder(q)
    requires FixedAt(readings, now)
    ensures k <= |q|
    ensures Kept(q, readings, timeout) == q[k..]
    ensures LogLabels(Swept(q, readings, timeout)) == PendingLabels(q[..k])
    ensures forall i :: 0 <= i < |q| ==> (Expired(q[i], now, timeout) <==> i < k)
    ensures forall e :: e in Swept(q, readings, timeout) ==>
              !e.result.success && exists p :: p in q[..k] && e.result.waitedFor == now - p.sentAt
  {
    k := ExpiredPrefix(q, readings, timeout, now);
    hide Kept, Expired;
    forall e | e in Swept(q, readings, timeout)
      ensures !e.result.success && exists p :: p in q[..k] && e.result.waitedFor == now - p.sentAt
    {
      SweptNow(q, readings, timeout, now, e);
      var p :| p in q && Expired(p, now, timeout) && e.result.waitedFor == now - p.sentAt;
      var i :| 0 <= i < |q| && q[i] == p;
      assert q[..k][i] == p;
    }
  }

  lemma {:induction false} NothingExpired(q: seq<Pending>, readings: seq<Reading>, timeout: nat, now: int)
    requires |q| == |readings|
    requires FixedAt(readings, now)
    requires InOrder(q) && (q != [] ==> !Expired(q[0], now, timeout))
    ensures Kept(q, readings, timeout) == q && Swept(q, readings, timeout) == []
    ensures forall i :: 0 <= i < |q| ==> !Expired(q[i], now, timeout)
    decreases q
  {
    if q != [] {
      assert |q| > 1 ==> q[0].sentAt <= q[1].sentAt;
      assert readings[0] == Reading(now, now);
      NothingExpired(q[1..], readings[1..], timeout, now);
      assert q == [q[0]] + q[1..];
      assert forall i :: 0 < i < |q| ==> q[i] == q[1..][i - 1];
    }
  }

  // ----- Upper bound on every result -----

  /**
   The longest a probe can have been waiting when a receive begins, if it was sent at
   most `head` before the start. It has been spared by a sweep with 10 microseconds
   left, or there was no sweep yet; and a receive begins before the deadline.
   */
  function LongestWaitAtReceive(c: Config, head: nat): int {
    var spared, room := c.timeout - MIN_TIME_WAIT_FOR_RESPONSE, Deadline(c) - 1;
    if head < spared then
      Least(spared + c.drift + c.slack, head + room)
    else
      Most(head + Least(c.slack, room), spared + Least(c.drift + c.slack, room - 1))
  }

  function Least(x: int, y: int): int {
    if x < y then x else y
  }

  function Most(x: int, y: int): int {
    if x > y then x else y
  }

  /** The longest wait a result can report when no probe was sent more than `age` before the launch. */
  function LongestWait(c: Config, age: nat): int {
    LongestWaitAtReceive(c, c.startup + age) + MaxReceiveTime(c.timeout) + c.drift
  }

  /** How long the pending probe `p` has waited. A sweep comes a microsecond after the start or later. */
  predicate PendingTimely(c: Config, age: nat, s: State, p: Pending) {
    && p.sentAt <= s.clock
    && s.sweptAt - p.sentAt <= (if s.receiver.Starting? then age
                                else if s.rounds == 0 then c.startup + age
                                else c.timeout - MIN_TIME_WAIT_FOR_RESPONSE + c.drift)
    && (s.rounds > 0 ==> s.beginAt + 1 - p.sentAt <= c.timeout - MIN_TIME_WAIT_FOR_RESPONSE)
    && (!s.receiver.Starting? ==> s.beginAt - p.sentAt <= c.startup + age)
  }

  predicate Punctual(c: Config, s: State) {
    && InTime(c, s, s.clock)
    && s.beginAt <= s.sweptAt <= s.clock
    && (s.rounds == 0 ==> s.sweptAt == s.beginAt)
    && (s.rounds > 0 ==> s.beginAt + 1 <= s.sweptAt && c.timeout >= 1000)
    && (s.receiver.Starting? ==> s.rounds == 0)
    && (s.receiver.Receiving? ==>
          && s.sweptAt <= s.receiver.since <= s.clock && s.receiver.since <= s.sweptAt + c.slack
          && s.receiver.since < s.beginAt + Deadline(c))
  }

  predicate Timely(c: Config, age: nat, s: State) {
    && Punctual(c, s)
    && (forall p :: p in s.pending ==> PendingTimely(c, age, s, p))
    && (forall e :: e in s.log ==> e.result.waitedFor <= LongestWait(c, age))
  }

  lemma {:induction false} KeptWait(q: seq<Pending>, start: int, readings: seq<Reading>, end: int, timeout: nat, p: Pending)
    requires |q| == |readings| && Chronological(start, readings, end)
    requires p in Kept(q, readings, timeout)
    ensures p in q && start - p.sentAt <= timeout - MIN_TIME_WAIT_FOR_RESPONSE
    decreases q
  {
    if Expired(q[0], readings[0].decide, timeout) || p != q[0] {
      KeptWait(q[1..], readings[0].report, readings[1..], end, timeout, p);
    }
  }

  lemma {:induction false} SweptWait(q: seq<Pending>, start: int, readings: seq<Reading>, end: int, timeout: nat, e: Resolved)
    requires |q| == |readings| && Chronological(start, readings, end)
    requires e in Swept(q, readings, timeout)
    ensures exists p :: p in q && e.result.waitedFor <= end - p.sentAt
    decreases q
  {
    LastReading(readings[0].report, readings[1..], end);
    var failure := Resolved(q[0].probe, FailedProbe(TimePassed(readings[0].report, q[0].sentAt)));
    if Expired(q[0], readings[0].decide, timeout) && e == failure {
      assert q[0] in q;
    } else {
      assert e in Swept(q[1..], readings[1..], timeout);
      SweptWait(q[1..], readings[0].report, readings[1..], end, timeout, e);
      var p :| p in q[1..] && e.result.waitedFor <= end - p.sentAt;
      assert p in q;
    }
  }

  lemma AfterMatchPart(c: Config, q: seq<Pending>, response: Option<Response>, p: Pending)
    requires p in AfterMatch(c, q, response)
    ensures p in q
  {
  }

  /** What one lock region leaves pending was spared by its sweep. */
  lemma SurvivorsTimely(c: Config, s: State, a: Action, p: Pending)
    requires a.Process? && Enabled(c, s, a)
    requires p in Kept(AfterMatch(c, s.pending, a.response), a.readings, c.timeout)
    ensures p in s.pending && s.clock - p.sentAt <= c.timeout - MIN_TIME_WAIT_FOR_RESPONSE
    ensures s.clock <= a.end <= s.clock + c.drift
  {
    KeptWait(AfterMatch(c, s.pending, a.response), a.matchedAt, a.readings, a.end, c.timeout, p);
    LastReading(a.matchedAt, a.readings, a.end);
    AfterMatchPart(c, s.pending, a.response, p);
  }

  /** What one lock region reports has waited since a pending probe was sent. */
  lemma ReportedWait(c: Config, s: State, a: Action, e: Resolved)
    requires a.Process? && Enabled(c, s, a)
    requires e in Matched(c, s.pending, a.response, a.matchedAt)
             || e in Swept(AfterMatch(c, s.pending, a.response), a.readings, c.timeout)
    ensures exists p :: p in s.pending && e.result.waitedFor <= a.end - p.sentAt
  {
    var q := AfterMatch(c, s.pending, a.response);
    LastReading(a.matchedAt, a.readings, a.end);
    if e in Swept(q, a.readings, c.timeout) {
      SweptWait(q, a.matchedAt, a.readings, a.end, c.timeout, e);
      var p :| p in q && e.result.waitedFor <= a.end - p.sentAt;
      AfterMatchPart(c, s.pending, a.response, p);
    } else {
      assert s.pending[MatchOf(c, s.pending, a.response).index] in s.pending;
    }
  }

  /** While the receiver receives, no pending probe had waited longer than that when it began. */
  lemma WaitAtReceive(c: Config, age: nat, s: State, p: Pending)
    requires Punctual(c, s) && PendingTimely(c, age, s, p) && s.receiver.Receiving?
    ensures s.receiver.since - p.sentAt <= LongestWaitAtReceive(c, c.startup + age)
  {
    hide MaxReceiveTime, Deadline, InTime;
  }

  lemma ProcessTimely(c: Config, age: nat, s: State, a: Action)
    requires a.Process? && Enabled(c, s, a) && Timely(c, age, s)
    ensures Timely(c, age, Apply(c, s, a))
  {
    if !MatchOf(c, s.pending, a.response).MatchThrew? {
      var q := AfterMatch(c, s.pending, a.response);
      var matched, swept := Matched(c, s.pending, a.response, a.matchedAt), Swept(q, a.readings, c.timeout);
      var t := Apply(c, s, a);
      assert t.log == s.log + matched + swept && t.pending == Kept(q, a.readings, c.timeout);
      LastReading(a.matchedAt, a.readings, a.end);
      DeadlineOfMilliseconds(c);
      hide LongestWaitAtReceive, Deadline, MaxReceiveTime;
      forall p | p in t.pending ensures PendingTimely(c, age, t, p) {
        SurvivorsTimely(c, s, a, p);
      }
      forall e | e in matched || e in swept ensures e.result.waitedFor <= LongestWait(c, age) {
        ReportedWait(c, s, a, e);
        var p :| p in s.pending && e.result.waitedFor <= a.end - p.sentAt;
        WaitAtReceive(c, age, s, p);
      }
      hide Kept, Swept, Matched, AfterMatch, MatchOf, Chronological, Enabled, PendingTimely;
    }
  }

  lemma DeadlineOfMilliseconds(c: Config)
    ensures Deadline(c) > 0 ==> c.timeout >= 1000
  {
    assert c.timeout < 1000 ==> WholeMilliseconds(c.timeout) == 0;
  }

  lemma StepTimely(c: Config, age: nat, s: State, a: Action)
    requires Enabled(c, s, a) && Timely(c, age, s)
    ensures Timely(c, age, Apply(c, s, a))
  {
    hide LongestWait, MaxReceiveTime, Deadline, Probes;
    if a.Process? {
      ProcessTimely(c, age, s, a);
    }
  }

  /** In every run, whatever was queued at most `age` before the launch. */
  lemma {:induction false} RunTimely(c: Config, q0: seq<Pending>, age: nat, launch: int, acts: seq<Action>, s: State)
    requires Exec(c, Init(q0, launch), acts) == Some(s)
    requires forall p :: p in q0 ==> launch - age <= p.sentAt <= launch
    ensures Timely(c, age, s)
    decreases |acts|
  {
    if acts != [] {
      var n := |acts| - 1;
      var before := Exec(c, Init(q0, launch), acts[..n]).value;
      RunTimely(c, q0, age, launch, acts[..n], before);
      StepTimely(c, age, before, acts[n]);
    }
  }

  /** A timeout below one millisecond makes the deadline zero: the loop body never runs, whatever is queued. */
  lemma {:induction false} NoResultsBelowOneMillisecond(c: Config, q0: seq<Pending>, launch: int, acts: seq<Action>, s: State)
    requires c.timeout < 1000
    requires Exec(c, Init(q0, launch), acts) == Some(s)
    ensures s.log == [] && s.rounds == 0 && !s.receiver.Receiving? && s.beginAt <= s.clock
    decreases |acts|
  {
    if acts != [] {
      var n := |acts| - 1;
      var before := Exec(c, Init(q0, launch), acts[..n]).value;
      NoResultsBelowOneMillisecond(c, q0, launch, acts[..n], before);
      assert Deadline(c) == 0 by { assert WholeMilliseconds(c.timeout) == 0; }
      hide Deadline, Kept, Swept, Matched, AfterMatch, MatchOf, Chronological;
    }
  }

  /**
   Waiting times over whole runs in which no probe is sent too long before the start: a
   failure waited at least `timeout - 9`, and no result waited longer than twice the
   timeout less 10, plus the slack and two lock regions.
   */
  lemma WaitingTimeBounds(c: Config, q0: seq<Pending>, age: nat, launch: int, acts: seq<Action>, s: State, e: Resolved)
    requires c.timeout >= 1000 ==> c.startup + age <= c.timeout - MIN_TIME_WAIT_FOR_RESPONSE + c.drift
    requires Exec(c, Init(q0, launch), acts) == Some(s) && e in s.log
    requires forall p :: p in q0 ==> launch - age <= p.sentAt <= launch
    ensures c.timeout >= 1000
    ensures !e.result.success ==> c.timeout - 9 <= e.result.waitedFor
    ensures e.result.waitedFor <= 2 * c.timeout - 10 + c.slack + 2 * c.drift
  {
    hide Exec, Deadline;
    FailedProbesWaitedLongEnough(c, q0, launch, acts, s);
    RunTimely(c, q0, age, launch, acts, s);
    if c.timeout < 1000 {
      NoResultsBelowOneMillisecond(c, q0, launch, acts, s);
    }
  }

  // ----- The upper bound is attained -----

  /** A lock region at the time `now` that fails the one pending probe and takes `lasting` to read the clock again. */
  function SlowFailure(now: int, lasting: nat): Action {
    Process(None, now, [Reading(now, now + lasting)], now + lasting)
  }

  lemma SlowFailureRegion(c: Config, s: State, p: Pending, lasting: nat)
    requires s.receiver.Receiving? && s.receiver.since + 1 <= s.clock && lasting <= c.drift
    requires s.pending == [p] && s.log == [] && s.clock - p.sentAt > c.timeout - MIN_TIME_WAIT_FOR_RESPONSE
    ensures Enabled(c, s, SlowFailure(s.clock, lasting))
    ensures Apply(c, s, SlowFailure(s.clock, lasting)).log
         == [Resolved(p.probe, FailedProbe(s.clock + lasting - p.sentAt))]
  {
    var now := s.clock;
    var readings := [Reading(now, now + lasting)];
    assert [p][1..] == [] && readings[1..] == [];
    assert Chronological(now + lasting, readings[1..], now + lasting);
    assert AfterMatch(c, s.pending, None) == s.pending && Matched(c, s.pending, None, now) == [];
    assert Swept([p], readings, c.timeout) == [Resolved(p.probe, FailedProbe(TimePassed(now + lasting, p.sentAt)))];
  }

  /** The one pending probe is still there after a receive of `wait`, and fails then. */
  lemma FailsAfter(c: Config, s0: State, acts: seq<Action>, s: State, p: Pending, wait: nat, lasting: nat, limit: int)
    returns (more: seq<Action>, t: State)
    requires Reaches(c, s0, acts, s, limit) && s.receiver.Testing? && LoopContinues(c, s)
    requires 1 <= wait <= MaxReceiveTime(c.timeout) && lasting <= c.drift && s.clock + wait <= limit
    requires s.pending == [p] && s.log == [] && s.clock + wait - p.sentAt > c.timeout - MIN_TIME_WAIT_FOR_RESPONSE
    ensures Exec(c, s0, more) == Some(t)
    ensures t.log == [Resolved(p.probe, FailedProbe(s.clock + wait + lasting - p.sentAt))]
  {
    hide Exec, AllRegisteredBy, LoopContinues, MaxReceiveTime, Probes;
    var s1 := Apply(c, s, Test);
    Extend(c, s0, acts, s, Test, limit);
    var s2 := Apply(c, s1, Tick(wait));
    Extend(c, s0, acts + [Test], s1, Tick(wait), limit);
    SlowFailureRegion(c, s2, p, lasting);
    hide Enabled, Apply;
    var a := SlowFailure(s2.clock, lasting);
    ExecStep(c, s0, acts + [Test] + [Tick(wait)], s2, a);
    more, t := acts + [Test] + [Tick(wait)] + [a], Apply(c, s2, a);
  }

  /** At the start one probe is pending that was sent at `sentAt`: left over, or registered since the launch. */
  lemma OnePendingAtStart(c: Config, sentAt: int, limit: int) returns (q0: seq<Pending>, acts: seq<Action>, s: State, p: Pending)
    requires |Probes(c)| >= 1 && sentAt <= c.startup <= limit
    ensures if sentAt < 0 then q0 == [p] else q0 == []
    ensures Reaches(c, Init(q0, 0), acts, s, limit) && p.sentAt == sentAt
    ensures s.receiver.Testing? && s.clock == s.sweptAt == s.beginAt == c.startup
    ensures s.pending == [p] && s.log == []
  {
    hide Probes, Reaches;
    p := Pending(c.packetFor(Probes(c)[0]), sentAt, Probes(c)[0]);
    q0 := if sentAt < 0 then [p] else [];
    var s0 := Init(q0, 0);
    Start(c, s0, limit);
    var acts1, s1 := [], s0;
    if sentAt >= 0 {
      var s2 := Apply(c, s0, Tick(sentAt));
      Extend(c, s0, [], s0, Tick(sentAt), limit);
      acts1, s1 := RegisterAtOnce(c, s0, [] + [Tick(sentAt)], s2, 1, limit);
      p := s1.pending[0];
      assert p in s1.pending && s1.pending == [p];
    }
    var rest: nat := c.startup - s1.clock;
    var s3 := Apply(c, s1, Tick(rest));
    Extend(c, s0, acts1, s1, Tick(rest), limit);
    s := Apply(c, s3, Begin);
    Extend(c, s0, acts1 + [Tick(rest)], s3, Begin, limit);
    acts := acts1 + [Tick(rest)] + [Begin];
  }

  /** A sweep at `spared` that spares everything, if there is one, and then as much drift and slack as fit before `last`. */
  lemma SpareAndWait(c: Config, s0: State, acts: seq<Action>, s: State, p: Pending, spared: int, last: int, limit: int)
    returns (more: seq<Action>, t: State)
    requires Reaches(c, s0, acts, s, limit) && s.receiver.Testing? && s.clock == s.sweptAt == s.beginAt
    requires ExpectedSize(c) >= 1 && s.pending == [p] && s.log == []
    requires s.clock <= spared && s.clock <= last == s.beginAt + Deadline(c) - 1 <= limit
    requires spared > s.clock ==> spared - p.sentAt <= c.timeout - MIN_TIME_WAIT_FOR_RESPONSE
    ensures Reaches(c, s0, more, t, limit) && t.receiver.Testing? && t.beginAt == s.beginAt
    ensures t.pending == [p] && t.log == []
    ensures t.clock == Least(spared + (if spared > s.clock then c.drift else 0) + c.slack, last)
  {
    hide Reaches, Probes, ExpectedSize, Deadline, LoopContinues;
    var acts1, s1 := acts, s;
    if spared > s.clock {
      var before := Least(spared - 1, last);
      acts1, s1 := AdvanceSparing(c, s0, acts, s, before, limit);
      if spared <= last {
        assert LoopContinues(c, s1) by { StillTime(c, s1); }
        acts1, s1 := SparingRound(c, s0, acts1, s1, Least(spared + c.drift, last), limit);
      }
    }
    var rest: nat := Least(c.slack, last - s1.clock);
    t := Apply(c, s1, Tick(rest));
    Extend(c, s0, acts1, s1, Tick(rest), limit);
    more := acts1 + [Tick(rest)];
  }

  lemma StillTime(c: Config, s: State)
    requires |s.log| < ExpectedSize(c) && s.clock < s.beginAt + Deadline(c)
    ensures LoopContinues(c, s)
  {
    hide ExpectedSize, Deadline;
  }

  /** When such a probe was sent that waits longest, and when the sweep that spares it begins (if after the start). */
  lemma LongestWaiter(c: Config, age: nat) returns (sentAt: int, spared: int)
    requires c.timeout >= 1000 && Deadline(c) >= 1000
    ensures 0 <= sentAt + age && sentAt <= c.startup <= spared
    ensures spared > c.startup ==> spared - sentAt <= c.timeout - MIN_TIME_WAIT_FOR_RESPONSE
    ensures Least(spared + (if spared > c.startup then c.drift else 0) + c.slack, c.startup + Deadline(c) - 1) - sentAt
         == LongestWaitAtReceive(c, c.startup + age)
  {
    hide Deadline;
    var most, head, room := c.timeout - MIN_TIME_WAIT_FOR_RESPONSE, c.startup + age, Deadline(c) - 1;
    if head < most {
      sentAt, spared := 0 - (age as int), most - age;
    } else if head + Least(c.slack, room) > most + Least(c.drift + c.slack, room - 1) {
      sentAt, spared := 0 - (age as int), c.startup;
    } else {
      sentAt, spared := c.startup + 1 - most, c.startup + 1;
    }
  }

  /**
   The bound is sharp for every configuration and every age: some run has a probe wait
   exactly that long, the run starting with an empty queue when the age is zero.
   */
  lemma LongestWaitAttained(c: Config, age: nat) returns (q0: seq<Pending>, acts: seq<Action>, s: State)
    requires WellFormed(c) && |Probes(c)| >= 1 && c.timeout >= 1000
    ensures (age == 0 ==> q0 == []) && forall p :: p in q0 ==> 0 <= p.sentAt + age && p.sentAt <= 0
    ensures Exec(c, Init(q0, 0), acts) == Some(s)
    ensures |s.log| == 1 && s.log[0].result == FailedProbe(LongestWait(c, age))
  {
    ExpectedSizeIsProbeCount(c);
    DeadlineGrows(c, 1);
    var wait := MaxReceiveTime(c.timeout);
    hide ExpectedSize, Deadline, Probes, MaxReceiveTime, LongestWaitAtReceive, Reaches, WellFormed, LoopContinues;
    var sentAt, spared := LongestWaiter(c, age);
    var last := c.startup + Deadline(c) - 1;
    var limit := last + wait;
    var acts1, s1, p;
    q0, acts1, s1, p := OnePendingAtStart(c, sentAt, limit);
    var acts2, s2 := SpareAndWait(c, Init(q0, 0), acts1, s1, p, spared, last, limit);
    StillTime(c, s2);
    LongestWaitExpires(c, c.startup + age);
    acts, s := FailsAfter(c, Init(q0, 0), acts2, s2, p, wait, c.drift, limit);
  }

  lemma LongestWaitExpires(c: Config, head: nat)
    requires c.timeout >= 1000 && Deadline(c) >= WholeMilliseconds(c.timeout)
    ensures LongestWaitAtReceive(c, head) + MaxReceiveTime(c.timeout) > c.timeout - MIN_TIME_WAIT_FOR_RESPONSE
    ensures MaxReceiveTime(c.timeout) >= 1
  {
    hide Deadline;
  }

  /** For two or more probes, a prompt start, and little slack and drift, the deadline plays no part in the bound. */
  lemma TwoProbesWaitLongest(c: Config)
    requires WellFormed(c) && |Probes(c)| >= 2 && c.timeout >= 1000
    requires c.startup < c.timeout - MIN_TIME_WAIT_FOR_RESPONSE && c.slack + c.drift <= MIN_TIME_WAIT_FOR_RESPONSE
    ensures LongestWait(c, 0) == c.timeout - 10 + WholeMilliseconds(c.timeout) + c.slack + 2 * c.drift
  {
    TimeoutBeforeDeadline(c);
    hide Deadline;
  }

  // ----- What a failed probe reports -----

  /** Every failed probe reports exactly the timeout. */
  ghost predicate FailuresReportTimeout(c: Config) {
    forall launch, acts, s, e ::
      Exec(c, Init([], launch), acts) == Some(s) && e in s.log && !e.result.success ==> e.result.waitedFor == c.timeout
  }

  /** A probe judged by the first clock reading that leaves it less than 10 microseconds. */
  lemma EarliestFailure(c: Config) returns (acts: seq<Action>, s: State)
    requires WellFormed(c) && |Probes(c)| >= 1 && c.timeout >= 1000
    ensures Exec(c, Init([], 0), acts) == Some(s)
    ensures |s.log| == 1 && s.log[0].result == FailedProbe(c.timeout - 9)
  {
    ExpectedSizeIsProbeCount(c);
    DeadlineGrows(c, 1);
    assert MaxReceiveTime(c.timeout) == WholeMilliseconds(c.timeout) >= 1000;
    var spared := c.timeout - MIN_TIME_WAIT_FOR_RESPONSE;
    hide ExpectedSize, Deadline, Probes, MaxReceiveTime, Reaches, WellFormed, LoopContinues;
    var s0, limit, to := Init([], 0), c.timeout as int, Least(spared, Deadline(c) - 1);
    Start(c, s0, limit);
    var s1 := Apply(c, s0, Begin);
    Extend(c, s0, [], s0, Begin, limit);
    var acts2, s2 := RegisterAtOnce(c, s0, [] + [Begin], s1, 1, limit);
    var p := s2.pending[0];
    assert p in s2.pending && s2.pending == [p];
    var acts3, s3 := AdvanceSparing(c, s0, acts2, s2, to, limit);
    StillTime(c, s3);
    acts, s := FailsAfter(c, s0, acts3, s3, p, spared + 1 - to, 0, limit);
  }

  /** That holds only where nothing is ever reported. */
  lemma FailuresReportTimeoutExactly(c: Config)
    requires WellFormed(c)
    ensures FailuresReportTimeout(c) <==> c.timeout < 1000 || Probes(c) == []
  {
    hide Exec, Probes, WellFormed;
    if c.timeout < 1000 || Probes(c) == [] {
      forall launch, acts, s | Exec(c, Init([], launch), acts) == Some(s) ensures s.log == [] {
        if c.timeout < 1000 {
          NoResultsBelowOneMillisecond(c, [], launch, acts, s);
        } else {
          ExitByCountIsClean(c, launch, acts, s);
        }
      }
    } else {
      var acts, s := EarliestFailure(c);
      assert s.log[0] in s.log;
    }
  }

  // ----- Deadlines -----

  /** Whatever its fraction of a millisecond, the timeout ends before the deadline of two probes. */
  lemma TimeoutBeforeDeadline(c: Config)
    requires WellFormed(c) && |Probes(c)| >= 2 && c.timeout >= 1000
    ensures c.timeout < Deadline(c)
  {
    DeadlineGrows(c, 2);
  }

  lemma DeadlineGrows(c: Config, k: nat)
    requires WellFormed(c) && |Probes(c)| >= k
    ensures Deadline(c) >= WholeMilliseconds(c.timeout) * k
  {
    ExpectedSizeIsProbeCount(c);
    hide ExpectedSize, Probes, WholeMilliseconds, WellFormed;
    MultiplesGrow(WholeMilliseconds(c.timeout), k, |Probes(c)|);
  }

  lemma MultiplesGrow(a: nat, k: nat, n: nat)
    requires k <= n
    ensures a * k <= a * n
  {
  }

  // ----- The receiver stops -----

  predicate Progressing(c: Config, s: State) {
    && s.beginAt + s.rounds <= s.sweptAt <= s.clock
    && (s.receiver.Receiving? ==>
          && s.sweptAt <= s.receiver.since <= s.clock
          && s.receiver.since < s.beginAt + Deadline(c))
    && (s.rounds > 0 ==> s.rounds <= Deadline(c))
    && (s.receiver.Starting? ==> s.rounds == 0)
  }

  lemma StepProgresses(c: Config, s: State, a: Action)
    requires Enabled(c, s, a) && Progressing(c, s)
    ensures Progressing(c, Apply(c, s, a))
  {
    if a.Process? {
      LastReading(a.matchedAt, a.readings, a.end);
    }
  }

  /** Every run, from any queue, makes at most as many receive attempts as the deadline has microseconds. */
  lemma {:induction false} ReceiveAttemptsBounded(c: Config, q0: seq<Pending>, launch: int, acts: seq<Action>, s: State)
    requires Exec(c, Init(q0, launch), acts) == Some(s)
    ensures Progressing(c, s) && s.rounds <= Deadline(c)
    decreases |acts|
  {
    if acts != [] {
      var n := |acts| - 1;
      var before := Exec(c, Init(q0, launch), acts[..n]).value;
      ReceiveAttemptsBounded(c, q0, launch, acts[..n], before);
      StepProgresses(c, before, acts[n]);
    }
  }
}
