/**
 Which probes `FastTraceroute` can lose: those the deadline cuts off, with the exact
 condition under which there are none, and those a leftover queue displaces.
 */
module FastLosses {
  import opened ProbeResults
  import opened Validators
  import opened FastMachine
  import opened FastSafety
  import opened FastRuns
  import opened FastResults
  import opened FastTiming

  // ----- Every run resolves every probe -----

  /** How soon after the start the last sweep before an exit by deadline can begin: each takes its receive a microsecond. */
  function LastSweep(c: Config): int {
    var latest := Deadline(c) - c.slack - c.drift;
    if latest > 1 then latest else 1
  }

  /** Registered by then, a probe has expired when that sweep begins. */
  function LastSafeMoment(c: Config): int {
    LastSweep(c) - c.timeout + (MIN_TIME_WAIT_FOR_RESPONSE - 1)
  }

  /** The last sweep began at `time` or later. */
  predicate SweptFrom(c: Config, s: State, time: int) {
    s.rounds > 0 && (s.sweptAt - c.drift >= time || s.beginAt + 1 >= time)
  }

  /**
   With every registration made by `limit`, a sweep from `limit + timeout - 9` on
   leaves nothing pending, and nothing is registered after it.
   */
  predicate SweptClean(c: Config, s: State, limit: int) {
    && s.beginAt <= s.sweptAt <= s.clock && InTime(c, s, s.clock)
    && (s.receiver.Receiving? ==> s.sweptAt <= s.receiver.since)
    && (forall p :: p in s.pending ==> p.sentAt <= limit)
    && (SweptFrom(c, s, limit + c.timeout - (MIN_TIME_WAIT_FOR_RESPONSE - 1)) ==>
          s.pending == [] && s.registered == |Probes(c)|)
    && (s.rounds == 0 ==> s.sweptAt == s.beginAt)
    && (s.receiver.Starting? ==> s.rounds == 0)
    && (s.receiver.Exited? ==> |s.log| >= |Probes(c)| || (s.pending == [] && s.registered == |Probes(c)|))
  }

  lemma {:induction false} ReadFrom(start: int, readings: seq<Reading>, end: int)
    requires Chronological(start, readings, end)
    ensures forall i :: 0 <= i < |readings| ==> readings[i].decide >= start
    decreases readings
  {
    if readings != [] {
      ReadFrom(readings[0].report, readings[1..], end);
      assert forall i :: 0 < i < |readings| ==> readings[i] == readings[1..][i - 1];
    }
  }

  lemma {:induction false} AllExpired(q: seq<Pending>, readings: seq<Reading>, timeout: nat, limit: int)
    requires |q| == |readings|
    requires forall p :: p in q ==> p.sentAt <= limit
    requires forall i :: 0 <= i < |readings| ==> readings[i].decide >= limit + timeout - (MIN_TIME_WAIT_FOR_RESPONSE - 1)
    ensures Kept(q, readings, timeout) == []
    decreases q
  {
    if q != [] {
      AllExpired(q[1..], readings[1..], timeout, limit);
    }
  }

  lemma SubsetKept(c: Config, q: seq<Pending>, response: Option<Response>, readings: seq<Reading>, p: Pending)
    requires |readings| == |AfterMatch(c, q, response)|
    requires InOrder(q) && p in Kept(AfterMatch(c, q, response), readings, c.timeout)
    ensures p in q
  {
    MatchKeepsOrder(c, q, response);
    SweepKeepsOrder(AfterMatch(c, q, response), readings, c.timeout);
  }

  lemma ProcessSweptClean(c: Config, s: State, a: Action, limit: int)
    requires c.timeout >= MIN_TIME_WAIT_FOR_RESPONSE
    requires a.Process? && Enabled(c, s, a) && InOrder(s.pending)
    requires SweptClean(c, s, limit)
    requires s.clock > limit ==> s.registered == |Probes(c)|
    ensures SweptClean(c, Apply(c, s, a), limit)
  {
    if !MatchOf(c, s.pending, a.response).MatchThrew? {
      var q := AfterMatch(c, s.pending, a.response);
      LastReading(a.matchedAt, a.readings, a.end);
      ReadFrom(a.matchedAt, a.readings, a.end);
      MatchKeepsOrder(c, s.pending, a.response);
      var t := Apply(c, s, a);
      forall p | p in t.pending ensures p.sentAt <= limit {
        SubsetKept(c, s.pending, a.response, a.readings, p);
      }
      if SweptFrom(c, t, limit + c.timeout - (MIN_TIME_WAIT_FOR_RESPONSE - 1)) {
        AllExpired(q, a.readings, c.timeout, limit);
      }
    }
  }

  lemma StepSweptClean(c: Config, s: State, a: Action, limit: int)
    requires WellFormed(c) && c.timeout >= MIN_TIME_WAIT_FOR_RESPONSE && |Probes(c)| > 0
    requires Enabled(c, s, a) && InOrder(s.pending)
    requires SweptClean(c, s, limit)
    requires s.clock > limit ==> s.registered == |Probes(c)|
    requires !s.receiver.Starting? ==> limit <= s.beginAt + LastSafeMoment(c)
    requires c.slack < Deadline(c)
    ensures SweptClean(c, Apply(c, s, a), limit)
  {
    if a.Process? {
      ProcessSweptClean(c, s, a, limit);
    } else {
      ExpectedSizeIsProbeCount(c);
    }
  }

  lemma {:induction false} BeginKept(c: Config, s0: State, acts: seq<Action>, k: nat, s: State)
    requires k <= |acts| && Exec(c, s0, acts) == Some(s) && Exec(c, s0, acts[..k]).Some?
    ensures var at := Exec(c, s0, acts[..k]).value; !at.receiver.Starting? ==> !s.receiver.Starting? && s.beginAt == at.beginAt
    decreases |acts|
  {
    if k == |acts| {
      assert acts[..k] == acts;
    } else {
      var n := |acts| - 1;
      var before := Exec(c, s0, acts[..n]).value;
      assert acts[..n][..k] == acts[..k];
      BeginKept(c, s0, acts[..n], k, before);
    }
  }

  lemma {:induction false} RunSweptClean(c: Config, launch: int, acts: seq<Action>, k: nat, s: State, limit: int)
    requires WellFormed(c) && c.timeout >= MIN_TIME_WAIT_FOR_RESPONSE && |Probes(c)| > 0
    requires c.slack < Deadline(c) && k <= |acts|
    requires Exec(c, Init([], launch), acts) == Some(s)
    requires AllRegisteredBy(c, Init([], launch), acts, limit)
    requires limit <= s.beginAt + LastSafeMoment(c) && !s.receiver.Starting?
    ensures Exec(c, Init([], launch), acts[..k]).Some?
    ensures SweptClean(c, Exec(c, Init([], launch), acts[..k]).value, limit)
    decreases k
  {
    var s0 := Init([], launch);
    PrefixOfRun(c, s0, acts, k);
    if k > 0 {
      RunSweptClean(c, launch, acts, k - 1, s, limit);
      var before := Exec(c, s0, acts[..k - 1]).value;
      assert acts[..k][..k - 1] == acts[..k - 1] && acts[..k][k - 1] == acts[k - 1];
      RunConserves(c, launch, acts[..k - 1], before);
      BeginKept(c, s0, acts, k - 1, s);
      hide Exec;
      StepSweptClean(c, before, acts[k - 1], limit);
    }
  }

  /**
   No probe is lost. If all probes are registered early enough to expire before the
   last sweep begins (with no slack and drift: a timeout less 9 microseconds before
   the deadline), then every run that leaves its loop has resolved every probe, and
   its table has exactly `retries` results per ttl.
   */
  lemma NoProbeLost(c: Config, launch: int, acts: seq<Action>, s: State, limit: int)
    requires WellFormed(c) && c.slack < Deadline(c)
    requires Exec(c, Init([], launch), acts) == Some(s) && s.receiver.Exited?
    requires AllRegisteredBy(c, Init([], launch), acts, limit)
    requires limit <= s.beginAt + LastSafeMoment(c)
    ensures s.pending == [] && multiset(LogLabels(s.log)) == multiset(Probes(c))
    ensures forall ttl: nat :: |RowOf(Table(s.log), ttl)| == if c.ttlBegin <= ttl <= c.ttlEnd then c.retries else 0
  {
    ExpectedSizeIsProbeCount(c);
    RunSweptClean(c, launch, acts, |acts|, s, limit);
    assert acts[..|acts|] == acts;
    RunConserves(c, launch, acts, s);
    hide Exec;
    ExitByCountIsClean(c, launch, acts, s);
    assert |s.log| == |Probes(c)| by {
      assert s.pending == [] ==> PendingLabels(s.pending) == [];
      assert s.registered == |Probes(c)| ==> Probes(c)[..s.registered] == Probes(c);
      assert |multiset(LogLabels(s.log))| == |s.log|;
      assert |multiset(Probes(c))| == |Probes(c)|;
    }
    TableMeaning(s.log);
    forall ttl: nat ensures |RowOf(Table(s.log), ttl)| == if c.ttlBegin <= ttl <= c.ttlEnd then c.retries else 0 {
      CompleteRows(c, s.log, ttl);
    }
  }

  /**
   For a timeout of whole milliseconds it is enough that all N probes are registered
   within N - 1 timeouts of the start, and that less than 10 microseconds pass
   between the beginning of a sweep, or the start, and the next loop test.
   */
  lemma NoProbeLostWholeMilliseconds(c: Config, launch: int, acts: seq<Action>, s: State)
    requires WellFormed(c) && c.slack + c.drift < MIN_TIME_WAIT_FOR_RESPONSE
    requires c.timeout >= 1000 && c.timeout % 1000 == 0 && |Probes(c)| >= 1
    requires Exec(c, Init([], launch), acts) == Some(s) && s.receiver.Exited?
    requires AllRegisteredBy(c, Init([], launch), acts, s.beginAt + (|Probes(c)| - 1) * c.timeout)
    ensures s.pending == []
    ensures forall ttl: nat :: |RowOf(Table(s.log), ttl)| == if c.ttlBegin <= ttl <= c.ttlEnd then c.retries else 0
  {
    hide Exec;
    var n := |Probes(c)|;
    WholeDeadline(c);
    hide Deadline, Probes, WellFormed;
    NoProbeLost(c, launch, acts, s, s.beginAt + (n - 1) * c.timeout);
  }

  lemma WholeDeadline(c: Config)
    requires WellFormed(c) && c.timeout % 1000 == 0 && |Probes(c)| >= 1
    ensures Deadline(c) == (|Probes(c)| - 1) * c.timeout + c.timeout
    ensures (|Probes(c)| - 1) * c.timeout >= 0
  {
    ExpectedSizeIsProbeCount(c);
    hide ExpectedSize, Probes, WellFormed;
    assert WholeMilliseconds(c.timeout) == c.timeout;
    OneFactorOut(c.timeout, |Probes(c)|);
  }

  lemma OneFactorOut(a: nat, n: nat)
    requires n >= 1
    ensures a * n == (n - 1) * a + a && (n - 1) * a >= 0
  {
  }

  // ----- The condition is exact -----

  /**
   Every run that has registered all probes within `late` of its start (before it,
   when `late` is negative) and has left its loop has resolved them all.
   */
  ghost predicate NeverLoses(c: Config, late: int) {
    forall launch, acts, s ::
      Exec(c, Init([], launch), acts) == Some(s) && s.receiver.Exited? && AllRegisteredBy(c, Init([], launch), acts, s.beginAt + late)
      ==> s.pending == [] && multiset(LogLabels(s.log)) == multiset(Probes(c))
  }

  /** All probes are registered at one time, `reg` from the start, before the receiver has swept anything. */
  lemma AllRegisteredAt(c: Config, late: int, reg: int) returns (acts: seq<Action>, s: State)
    requires WellFormed(c) && |Probes(c)| >= 1 && late + c.startup >= 0
    requires if late < 0 then reg == late else 0 <= reg <= late && reg <= Deadline(c)
    ensures var b := if late < 0 then -late else 0;
            && Reaches(c, Init([], 0), acts, s, b + late) && s.beginAt == b && s.receiver.Testing?
            && s.clock == s.sweptAt == b + (if reg < 0 then 0 else reg)
            && s.registered == |Probes(c)| == |s.pending| && s.log == []
            && forall p :: p in s.pending ==> p.sentAt == b + reg
  {
    ExpectedSizeIsProbeCount(c);
    hide ExpectedSize, Probes, Unexpired, Deadline, Reaches;
    var s0, n := Init([], 0), |Probes(c)|;
    if late < 0 {
      Start(c, s0, 0);
      var acts1, s1 := RegisterAtOnce(c, s0, [], s0, n, 0);
      var s2 := Apply(c, s1, Tick(-late));
      Extend(c, s0, acts1, s1, Tick(-late), 0);
      s := Apply(c, s2, Begin);
      Extend(c, s0, acts1 + [Tick(-late)], s2, Begin, 0);
      acts := acts1 + [Tick(-late)] + [Begin];
    } else {
      Start(c, s0, late);
      var s1 := Apply(c, s0, Begin);
      Extend(c, s0, [], s0, Begin, late);
      var acts2, s2 := AdvanceSparing(c, s0, [] + [Begin], s1, reg, late);
      acts, s := RegisterAtOnce(c, s0, acts2, s2, n, late);
    }
  }

  /** When the condition fails, a run registers every probe in time, finishes, and has no result at all. */
  lemma LosingRun(c: Config, late: int) returns (acts: seq<Action>, s: State)
    requires WellFormed(c) && |Probes(c)| >= 1 && late + c.startup >= 0
    requires !(c.slack < Deadline(c) && late <= LastSafeMoment(c))
    ensures Reaches(c, Init([], 0), acts, s, s.beginAt + late)
    ensures s.receiver.Exited? && s.log == [] && |s.pending| == s.registered == |Probes(c)|
  {
    ExpectedSizeIsProbeCount(c);
    var before := if c.slack < Deadline(c) then LastSweep(c) - 1 else 0;
    var reg := if late < before then late else before;
    var acts1, s1 := AllRegisteredAt(c, late, reg);
    var s0, b := Init([], 0), s1.beginAt;
    if c.slack < Deadline(c) {
      DeadlineOfMilliseconds(c);
      hide ExpectedSize, Probes, Unexpired, Deadline, Reaches;
      var acts2, s2 := AdvanceSparing(c, s0, acts1, s1, b + before, b + late);
      acts1, s1 := SparingRound(c, s0, acts2, s2, b + Deadline(c) - c.slack, b + late);
    }
    hide ExpectedSize, Probes, Unexpired, Deadline, Reaches;
    var s3 := Apply(c, s1, Tick(c.slack));
    Extend(c, s0, acts1, s1, Tick(c.slack), b + late);
    s := Apply(c, s3, Test);
    Extend(c, s0, acts1 + [Tick(c.slack)], s3, Test, b + late);
    acts := acts1 + [Tick(c.slack)] + [Test];
  }

  /** The start is read within the startup bound of the launch. */
  lemma {:induction false} BeganInTime(c: Config, launch: int, acts: seq<Action>, s: State)
    requires Exec(c, Init([], launch), acts) == Some(s)
    ensures s.beginAt <= launch + c.startup
    ensures s.receiver.Starting? ==> s.sweptAt == launch && s.clock <= launch + c.startup
    decreases |acts|
  {
    if acts != [] {
      var n := |acts| - 1;
      BeganInTime(c, launch, acts[..n], Exec(c, Init([], launch), acts[..n]).value);
    }
  }

  /**
   The exact condition, for any number of probes, timeout, startup, slack and drift:
   no run loses a probe if and only if the last registration comes no later than the
   last safe moment. (Registration earlier than the startup bound before the start
   cannot be.)
   */
  lemma NoProbeLostExactly(c: Config, late: int)
    requires WellFormed(c) && |Probes(c)| >= 1
    ensures NeverLoses(c, late) <==> late + c.startup < 0 || (c.slack < Deadline(c) && late <= LastSafeMoment(c))
  {
    hide Deadline, Probes, WellFormed, LastSafeMoment;
    if late + c.startup < 0 {
      forall launch, acts, s | Exec(c, Init([], launch), acts) == Some(s)
        ensures !AllRegisteredBy(c, Init([], launch), acts, s.beginAt + late)
      {
        BeganInTime(c, launch, acts, s);
        assert acts[..0] == [];
      }
    } else if c.slack < Deadline(c) && late <= LastSafeMoment(c) {
      hide Exec, AllRegisteredBy;
      forall launch, acts, s | Exec(c, Init([], launch), acts) == Some(s) && s.receiver.Exited?
                               && AllRegisteredBy(c, Init([], launch), acts, s.beginAt + late)
        ensures s.pending == [] && multiset(LogLabels(s.log)) == multiset(Probes(c))
      {
        NoProbeLost(c, launch, acts, s, s.beginAt + late);
      }
    } else {
      hide Exec, AllRegisteredBy;
      var acts, s := LosingRun(c, late);
    }
  }

  /** For a timeout of whole milliseconds: N - 1 timeouts and 9 microseconds, less slack and drift, and not one more. */
  lemma WholeMillisecondLimit(c: Config, late: int)
    requires WellFormed(c) && |Probes(c)| >= 1 && c.slack + c.drift < Deadline(c)
    requires c.timeout % 1000 == 0 && late + c.startup >= 0
    ensures NeverLoses(c, late) <==> late <= (|Probes(c)| - 1) * c.timeout + 9 - c.slack - c.drift
  {
    WholeDeadline(c);
    hide NeverLoses, Deadline, Probes, WellFormed;
    NoProbeLostExactly(c, late);
  }

  /**
   Probes registered by the start are safe, with one exception: a single probe whose
   timeout has a fraction of a millisecond that, with slack and drift, makes 10 microseconds.
   */
  lemma PromptProbesAreSafe(c: Config)
    requires WellFormed(c) && |Probes(c)| >= 1
    requires c.timeout >= 1000 && c.slack + c.drift < MIN_TIME_WAIT_FOR_RESPONSE
    ensures NeverLoses(c, 0)
       <==> !(|Probes(c)| == 1 && c.timeout % 1000 + c.slack + c.drift >= MIN_TIME_WAIT_FOR_RESPONSE)
  {
    ExpectedSizeIsProbeCount(c);
    if |Probes(c)| >= 2 {
      TimeoutBeforeDeadline(c);
    } else {
      assert Deadline(c) == WholeMilliseconds(c.timeout);
    }
    hide NeverLoses, Deadline, Probes, WellFormed, ExpectedSize;
    NoProbeLostExactly(c, 0);
  }

  // ----- A queue that was not empty -----

  /** Every exit by count has sent all probes of the run and resolved them. */
  ghost predicate CleanExits(c: Config, q0: seq<Pending>, launch: int) {
    forall acts, s ::
      Exec(c, Init(q0, launch), acts) == Some(s) && s.receiver.Exited? && |s.log| >= ExpectedSize(c)
      ==> s.registered == |Probes(c)| && multiset(Probes(c)) <= multiset(LogLabels(s.log))
  }

  /** One round without response at the end of which everything pending has expired. */
  lemma ExpireAll(c: Config, s0: State, acts: seq<Action>, s: State, limit: int)
    returns (more: seq<Action>, t: State)
    requires Reaches(c, s0, acts, s, limit) && s.receiver.Testing? && LoopContinues(c, s)
    requires forall p :: p in s.pending ==> s.clock + MaxReceiveTime(c.timeout) - p.sentAt > c.timeout - MIN_TIME_WAIT_FOR_RESPONSE
    requires s.clock + MaxReceiveTime(c.timeout) <= limit
    ensures Reaches(c, s0, more, t, limit)
    ensures t == s.(clock := t.clock, sweptAt := t.clock, rounds := s.rounds + 1, pending := [], log := t.log)
    ensures |t.log| == |s.log| + |s.pending| && t.clock <= limit
  {
    assert MaxReceiveTime(c.timeout) >= 1;
    hide LoopContinues, Reaches, Probes, MaxReceiveTime;
    more, t := Round(c, s0, acts, s, MaxReceiveTime(c.timeout), 0, limit);
    EveryExpired(s.pending, t.clock, c.timeout);
  }

  lemma {:induction false} UnexpiredPart(q: seq<Pending>, now: int, timeout: nat)
    ensures forall p :: p in Unexpired(q, now, timeout) ==> p in q
    decreases q
  {
    if q != [] {
      UnexpiredPart(q[1..], now, timeout);
    }
  }

  /** From a leftover queue, with all but one of the run's own probes registered at once, to just before the first deadline. */
  lemma OwnAndLeftover(c: Config, q0: seq<Pending>, launch: int, whole: nat, limit: int) returns (acts: seq<Action>, s: State)
    requires |Probes(c)| >= 1 && 1 <= whole <= Deadline(c) && launch + whole <= limit
    requires q0 != [] && forall p :: p in q0 ==> p.sentAt <= launch
    ensures Reaches(c, Init(q0, launch), acts, s, limit)
    ensures s.registered == |Probes(c)| - 1 && s.beginAt == launch
    ensures |s.log| + |s.pending| >= |Probes(c)|
    ensures if s.receiver.Testing? then s.clock == launch + whole - 1 else s.receiver.Exited? && |s.log| >= ExpectedSize(c)
    ensures s.receiver.Testing? ==> forall p :: p in s.pending ==> p.sentAt <= launch
  {
    hide ExpectedSize, Probes, Unexpired, Deadline, Reaches;
    var s0, n := Init(q0, launch), |Probes(c)|;
    Start(c, s0, limit);
    var s1 := Apply(c, s0, Begin);
    Extend(c, s0, [], s0, Begin, limit);
    var acts2, s2 := RegisterAtOnce(c, s0, [] + [Begin], s1, n - 1, limit);
    acts, s := Advance(c, s0, acts2, s2, launch + whole - 1, limit);
    UnexpiredPart(s2.pending, launch + whole - 1, c.timeout);
  }

  /**
   A leftover probe takes the place of one of the run's own: together they fill the
   count before the run's last probe is sent.
   */
  lemma LeftoverEndsRun(c: Config, q0: seq<Pending>, launch: int) returns (acts: seq<Action>, s: State)
    requires WellFormed(c) && |Probes(c)| >= 1 && c.timeout >= 1000
    requires q0 != [] && forall p :: p in q0 ==> p.sentAt <= launch
    ensures Exec(c, Init(q0, launch), acts) == Some(s)
    ensures s.receiver.Exited? && |s.log| >= ExpectedSize(c) && s.registered == |Probes(c)| - 1
  {
    hide ExpectedSize, Probes, Deadline, Exec, AllRegisteredBy, WholeMilliseconds, MaxReceiveTime, WellFormed, Apply, Enabled, LoopContinues;
    var s0, whole := Init(q0, launch), WholeMilliseconds(c.timeout);
    var limit := launch + 2 * whole;
    RoomForOneRound(c);
    acts, s := OwnAndLeftover(c, q0, launch, whole, limit);
    if s.receiver.Testing? && |s.log| < ExpectedSize(c) {
      StillTime(c, s);
      acts, s := ExpireAll(c, s0, acts, s, limit);
    }
    if s.receiver.Testing? {
      acts, s := EndsByCount(c, s0, acts, s, limit);
    }
  }

  lemma RoomForOneRound(c: Config)
    requires WellFormed(c) && |Probes(c)| >= 1 && c.timeout >= 1000
    ensures ExpectedSize(c) == |Probes(c)|
    ensures 1 <= MaxReceiveTime(c.timeout) == WholeMilliseconds(c.timeout) <= Deadline(c)
    ensures 2 * WholeMilliseconds(c.timeout) - 1 > c.timeout - MIN_TIME_WAIT_FOR_RESPONSE
  {
    ExpectedSizeIsProbeCount(c);
    DeadlineGrows(c, 1);
    hide Deadline, ExpectedSize, Probes;
  }

  /** The loop test when the count is full. */
  lemma EndsByCount(c: Config, s0: State, acts: seq<Action>, s: State, limit: int) returns (more: seq<Action>, t: State)
    requires Reaches(c, s0, acts, s, limit) && s.receiver.Testing? && |s.log| >= ExpectedSize(c)
    ensures Reaches(c, s0, more, t, limit) && t == s.(receiver := Exited)
  {
    ReachesOnSchedule(c, s0, acts, s, limit);
    hide ExpectedSize, Deadline, Reaches, Probes;
    Extend(c, s0, acts, s, Test, limit);
    more, t := acts + [Test], Apply(c, s, Test);
  }

  /** Exits by count are clean exactly when nothing was queued at the start, or there is nothing to count or no time to. */
  lemma CleanExitsExactly(c: Config, q0: seq<Pending>, launch: int)
    requires WellFormed(c) && forall p :: p in q0 ==> p.sentAt <= launch
    ensures CleanExits(c, q0, launch) <==> q0 == [] || c.timeout < 1000 || Probes(c) == []
  {
    ExpectedSizeIsProbeCount(c);
    hide ExpectedSize, Probes, WellFormed, Exec;
    if q0 != [] && c.timeout >= 1000 && Probes(c) != [] {
      var acts, s := LeftoverEndsRun(c, q0, launch);
    } else {
      forall acts, s | Exec(c, Init(q0, launch), acts) == Some(s) && s.receiver.Exited? && |s.log| >= ExpectedSize(c)
        ensures s.registered == |Probes(c)| && multiset(Probes(c)) <= multiset(LogLabels(s.log))
      {
        RunConservesFrom(c, q0, launch, acts, s);
        if c.timeout < 1000 {
          NoResultsBelowOneMillisecond(c, q0, launch, acts, s);
        } else if q0 == [] {
          ExitByCountIsClean(c, launch, acts, s);
        }
      }
    }
  }
}
