/**
 What the results of a run mean, in terms of what happened in it: which reply and
 which clock readings every result comes from, when the probe it belongs to was
 registered, when the loop goes on, and what the sender does. The statements speak
 of the actions of the run and the states between them only.
 */
module FastMeaning {
  import opened ProbeResults
  import opened Validators
  import opened FastMachine

  // ----- The search for the probe a response belongs to -----

  /** All pending probes before the `i`-th reject the response, and that one does not. */
  predicate FirstNotRejecting(c: Config, q: seq<Pending>, r: Response, i: nat) {
    i < |q| && c.valid(q[i].packet, r) != Rejected && forall j :: 0 <= j < i ==> c.valid(q[j].packet, r) == Rejected
  }

  /** It finds the first probe that does not reject, throws if that one throws, and finds none if all reject. */
  lemma {:induction false} SearchMeaning(c: Config, q: seq<Pending>, r: Response)
    ensures match FirstMatch(c.valid, q, r)
            case Found(i) => FirstNotRejecting(c, q, r, i) && c.valid(q[i].packet, r) == Accepted
            case MatchThrew => exists i: nat :: FirstNotRejecting(c, q, r, i) && c.valid(q[i].packet, r) == Threw
            case NotFound => forall j :: 0 <= j < |q| ==> c.valid(q[j].packet, r) == Rejected
    decreases q
  {
    if q != [] {
      if c.valid(q[0].packet, r) == Rejected {
        SearchMeaning(c, q[1..], r);
        SearchInTail(c, q, r);
        if FirstMatch(c.valid, q[1..], r).MatchThrew? {
          var i: nat :| FirstNotRejecting(c, q[1..], r, i) && c.valid(q[1..][i].packet, r) == Threw;
          assert FirstNotRejecting(c, q, r, i + 1) && q[i + 1] == q[1..][i];
        }
        assert forall j :: 0 < j < |q| ==> q[j] == q[1..][j - 1];
      } else {
        assert FirstNotRejecting(c, q, r, 0);
      }
    }
  }

  lemma SearchInTail(c: Config, q: seq<Pending>, r: Response)
    requires q != [] && c.valid(q[0].packet, r) == Rejected
    ensures forall i: nat :: FirstNotRejecting(c, q[1..], r, i) ==> FirstNotRejecting(c, q, r, i + 1)
  {
    forall i: nat | FirstNotRejecting(c, q[1..], r, i) ensures FirstNotRejecting(c, q, r, i + 1) {
      forall j | 0 <= j < i + 1 ensures c.valid(q[j].packet, r) == Rejected {
        if j > 0 {
          assert q[j] == q[1..][j - 1];
        }
      }
    }
  }

  lemma OneFirst(c: Config, q: seq<Pending>, r: Response, i: nat, j: nat)
    requires FirstNotRejecting(c, q, r, i) && FirstNotRejecting(c, q, r, j)
    ensures i == j
  {
  }

  // ----- One lock region -----

  /** What the search leaves to be swept: all, or all but the first probe that does not reject, if that accepts. */
  ghost predicate LeftToSweep(c: Config, q: seq<Pending>, response: Option<Response>, rest: seq<Pending>) {
    if response.None? || forall j :: 0 <= j < |q| ==> c.valid(q[j].packet, response.value) == Rejected then rest == q
    else
      exists i: nat :: FirstNotRejecting(c, q, response.value, i) && c.valid(q[i].packet, response.value) == Accepted
                  && rest == q[..i] + q[i + 1..]
  }

  /** A success: the time from the registration of the probe to its reply, and the sender of the reply. */
  ghost predicate ReportsSuccess(c: Config, q: seq<Pending>, a: Action, e: Resolved)
    requires a.Process?
  {
    a.response.Some? &&
    exists i: nat :: FirstNotRejecting(c, q, a.response.value, i) && c.valid(q[i].packet, a.response.value) == Accepted
                && e == Resolved(q[i].probe, ProbeResult(true, a.matchedAt - q[i].sentAt, Some(a.response.value.info.client)))
  }

  /** A failure: less than 10 microseconds left at the first reading, the time passed at the second. */
  ghost predicate ReportsFailure(c: Config, q: seq<Pending>, a: Action, e: Resolved)
    requires a.Process?
  {
    exists rest: seq<Pending>, i: nat :: LeftToSweep(c, q, a.response, rest) && 0 <= i < |rest| == |a.readings|
      && a.readings[i].decide - rest[i].sentAt > c.timeout - 10
      && e == Resolved(rest[i].probe, ProbeResult(false, a.readings[i].report - rest[i].sentAt, None))
  }

  ghost predicate Reports(c: Config, q: seq<Pending>, a: Action, e: Resolved)
    requires a.Process?
  {
    ReportsSuccess(c, q, a, e) || ReportsFailure(c, q, a, e)
  }

  /** Spared: at least 10 microseconds left. */
  ghost predicate Spares(c: Config, q: seq<Pending>, a: Action, p: Pending)
    requires a.Process?
  {
    exists rest: seq<Pending>, i: nat :: LeftToSweep(c, q, a.response, rest) && 0 <= i < |rest| == |a.readings|
      && a.readings[i].decide - rest[i].sentAt <= c.timeout - 10 && p == rest[i]
  }

  lemma {:induction false} SweepMeaning(q: seq<Pending>, readings: seq<Reading>, timeout: nat, p: Pending, e: Resolved)
    requires |q| == |readings|
    ensures p in Kept(q, readings, timeout) <==>
            exists i :: 0 <= i < |q| && readings[i].decide - q[i].sentAt <= timeout - 10 && p == q[i]
    ensures e in Swept(q, readings, timeout) <==>
            exists i :: 0 <= i < |q| && readings[i].decide - q[i].sentAt > timeout - 10
                        && e == Resolved(q[i].probe, ProbeResult(false, readings[i].report - q[i].sentAt, None))
    decreases q
  {
    if q != [] {
      SweepMeaning(q[1..], readings[1..], timeout, p, e);
      assert forall i :: 0 < i < |q| ==> q[i] == q[1..][i - 1] && readings[i] == readings[1..][i - 1];
      assert forall i :: 0 <= i < |q| - 1 ==> q[1..][i] == q[i + 1] && readings[1..][i] == readings[i + 1];
      var failure := Resolved(q[0].probe, ProbeResult(false, readings[0].report - q[0].sentAt, None));
      assert Expired(q[0], readings[0].decide, timeout) <==> readings[0].decide - q[0].sentAt > timeout - 10;
    }
  }

  /** Validation throws on the response before any pending probe accepts it. */
  ghost predicate ThrowsOn(c: Config, q: seq<Pending>, response: Option<Response>) {
    response.Some? && exists i: nat :: FirstNotRejecting(c, q, response.value, i) && c.valid(q[i].packet, response.value) == Threw
  }

  lemma MatchMeaning(c: Config, q: seq<Pending>, response: Option<Response>)
    ensures ThrowsOn(c, q, response) <==> MatchOf(c, q, response).MatchThrew?
    ensures forall rest :: LeftToSweep(c, q, response, rest) <==> !ThrowsOn(c, q, response) && rest == AfterMatch(c, q, response)
  {
    if response.Some? {
      SearchMeaning(c, q, response.value);
      forall i: nat, j: nat | FirstNotRejecting(c, q, response.value, i) && FirstNotRejecting(c, q, response.value, j) ensures i == j {
        OneFirst(c, q, response.value, i, j);
      }
    }
  }

  lemma MatchedMeaning(c: Config, q: seq<Pending>, a: Action, e: Resolved)
    requires a.Process?
    ensures e in Matched(c, q, a.response, a.matchedAt) <==> ReportsSuccess(c, q, a, e)
  {
    if a.response.Some? {
      SearchMeaning(c, q, a.response.value);
      forall i: nat, j: nat | FirstNotRejecting(c, q, a.response.value, i) && FirstNotRejecting(c, q, a.response.value, j) ensures i == j {
        OneFirst(c, q, a.response.value, i, j);
      }
    }
  }

  lemma NoSuccessWhenThrown(c: Config, q: seq<Pending>, a: Action, e: Resolved)
    requires a.Process? && ThrowsOn(c, q, a.response)
    ensures !Reports(c, q, a, e)
  {
    MatchMeaning(c, q, a.response);
    MatchedMeaning(c, q, a, e);
  }

  /** The lock region adds to the log exactly the results described, and nothing when validation throws. */
  lemma RegionReports(c: Config, s: State, a: Action, e: Resolved)
    requires a.Process? && Enabled(c, s, a)
    ensures e in Apply(c, s, a).log <==> e in s.log || Reports(c, s.pending, a, e)
    ensures Apply(c, s, a).receiver == if ThrowsOn(c, s.pending, a.response) then Failed else Testing
  {
    MatchMeaning(c, s.pending, a.response);
    if ThrowsOn(c, s.pending, a.response) {
      NoSuccessWhenThrown(c, s.pending, a, e);
    } else {
      var rest := AfterMatch(c, s.pending, a.response);
      MatchedMeaning(c, s.pending, a, e);
      FailuresMeaning(c, s.pending, a, e, rest);
      hide MatchOf, AfterMatch, Matched, Kept, Swept, LeftToSweep, ReportsSuccess, ReportsFailure, ThrowsOn, Chronological;
    }
  }

  lemma FailuresMeaning(c: Config, q: seq<Pending>, a: Action, e: Resolved, rest: seq<Pending>)
    requires a.Process? && |rest| == |a.readings|
    requires forall other :: LeftToSweep(c, q, a.response, other) <==> other == rest
    ensures ReportsFailure(c, q, a, e) <==> e in Swept(rest, a.readings, c.timeout)
  {
    if rest != [] {
      SweepMeaning(rest, a.readings, c.timeout, rest[0], e);
    }
    hide Swept, LeftToSweep;
  }

  /** It leaves pending exactly the probes described, and all of them when validation throws. */
  lemma RegionLeaves(c: Config, s: State, a: Action, p: Pending)
    requires a.Process? && Enabled(c, s, a)
    ensures p in Apply(c, s, a).pending <==> if ThrowsOn(c, s.pending, a.response) then p in s.pending else Spares(c, s.pending, a, p)
  {
    MatchMeaning(c, s.pending, a.response);
    if !ThrowsOn(c, s.pending, a.response) {
      var rest := AfterMatch(c, s.pending, a.response);
      var e := Resolved(p.probe, FailedProbe(0));
      SweepMeaning(rest, a.readings, c.timeout, p, e);
      hide MatchOf, AfterMatch, Kept, Swept, LeftToSweep, ThrowsOn, Chronological;
    }
  }

  // ----- Every result of a run -----

  /** The `k`-th action of the run is a lock region that reports `e`. */
  ghost predicate ReportedAt(c: Config, s0: State, acts: seq<Action>, e: Resolved, k: nat) {
    && k < |acts| && acts[k].Process?
    && var at := Exec(c, s0, acts[..k]);
       at.Some? && Reports(c, at.value.pending, acts[k], e)
  }

  ghost predicate Reported(c: Config, s0: State, acts: seq<Action>, e: Resolved) {
    exists k: nat :: ReportedAt(c, s0, acts, e, k)
  }

  /** The results of a run, from any state without results, are exactly those its lock regions report. */
  lemma {:induction false} LogExactly(c: Config, s0: State, acts: seq<Action>, s: State, e: Resolved)
    requires Exec(c, s0, acts) == Some(s) && s0.log == []
    ensures e in s.log <==> Reported(c, s0, acts, e)
    decreases |acts|
  {
    if acts != [] {
      var n := |acts| - 1;
      var before := Exec(c, s0, acts[..n]).value;
      LogExactly(c, s0, acts[..n], before, e);
      ReportedEarlier(c, s0, acts, e, n);
      if acts[n].Process? {
        RegionReports(c, before, acts[n], e);
      }
      hide Reports, Reported;
    }
  }

  lemma ReportedEarlier(c: Config, s0: State, acts: seq<Action>, e: Resolved, n: nat)
    requires |acts| == n + 1
    ensures Reported(c, s0, acts, e) <==> Reported(c, s0, acts[..n], e) || ReportedAt(c, s0, acts, e, n)
  {
    hide Exec, Reports;
    forall k: nat | k < n ensures ReportedAt(c, s0, acts, e, k) <==> ReportedAt(c, s0, acts[..n], e, k) {
      assert acts[..n][..k] == acts[..k];
    }
  }

  // ----- Where pending probes come from -----

  function Registers(acts: seq<Action>): nat {
    if acts == [] then 0 else Registers(acts[..|acts| - 1]) + if acts[|acts| - 1] == Register then 1 else 0
  }

  /** The `m`-th action registers `p`: the next probe of the schedule, with its packet and the time on the clock. */
  predicate RegisteredAt(c: Config, s0: State, acts: seq<Action>, p: Pending, m: nat) {
    && m < |acts| && acts[m] == Register
    && var at := Exec(c, s0, acts[..m]);
       var n := Registers(acts[..m]);
       at.Some? && n < |Probes(c)| && p == Pending(c.packetFor(Probes(c)[n]), at.value.clock, Probes(c)[n])
  }

  lemma {:induction false} RegistersCounted(c: Config, s0: State, acts: seq<Action>, s: State)
    requires Exec(c, s0, acts) == Some(s)
    ensures s.registered == s0.registered + Registers(acts)
    decreases |acts|
  {
    if acts != [] {
      var n := |acts| - 1;
      RegistersCounted(c, s0, acts[..n], Exec(c, s0, acts[..n]).value);
      hide Probes, Kept, Swept, Matched, AfterMatch, MatchOf, Chronological;
    }
  }

  lemma SparedWasPending(c: Config, q: seq<Pending>, a: Action, p: Pending)
    requires a.Process? && Spares(c, q, a, p)
    ensures p in q
  {
  }

  /** Every pending probe was in the queue at the start or has been registered by the run. */
  lemma {:induction false} PendingOrigin(c: Config, s0: State, acts: seq<Action>, s: State, p: Pending)
    returns (m: nat)
    requires Exec(c, s0, acts) == Some(s) && s0.registered == 0 && p in s.pending
    ensures p in s0.pending || RegisteredAt(c, s0, acts, p, m)
    decreases |acts|
  {
    m := 0;
    if acts != [] {
      var n := |acts| - 1;
      var before := Exec(c, s0, acts[..n]).value;
      if acts[n].Process? {
        RegionLeaves(c, before, acts[n], p);
        if !ThrowsOn(c, before.pending, acts[n].response) {
          SparedWasPending(c, before.pending, acts[n], p);
        }
      }
      RegistersCounted(c, s0, acts[..n], before);
      hide ThrowsOn, Spares, Kept, Swept, Matched, AfterMatch, MatchOf, Chronological, Probes;
      if p in before.pending {
        m := PendingOrigin(c, s0, acts[..n], before, p);
        if p !in s0.pending {
          assert acts[..n][..m] == acts[..m];
        }
      } else {
        m := n;
      }
    }
  }

  /**
   Every success of every run, from any queue: at some lock region its probe was pending
   and accepted the response; the result reports the sender of that response and the
   time from the registration of the probe, or its registration in an earlier run, to
   the clock reading made after the match.
   */
  lemma SuccessMeaning(c: Config, q0: seq<Pending>, launch: int, acts: seq<Action>, s: State, e: Resolved)
    returns (k: nat, p: Pending, m: nat)
    requires Exec(c, Init(q0, launch), acts) == Some(s) && e in s.log && e.result.success
    ensures k < |acts| && acts[k].Process? && acts[k].response.Some? && Exec(c, Init(q0, launch), acts[..k]).Some?
    ensures p in Exec(c, Init(q0, launch), acts[..k]).value.pending && p.probe == e.probe
    ensures c.valid(p.packet, acts[k].response.value) == Accepted
    ensures e.result.waitedFor == acts[k].matchedAt - p.sentAt
    ensures e.result.responseSender == Some(acts[k].response.value.info.client)
    ensures p in q0 || (m < k && RegisteredAt(c, Init(q0, launch), acts, p, m))
  {
    var s0 := Init(q0, launch);
    LogExactly(c, s0, acts, s, e);
    k :| ReportedAt(c, s0, acts, e, k);
    var q := Exec(c, s0, acts[..k]).value.pending;
    assert ReportsSuccess(c, q, acts[k], e);
    hide Exec, ReportsFailure;
    var i: nat :| FirstNotRejecting(c, q, acts[k].response.value, i) && c.valid(q[i].packet, acts[k].response.value) == Accepted
                  && e == Resolved(q[i].probe, ProbeResult(true, acts[k].matchedAt - q[i].sentAt, Some(acts[k].response.value.info.client)));
    p := q[i];
    m := OriginBefore(c, q0, launch, acts, k, p);
  }

  lemma OriginBefore(c: Config, q0: seq<Pending>, launch: int, acts: seq<Action>, k: nat, p: Pending) returns (m: nat)
    requires k <= |acts| && Exec(c, Init(q0, launch), acts[..k]).Some?
    requires p in Exec(c, Init(q0, launch), acts[..k]).value.pending
    ensures p in q0 || (m < k && RegisteredAt(c, Init(q0, launch), acts, p, m))
  {
    m := PendingOrigin(c, Init(q0, launch), acts[..k], Exec(c, Init(q0, launch), acts[..k]).value, p);
    if p !in q0 {
      assert acts[..k][..m] == acts[..m];
    }
  }

  /** Likewise every failure: its probe was pending, one clock reading left it less than 10 microseconds, the next is reported. */
  lemma FailureMeaning(c: Config, q0: seq<Pending>, launch: int, acts: seq<Action>, s: State, e: Resolved)
    returns (k: nat, p: Pending, m: nat, r: Reading)
    requires Exec(c, Init(q0, launch), acts) == Some(s) && e in s.log && !e.result.success
    ensures k < |acts| && acts[k].Process? && Exec(c, Init(q0, launch), acts[..k]).Some?
    ensures p in Exec(c, Init(q0, launch), acts[..k]).value.pending && p.probe == e.probe
    ensures r in acts[k].readings && r.decide - p.sentAt > c.timeout - 10
    ensures e.result == ProbeResult(false, r.report - p.sentAt, None)
    ensures p in q0 || (m < k && RegisteredAt(c, Init(q0, launch), acts, p, m))
  {
    var s0 := Init(q0, launch);
    LogExactly(c, s0, acts, s, e);
    k :| ReportedAt(c, s0, acts, e, k);
    var q, a := Exec(c, s0, acts[..k]).value.pending, acts[k];
    assert ReportsFailure(c, q, a, e);
    hide Exec, ReportsSuccess, ReportsFailure;
    p, r := FailureWitness(c, q, a, e);
    m := OriginBefore(c, q0, launch, acts, k, p);
  }

  lemma FailureWitness(c: Config, q: seq<Pending>, a: Action, e: Resolved) returns (p: Pending, r: Reading)
    requires a.Process? && ReportsFailure(c, q, a, e)
    ensures p in q && p.probe == e.probe && r in a.readings && r.decide - p.sentAt > c.timeout - 10
    ensures e.result == ProbeResult(false, r.report - p.sentAt, None)
  {
    var rest: seq<Pending>, i: nat :| LeftToSweep(c, q, a.response, rest) && 0 <= i < |rest| == |a.readings|
      && a.readings[i].decide - rest[i].sentAt > c.timeout - 10
      && e == Resolved(rest[i].probe, ProbeResult(false, a.readings[i].report - rest[i].sentAt, None));
    p, r := rest[i], a.readings[i];
    LeftIsPart(c, q, a.response, rest, p);
  }

  lemma LeftIsPart(c: Config, q: seq<Pending>, response: Option<Response>, rest: seq<Pending>, p: Pending)
    requires LeftToSweep(c, q, response, rest) && p in rest
    ensures p in q
  {
  }

  // ----- The loop -----

  /** The start time is the clock at the one `Begin`. */
  lemma {:induction false} BeginMeaning(c: Config, s0: State, acts: seq<Action>, s: State) returns (k: nat)
    requires Exec(c, s0, acts) == Some(s) && s0.receiver.Starting? && !s.receiver.Starting?
    ensures k < |acts| && acts[k] == Begin && Exec(c, s0, acts[..k]).Some?
    ensures s.beginAt == Exec(c, s0, acts[..k]).value.clock
    decreases |acts|
  {
    var n := |acts| - 1;
    var before := Exec(c, s0, acts[..n]).value;
    hide Probes, Kept, Swept, Matched, AfterMatch, MatchOf, Chronological;
    if before.receiver.Starting? {
      k := n;
    } else {
      k := BeginMeaning(c, s0, acts[..n], before);
      assert acts[..n][..k] == acts[..k];
    }
  }

  /**
   The loop test: the receiver goes on to receive if and only if fewer results than
   probes have been made and less time has passed since the start than the number of
   probes times the whole milliseconds of the timeout; otherwise it is done.
   */
  lemma TestMeaning(c: Config, s0: State, acts: seq<Action>, k: nat, s: State)
    requires WellFormed(c) && k < |acts| && acts[k] == Test && Exec(c, s0, acts) == Some(s)
    ensures Exec(c, s0, acts[..k]).Some? && Exec(c, s0, acts[..k + 1]).Some?
    ensures var at, next := Exec(c, s0, acts[..k]).value, Exec(c, s0, acts[..k + 1]).value;
            next == at.(receiver := if |at.log| < |Probes(c)| && at.clock - at.beginAt < |Probes(c)| * (c.timeout / 1000 * 1000)
                                    then Receiving(at.clock) else Exited)
  {
    PrefixOfRun(c, s0, acts, k);
    PrefixOfRun(c, s0, acts, k + 1);
    var upTo := acts[..k + 1];
    assert upTo[..k] == acts[..k] && upTo[k] == Test;
    DeadlineMeaning(c);
    hide ExpectedSize, Probes, Deadline, WellFormed;
  }

  lemma DeadlineMeaning(c: Config)
    requires WellFormed(c)
    ensures ExpectedSize(c) == |Probes(c)| && Deadline(c) == |Probes(c)| * (c.timeout / 1000 * 1000)
  {
    ExpectedSizeIsProbeCount(c);
    hide ExpectedSize, Probes, WellFormed;
    Commuted(c.timeout / 1000 * 1000, |Probes(c)|);
  }

  lemma Commuted(x: nat, y: nat)
    ensures x * y == y * x
  {
  }

  // ----- The sender -----

  predicate OfSender(a: Action) {
    a.Send? || a.SendFails? || a.Register?
  }

  function SenderActions(acts: seq<Action>): seq<Action> {
    if acts == [] then []
    else SenderActions(acts[..|acts| - 1]) + if OfSender(acts[|acts| - 1]) then [acts[|acts| - 1]] else []
  }

  function SentAndRegistered(n: nat): seq<Action> {
    if n == 0 then [] else SentAndRegistered(n - 1) + [Send, Register]
  }

  function SenderTail(sender: SenderState): seq<Action> {
    match sender
    case Ready => []
    case InFlight => [Send]
    case Crashed => [SendFails]
  }

  lemma SenderStepShape(c: Config, s: State, a: Action)
    requires Enabled(c, s, a) && OfSender(a)
    ensures var t := Apply(c, s, a);
            SentAndRegistered(s.registered) + SenderTail(s.sender) + [a] == SentAndRegistered(t.registered) + SenderTail(t.sender)
    ensures !Apply(c, s, a).sender.Ready? ==> s.registered == Apply(c, s, a).registered < |Probes(c)|
    ensures Apply(c, s, a).registered <= |Probes(c)|
  {
    hide Probes;
    if a == Register {
      assert SentAndRegistered(s.registered) + [Send] + [Register] == SentAndRegistered(s.registered) + [Send, Register];
    }
  }

  /**
   In every run the sender sends and registers one probe after the other, and may end
   with a probe that has been sent but not yet registered, or with a refused one.
   */
  lemma {:induction false} SenderShape(c: Config, s0: State, acts: seq<Action>, s: State)
    requires Exec(c, s0, acts) == Some(s) && s0.sender.Ready? && s0.registered == 0
    ensures Registers(acts) == s.registered <= |Probes(c)|
    ensures SenderActions(acts) == SentAndRegistered(Registers(acts)) + SenderTail(s.sender)
    ensures !s.sender.Ready? ==> s.registered < |Probes(c)|
    decreases |acts|
  {
    RegistersCounted(c, s0, acts, s);
    if acts != [] {
      var n := |acts| - 1;
      var before := Exec(c, s0, acts[..n]).value;
      SenderShape(c, s0, acts[..n], before);
      hide Probes, Kept, Swept, Matched, AfterMatch, MatchOf, Chronological, SentAndRegistered;
      if OfSender(acts[n]) {
        SenderStepShape(c, before, acts[n]);
      }
    }
  }

  /** A refused send is the sender's last action: nothing is sent or registered after it. */
  lemma {:induction false} NothingAfterRefusal(c: Config, s0: State, acts: seq<Action>, s: State, k: nat)
    requires Exec(c, s0, acts) == Some(s) && k < |acts| && acts[k] == SendFails
    ensures s.sender.Crashed? && forall j :: k < j < |acts| ==> !OfSender(acts[j])
    decreases |acts|
  {
    var n := |acts| - 1;
    var before := Exec(c, s0, acts[..n]).value;
    if k < n {
      NothingAfterRefusal(c, s0, acts[..n], before, k);
      assert forall j :: k < j < n ==> acts[j] == acts[..n][j];
    }
    hide Probes, Kept, Swept, Matched, AfterMatch, MatchOf, Chronological;
  }

  function Sends(acts: seq<Action>): nat {
    if acts == [] then 0 else Sends(acts[..|acts| - 1]) + if acts[|acts| - 1] == Send then 1 else 0
  }

  /** At every point of a run at most as many probes have been registered as sent, and one less only while one is in flight. */
  lemma {:induction false} RegistersFollowSends(c: Config, s0: State, acts: seq<Action>, s: State)
    requires Exec(c, s0, acts) == Some(s) && s0.sender.Ready?
    ensures Sends(acts) == Registers(acts) + if s.sender.InFlight? then 1 else 0
    decreases |acts|
  {
    if acts != [] {
      var n := |acts| - 1;
      RegistersFollowSends(c, s0, acts[..n], Exec(c, s0, acts[..n]).value);
      hide Probes, Kept, Swept, Matched, AfterMatch, MatchOf, Chronological;
    }
  }
}
