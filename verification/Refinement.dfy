/**
 `FastTraceroute` refines `SequentialTraceroute`: on a network with one fixed
 outcome for each probe, every interleaving of the fast engine that leaves its
 loop by count returns the ttls the sequential engine returns, and for each ttl
 the same outcomes, possibly in another order.
 */
module Refinement {
  import opened Headers
  import opened Packets
  import opened ProbeResults
  import opened Schedule
  import opened Validators
  import opened ValidatorProofs
  import opened FastMachine
  import opened FastSafety
  import opened FastRuns
  import opened FastResults
  import opened FastLosses
  import opened SequentialTraceroute

  function Kinds(row: seq<ProbeResult>): seq<Outcome> {
    seq(|row|, i requires 0 <= i < |row| => Kind(row[i]))
  }

  function OutcomesOf(ls: seq<Label>, network: Label -> Outcome): seq<Outcome> {
    seq(|ls|, i requires 0 <= i < |ls| => network(ls[i]))
  }

  /** Equal ttls row by row, and equal multisets of (success, sender). */
  predicate Agree(fast: seq<TracerouteResult>, sequential: seq<TracerouteResult>) {
    && |fast| == |sequential|
    && forall j :: 0 <= j < |fast| ==>
         && fast[j].ttl == sequential[j].ttl
         && multiset(Kinds(fast[j].probeResults)) == multiset(Kinds(sequential[j].probeResults))
  }

  // ----- The network's behaviour in a fast run -----

  /** A response that a pending probe accepts is the reply the network has for that probe, and asking never throws. */
  predicate Honest(c: Config, network: Label -> Outcome, s: State, response: Option<Response>) {
    response.Some? ==>
      forall p :: p in s.pending ==>
        && c.valid(p.packet, response.value) != Threw
        && (c.valid(p.packet, response.value) == Accepted ==> network(p.probe) == Reply(response.value.info.client))
  }

  /** The response is accepted by the pending probe `l` and by no other. */
  predicate DeliversTo(c: Config, s: State, response: Option<Response>, l: Label) {
    && response.Some?
    && (exists p :: p in s.pending && p.probe == l)
    && forall p :: p in s.pending ==> c.valid(p.packet, response.value) == if p.probe == l then Accepted else Rejected
  }

  /** Whatever the receiver takes in during the run is honest. */
  predicate HonestRun(c: Config, network: Label -> Outcome, s0: State, acts: seq<Action>) {
    forall k :: 0 <= k < |acts| && acts[k].Process? ==>
      var at := Exec(c, s0, acts[..k]);
      at.Some? ==> Honest(c, network, at.value, acts[k].response)
  }

  /** During the run, the response to `l` is taken in while its probe is pending. */
  predicate Delivered(c: Config, s0: State, acts: seq<Action>, l: Label) {
    exists k :: 0 <= k < |acts| && acts[k].Process? &&
      var at := Exec(c, s0, acts[..k]);
      at.Some? && DeliversTo(c, at.value, acts[k].response, l)
  }

  // ----- What the log then says -----

  /** Every logged success is the network's reply to that probe. */
  predicate SuccessesTrue(network: Label -> Outcome, log: seq<Resolved>) {
    forall e :: e in log ==>
      if e.result.success then e.result.responseSender.Some? && Kind(e.result) == network(e.probe)
      else e.result.responseSender.None?
  }

  lemma {:induction false} SweptAreFailures(q: seq<Pending>, readings: seq<Reading>, timeout: nat)
    requires |q| == |readings|
    ensures forall e :: e in Swept(q, readings, timeout) ==> !e.result.success && e.result.responseSender.None?
    decreases q
  {
    if q != [] {
      SweptAreFailures(q[1..], readings[1..], timeout);
    }
  }

  lemma {:induction false} FoundIsAccepted(valid: (Packet, Response) -> Verdict, q: seq<Pending>, r: Response)
    ensures FirstMatch(valid, q, r).Found? ==> valid(q[FirstMatch(valid, q, r).index].packet, r) == Accepted
    decreases q
  {
    if q != [] && valid(q[0].packet, r) == Rejected {
      FoundIsAccepted(valid, q[1..], r);
    }
  }

  /** If one pending probe alone accepts, `find_if` finds it wherever it stands in the queue. */
  lemma {:induction false} SoleAcceptorFound(valid: (Packet, Response) -> Verdict, q: seq<Pending>, r: Response, l: Label)
    requires exists p :: p in q && p.probe == l
    requires forall p :: p in q ==> valid(p.packet, r) == if p.probe == l then Accepted else Rejected
    ensures FirstMatch(valid, q, r).Found? && q[FirstMatch(valid, q, r).index].probe == l
    decreases q
  {
    if q[0].probe != l {
      assert valid(q[0].packet, r) == Rejected;
      var p :| p in q && p.probe == l;
      assert p in q[1..];
      SoleAcceptorFound(valid, q[1..], r, l);
    }
  }

  lemma ProcessTrue(c: Config, network: Label -> Outcome, s: State, a: Action)
    requires a.Process? && Enabled(c, s, a)
    requires Honest(c, network, s, a.response) && SuccessesTrue(network, s.log)
    ensures SuccessesTrue(network, Apply(c, s, a).log)
  {
    var m := MatchOf(c, s.pending, a.response);
    if !m.MatchThrew? {
      var q := AfterMatch(c, s.pending, a.response);
      SweptAreFailures(q, a.readings, c.timeout);
      if m.Found? {
        FoundIsAccepted(c.valid, s.pending, a.response.value);
        assert s.pending[m.index] in s.pending;
      }
    }
  }

  lemma {:induction false} RunTrue(c: Config, network: Label -> Outcome, launch: int, acts: seq<Action>, s: State)
    requires Exec(c, Init([], launch), acts) == Some(s)
    requires HonestRun(c, network, Init([], launch), acts)
    ensures SuccessesTrue(network, s.log)
    decreases |acts|
  {
    if acts != [] {
      var n, s0 := |acts| - 1, Init([], launch);
      var before := Exec(c, s0, acts[..n]).value;
      assert HonestRun(c, network, s0, acts[..n]) by {
        forall k | 0 <= k < n && acts[..n][k].Process? && Exec(c, s0, acts[..n][..k]).Some?
          ensures Honest(c, network, Exec(c, s0, acts[..n][..k]).value, acts[..n][k].response)
        {
          assert acts[..n][..k] == acts[..k] && acts[..n][k] == acts[k];
        }
      }
      RunTrue(c, network, launch, acts[..n], before);
      if acts[n].Process? {
        ProcessTrue(c, network, before, acts[n]);
      }
    }
  }

  /** A delivery is logged as a success, and the log only grows. */
  lemma DeliveryLogged(c: Config, s: State, a: Action, l: Label)
    requires a.Process? && Enabled(c, s, a) && DeliversTo(c, s, a.response, l)
    ensures exists e :: e in Apply(c, s, a).log && e.probe == l && e.result.success
  {
    SoleAcceptorFound(c.valid, s.pending, a.response.value, l);
    var i := MatchOf(c, s.pending, a.response).index;
    var e := Resolved(l, SuccessProbe(TimePassed(a.matchedAt, s.pending[i].sentAt), a.response.value.info.client));
    assert e in Matched(c, s.pending, a.response, a.matchedAt);
    assert e in Apply(c, s, a).log;
  }

  lemma {:induction false} LogGrows(c: Config, s0: State, acts: seq<Action>, k: nat, s: State)
    requires k <= |acts| && Exec(c, s0, acts) == Some(s)
    ensures Exec(c, s0, acts[..k]).Some? && Exec(c, s0, acts[..k]).value.log <= s.log
    decreases |acts|
  {
    if k == |acts| {
      assert acts[..k] == acts;
    } else {
      var n := |acts| - 1;
      assert acts[..n][..k] == acts[..k];
      LogGrows(c, s0, acts[..n], k, Exec(c, s0, acts[..n]).value);
    }
  }

  lemma DeliveredSucceeds(c: Config, launch: int, acts: seq<Action>, s: State, l: Label)
    requires Exec(c, Init([], launch), acts) == Some(s)
    requires Delivered(c, Init([], launch), acts, l)
    ensures exists e :: e in s.log && e.probe == l && e.result.success
  {
    hide DeliversTo, Enabled, Apply;
    var s0 := Init([], launch);
    var k :| 0 <= k < |acts| && acts[k].Process? &&
      var at := Exec(c, s0, acts[..k]);
      at.Some? && DeliversTo(c, at.value, acts[k].response, l);
    var at := Exec(c, s0, acts[..k]).value;
    var upTo := acts[..k + 1];
    assert upTo[..k] == acts[..k] && upTo[k] == acts[k];
    LogGrows(c, s0, acts, k + 1, s);
    assert Enabled(c, at, acts[k]) && Exec(c, s0, upTo) == Some(Apply(c, at, acts[k]));
    hide Exec;
    DeliveryLogged(c, at, acts[k], l);
  }

  /** Two log entries for one probe would be one too many. */
  lemma OneEntryPerProbe(log: seq<Resolved>, d: Resolved, e: Resolved)
    requires d in log && e in log && d.probe == e.probe
    requires multiset(LogLabels(log))[d.probe] <= 1
    ensures d == e
  {
    var i :| 0 <= i < |log| && log[i] == d;
    var j :| 0 <= j < |log| && log[j] == e;
    var ls := LogLabels(log);
    assert ls[i] == ls[j] == d.probe;
    if i < j {
      CountedTwice(ls, i, j);
    } else if j < i {
      CountedTwice(ls, j, i);
    }
  }

  lemma CountedTwice(ls: seq<Label>, i: nat, j: nat)
    requires i < j < |ls| && ls[i] == ls[j]
    ensures multiset(ls)[ls[i]] >= 2
  {
    assert ls == ls[..i] + [ls[i]] + ls[i + 1..j] + [ls[j]] + ls[j + 1..];
  }

  /** So in the end every logged kind is the network's outcome for that probe. */
  lemma LogIsTrue(c: Config, network: Label -> Outcome, launch: int, acts: seq<Action>, s: State)
    requires Exec(c, Init([], launch), acts) == Some(s)
    requires HonestRun(c, network, Init([], launch), acts)
    requires forall l :: l in Probes(c) && network(l).Reply? ==> Delivered(c, Init([], launch), acts, l)
    ensures SuccessesTrue(network, s.log)
    ensures forall e :: e in s.log ==> Kind(e.result) == network(e.probe)
  {
    hide Exec, HonestRun, Delivered;
    RunTrue(c, network, launch, acts, s);
    forall e | e in s.log ensures Kind(e.result) == network(e.probe) {
      var i :| 0 <= i < |s.log| && s.log[i] == e;
      assert LogLabels(s.log)[i] == e.probe;
      ResolvedAtMostOnce(c, launch, acts, s, e.probe);
      if !e.result.success && network(e.probe).Reply? {
        DeliveredSucceeds(c, launch, acts, s, e.probe);
        var d :| d in s.log && d.probe == e.probe && d.result.success;
        OneEntryPerProbe(s.log, d, e);
      }
    }
  }

  // ----- From the log to rows -----

  lemma {:induction false} KindsOfRow(log: seq<Resolved>, network: Label -> Outcome, ttl: nat)
    requires forall e :: e in log ==> Kind(e.result) == network(e.probe)
    ensures Kinds(ResultsFor(log, ttl)) == OutcomesOf(ForTtl(LogLabels(log), ttl), network)
    decreases |log|
  {
    if log != [] {
      var n := |log| - 1;
      KindsOfRow(log[..n], network, ttl);
      assert LogLabels(log) == LogLabels(log[..n]) + [log[n].probe];
      ForTtlOfConcatenation(LogLabels(log[..n]), [log[n].probe], ttl);
      assert log[n] in log;
      var front, last := ForTtl(LogLabels(log[..n]), ttl), ForTtl([log[n].probe], ttl);
      assert last == if log[n].probe.ttl == ttl then [log[n].probe] else [];
      assert OutcomesOf(front + last, network) == OutcomesOf(front, network) + OutcomesOf(last, network);
    }
  }

  /** Outcomes of permuted labels are permuted outcomes. */
  lemma {:induction false} OutcomesOfPermutation(a: seq<Label>, b: seq<Label>, network: Label -> Outcome)
    requires multiset(a) == multiset(b)
    ensures multiset(OutcomesOf(a, network)) == multiset(OutcomesOf(b, network))
    decreases |a|
  {
    if a == [] {
      assert b == [] by {
        assert |b| == |multiset(b)| == 0;
      }
    } else {
      assert a[0] in multiset(b);
      var i :| 0 <= i < |b| && b[i] == a[0];
      var rest := b[..i] + b[i + 1..];
      assert a == a[..0] + [a[0]] + a[1..] && a[..0] + a[1..] == a[1..];
      TakeOneOut(a, 0, network);
      TakeOneOut(b, i, network);
      OutcomesOfPermutation(a[1..], rest, network);
    }
  }

  lemma TakeOneOut(b: seq<Label>, i: nat, network: Label -> Outcome)
    requires i < |b|
    ensures multiset(b[..i] + b[i + 1..]) == multiset(b) - multiset{b[i]}
    ensures multiset(OutcomesOf(b, network)) == multiset(OutcomesOf(b[..i] + b[i + 1..], network)) + multiset{network(b[i])}
  {
    assert b == b[..i] + [b[i]] + b[i + 1..];
    var front, back := OutcomesOf(b[..i], network), OutcomesOf(b[i + 1..], network);
    assert OutcomesOf(b, network) == front + [network(b[i])] + back;
    assert OutcomesOf(b[..i] + b[i + 1..], network) == front + back;
  }

  /** Whether a row has a reply from the destination depends on its kinds only. */
  lemma RepliedFromKinds(row: seq<ProbeResult>, destination: SocketAddress)
    requires forall r :: r in row ==> (r.responseSender.Some? ==> r.success)
    ensures RepliedFrom(row, destination) <==> Reply(destination) in multiset(Kinds(row))
  {
    if RepliedFrom(row, destination) {
      var r :| r in row && r.responseSender == Some(destination);
      var i :| 0 <= i < |row| && row[i] == r;
      assert Kinds(row)[i] == Reply(destination);
    }
    if Reply(destination) in multiset(Kinds(row)) {
      var i :| 0 <= i < |Kinds(row)| && Kinds(row)[i] == Reply(destination);
      assert row[i] in row && row[i].responseSender == Some(destination);
    }
  }

  lemma {:induction false} SendersOfRow(log: seq<Resolved>, ttl: nat)
    requires forall e :: e in log ==> (e.result.responseSender.Some? ==> e.result.success)
    ensures forall r :: r in ResultsFor(log, ttl) ==> (r.responseSender.Some? ==> r.success)
    decreases |log|
  {
    if log != [] {
      SendersOfRow(log[..|log| - 1], ttl);
      assert log[|log| - 1] in log;
    }
  }

  /** The row of one ttl in a complete and true log: the network's outcomes for that ttl, in some order. */
  lemma RowIsTrue(c: Config, network: Label -> Outcome, log: seq<Resolved>, ttl: nat)
    requires multiset(LogLabels(log)) == multiset(Probes(c)) && c.ttlBegin <= ttl <= c.ttlEnd
    requires forall e :: e in log ==> Kind(e.result) == network(e.probe)
    ensures multiset(Kinds(ResultsFor(log, ttl))) == multiset(OutcomesOf(Row(ttl, c.retries), network))
  {
    KindsOfRow(log, network, ttl);
    ForTtlOfPermutation(LogLabels(log), Probes(c), ttl);
    ForTtlOfSchedule(c.ttlBegin, c.ttlEnd, c.retries, ttl);
    OutcomesOfPermutation(ForTtl(LogLabels(log), ttl), ForTtl(Probes(c), ttl), network);
  }

  // ----- The theorem -----

  /** A sequential result as `BeginProbing` promises it, with what was heard for each of the probes made. */
  ghost predicate SequentialResult(c: Config, rs: seq<TracerouteResult>, heard: Heard) {
    && rs != [] && SequentialShape(c.ttlBegin, c.ttlEnd, c.retries, c.destination, rs)
    && (forall j :: 0 <= j < |rs| ==> RowHeard(rs[j], heard, c.timeout, c.valid, c.packetFor))
    && (forall l :: l in heard <==> l in Labels(c.ttlBegin, c.ttlBegin + |rs| - 1, c.retries))
  }

  /**
   The network answers the sequential engine as it answers the fast one: what a probe
   accepts is the reply the network has for it, and that reply is heard if there is one.
   */
  predicate SequentialHonest(c: Config, network: Label -> Outcome, heard: Heard) {
    forall l :: l in heard ==> HonestWait(c.valid, c.packetFor(l), heard[l].attempts, network(l))
  }

  predicate HonestWait(valid: (Packet, Response) -> Verdict, p: Packet, attempts: seq<Attempt>, outcome: Outcome) {
    && (forall i :: 0 <= i < |attempts| && Accepts(valid, p, attempts[i]) ==> outcome == Reply(attempts[i].response.value.info.client))
    && (outcome.Reply? ==> exists i :: 0 <= i < |attempts| && Accepts(valid, p, attempts[i]))
  }

  ghost predicate SequentialOn(c: Config, network: Label -> Outcome, rs: seq<TracerouteResult>, heard: Heard) {
    SequentialResult(c, rs, heard) && SequentialHonest(c, network, heard)
  }

  /** Then the outcome of the attempts is the network's. */
  lemma {:induction false} HonestOutcome(valid: (Packet, Response) -> Verdict, p: Packet, attempts: seq<Attempt>, outcome: Outcome)
    requires HonestWait(valid, p, attempts, outcome)
    ensures OutcomeOf(valid, p, attempts) == outcome
    decreases attempts
  {
    if attempts != [] && !Accepts(valid, p, attempts[0]) {
      if outcome.Reply? {
        var i :| 0 <= i < |attempts| && Accepts(valid, p, attempts[i]);
        assert attempts[1..][i - 1] == attempts[i];
      }
      assert forall i :: 0 <= i < |attempts| - 1 ==> attempts[1..][i] == attempts[i + 1];
      HonestOutcome(valid, p, attempts[1..], outcome);
    }
  }

  lemma SequentialRow(c: Config, network: Label -> Outcome, rs: seq<TracerouteResult>, heard: Heard, j: nat)
    requires SequentialOn(c, network, rs, heard) && j < |rs|
    ensures rs[j].ttl == c.ttlBegin + j
    ensures Kinds(rs[j].probeResults) == OutcomesOf(Row(c.ttlBegin + j, c.retries), network)
    ensures forall r :: r in rs[j].probeResults ==> (r.responseSender.Some? ==> r.success)
  {
    var row, ls := rs[j], Row(c.ttlBegin + j, c.retries);
    assert RowHeard(row, heard, c.timeout, c.valid, c.packetFor);
    hide Waited, ResultOf;
    forall i | 0 <= i < c.retries ensures Kind(row.probeResults[i]) == network(ls[i]) {
      var l := Label(row.ttl, i);
      assert ls[i] == l && l in heard;
      HonestOutcome(c.valid, c.packetFor(l), heard[l].attempts, network(l));
      ResultMeaning(c.valid, c.packetFor(l), c.timeout, heard[l]);
    }
    forall r | r in row.probeResults ensures r.responseSender.Some? ==> r.success {
      var i :| 0 <= i < |row.probeResults| && row.probeResults[i] == r;
      ResultMeaning(c.valid, c.packetFor(Label(row.ttl, i)), c.timeout, heard[Label(row.ttl, i)]);
    }
  }

  lemma ShapeOf(c: Config, network: Label -> Outcome, rs: seq<TracerouteResult>, heard: Heard)
    requires SequentialOn(c, network, rs, heard)
    ensures SequentialShape(c.ttlBegin, c.ttlEnd, c.retries, c.destination, rs)
  {
  }

  /**
   Two calls that look for the same route: one range, one number of retries, one
   destination. Each has packets of its own, since the factory draws new ids and
   sequence numbers for every packet, and its own timeout and validators.
   */
  predicate SameSearch(c: Config, d: Config) {
    d.ttlBegin == c.ttlBegin && d.ttlEnd == c.ttlEnd && d.retries == c.retries && d.destination == c.destination
  }

  /** A complete and true log gives, after the cut, the rows of the sequential result. */
  lemma TrueLogAgrees(c: Config, d: Config, network: Label -> Outcome, log: seq<Resolved>,
                      rs: seq<TracerouteResult>, heard: Heard)
    requires c.retries >= 1 && c.ttlBegin <= c.ttlEnd && SameSearch(c, d)
    requires multiset(LogLabels(log)) == multiset(Probes(c))
    requires SuccessesTrue(network, log) && forall e :: e in log ==> Kind(e.result) == network(e.probe)
    requires SequentialOn(d, network, rs, heard)
    ensures Agree(CutAfterDestination(Table(log), c.destination), rs)
  {
    hide Table, Kinds, OutcomesOf, RepliedFrom, SequentialOn, ResultsFor, LogLabels, Probes, CutAfterDestination;
    var m := Table(log);
    CompleteTable(c, log);
    assert SequentialShape(c.ttlBegin, c.ttlEnd, c.retries, c.destination, rs) by { ShapeOf(d, network, rs, heard); }
    forall j | 0 <= j < |rs|
      ensures m[j].ttl == rs[j].ttl
      ensures multiset(Kinds(m[j].probeResults)) == multiset(Kinds(rs[j].probeResults))
      ensures RepliedFrom(m[j].probeResults, c.destination) <==> RepliedFrom(rs[j].probeResults, c.destination)
    {
      RowIsTrue(c, network, log, c.ttlBegin + j);
      SequentialRow(d, network, rs, heard, j);
      SendersOfRow(log, c.ttlBegin + j);
      RepliedFromKinds(m[j].probeResults, c.destination);
      RepliedFromKinds(rs[j].probeResults, c.destination);
    }
    CutUnique(m, c.destination, m[..|rs|]);
  }

  /**
   Fast refines Sequential. Every interleaving that exits by count, on a network
   whose every reply is taken in while its probe is pending and is accepted by that
   probe only, returns the ttls of any sequential result of the same search on that
   network, with the same multiset of (success, sender) for each.
   */
  lemma FastRefinesSequential(c: Config, d: Config, network: Label -> Outcome, launch: int, acts: seq<Action>, s: State,
                              rs: seq<TracerouteResult>, heard: Heard)
    requires WellFormed(c) && c.retries >= 1 && SameSearch(c, d)
    requires Exec(c, Init([], launch), acts) == Some(s) && s.receiver.Exited? && |s.log| == |Probes(c)|
    requires HonestRun(c, network, Init([], launch), acts)
    requires forall l :: l in Probes(c) && network(l).Reply? ==> Delivered(c, Init([], launch), acts, l)
    requires SequentialOn(d, network, rs, heard)
    ensures Agree(FastResult(c, s), rs)
  {
    hide Exec, HonestRun, Delivered, SequentialOn, Agree;
    ExitByCountIsClean(c, launch, acts, s);
    LogIsTrue(c, network, launch, acts, s);
    TrueLogAgrees(c, d, network, s.log, rs, heard);
  }

  /** Under the conditions that lose no probe, the exit by count need not be assumed. */
  lemma TimelyFastRefinesSequential(c: Config, d: Config, network: Label -> Outcome, launch: int, acts: seq<Action>, s: State, limit: int,
                                    rs: seq<TracerouteResult>, heard: Heard)
    requires WellFormed(c) && c.retries >= 1 && c.slack < Deadline(c) && SameSearch(c, d)
    requires Exec(c, Init([], launch), acts) == Some(s) && s.receiver.Exited?
    requires AllRegisteredBy(c, Init([], launch), acts, limit)
    requires limit <= s.beginAt + LastSafeMoment(c)
    requires HonestRun(c, network, Init([], launch), acts)
    requires forall l :: l in Probes(c) && network(l).Reply? ==> Delivered(c, Init([], launch), acts, l)
    requires SequentialOn(d, network, rs, heard)
    ensures Agree(FastResult(c, s), rs)
  {
    hide Exec, HonestRun, Delivered, SequentialOn, Agree, AllRegisteredBy;
    NoProbeLost(c, launch, acts, s, limit);
    LogIsTrue(c, network, launch, acts, s);
    TrueLogAgrees(c, d, network, s.log, rs, heard);
  }

  /** With no retries the engines differ: Fast returns nothing, Sequential an empty row for every ttl. */
  lemma ZeroRetriesDisagree(c: Config, launch: int, acts: seq<Action>, s: State,
                            rs: seq<TracerouteResult>)
    requires WellFormed(c) && c.retries == 0
    requires Exec(c, Init([], launch), acts) == Some(s)
    requires SequentialShape(c.ttlBegin, c.ttlEnd, c.retries, c.destination, rs)
    ensures FastResult(c, s) == [] && |rs| == c.ttlEnd + 1 - c.ttlBegin >= 1
    ensures forall j :: 0 <= j < |rs| ==> rs[j] == TracerouteResult(c.ttlBegin + j, [])
    ensures !Agree(FastResult(c, s), rs)
  {
    hide Exec;
    ExitByCountIsClean(c, launch, acts, s);
    ScheduleLength(c.ttlBegin, c.ttlEnd, 0);
    forall j | 0 <= j < |rs| ensures rs[j] == TracerouteResult(c.ttlBegin + j, []) {
      assert rs[j].probeResults == [];
    }
  }

  // ----- The source's own validators -----

  /** ICMP or TCP probes of one target that no two of which share an id or a sequence number. */
  ghost predicate DistinctProbes(c: Config) {
    && (forall p, r :: c.valid(p, r) == IsValid(p, r))
    && (forall l :: l in Probes(c) ==> !c.packetFor(l).UdpPacket?)
    && (forall k, l :: k in Probes(c) && l in Probes(c) ==> SameTarget(c.packetFor(k), c.packetFor(l)))
    && (forall k, l :: k in Probes(c) && l in Probes(c) && k != l ==> !SameIdentity(c.packetFor(k), c.packetFor(l)))
  }

  /** Then a response that one pending probe accepts is rejected by every other, without throwing. */
  lemma AttributionUnambiguous(c: Config, s: State, p: Pending, r: Response)
    requires DistinctProbes(c) && QueueSound(c, s)
    requires p in s.pending && c.valid(p.packet, r) == Accepted
    ensures DeliversTo(c, s, Some(r), p.probe)
  {
    hide IsValid, SameTarget, SameIdentity, Probes;
    forall q | q in s.pending ensures c.valid(q.packet, r) == if q.probe == p.probe then Accepted else Rejected {
      assert q.packet == c.packetFor(q.probe) && p.packet == c.packetFor(p.probe);
      assert q.probe in Probes(c) && p.probe in Probes(c);
      if q.probe != p.probe {
        ThrowingIsShared(p.packet, q.packet, r);
        if IsValid(q.packet, r) == Accepted {
          AcceptedByOneIdentity(p.packet, q.packet, r);
        }
      }
    }
  }

  /** Hence the search finds the same probe whatever the order of the queue. */
  lemma SearchIgnoresQueueOrder(c: Config, s: State, q: seq<Pending>, r: Response)
    requires DistinctProbes(c) && QueueSound(c, s)
    requires multiset(q) == multiset(s.pending)
    requires FirstMatch(c.valid, s.pending, r).Found?
    ensures FirstMatch(c.valid, q, r).Found?
    ensures q[FirstMatch(c.valid, q, r).index].probe == s.pending[FirstMatch(c.valid, s.pending, r).index].probe
  {
    hide IsValid, SameTarget, SameIdentity, Probes;
    var p := s.pending[FirstMatch(c.valid, s.pending, r).index];
    FoundIsAccepted(c.valid, s.pending, r);
    AttributionUnambiguous(c, s, p, r);
    forall x ensures x in q <==> x in s.pending {
      assert x in q <==> x in multiset(q);
      assert x in s.pending <==> x in multiset(s.pending);
    }
    SoleAcceptorFound(c.valid, q, r, p.probe);
  }

  /** During the run, a response that the probe `l` accepts is taken in while it is pending. */
  predicate ReplyArrives(c: Config, s0: State, acts: seq<Action>, l: Label) {
    exists k :: 0 <= k < |acts| && acts[k].Process? && acts[k].response.Some? &&
      var at := Exec(c, s0, acts[..k]);
      at.Some? && exists p :: p in at.value.pending && p.probe == l && c.valid(p.packet, acts[k].response.value) == Accepted
  }

  lemma ArrivalIsDelivery(c: Config, launch: int, acts: seq<Action>, l: Label)
    requires DistinctProbes(c) && ReplyArrives(c, Init([], launch), acts, l)
    ensures Delivered(c, Init([], launch), acts, l)
  {
    hide DistinctProbes, DeliversTo, QueueSound;
    var s0 := Init([], launch);
    var k :| 0 <= k < |acts| && acts[k].Process? && acts[k].response.Some? &&
      var at := Exec(c, s0, acts[..k]);
      at.Some? && exists p :: p in at.value.pending && p.probe == l && c.valid(p.packet, acts[k].response.value) == Accepted;
    var at := Exec(c, s0, acts[..k]).value;
    var p :| p in at.pending && p.probe == l && c.valid(p.packet, acts[k].response.value) == Accepted;
    RunConserves(c, launch, acts[..k], at);
    AttributionUnambiguous(c, at, p, acts[k].response.value);
  }

  /**
   The instance for ICMP and TCP probing with the source's validators: pairwise
   distinct ids or sequence numbers take the place of "accepted by its own probe only".
   */
  lemma ValidatedFastRefinesSequential(c: Config, d: Config, network: Label -> Outcome, launch: int, acts: seq<Action>, s: State,
                                       rs: seq<TracerouteResult>, heard: Heard)
    requires WellFormed(c) && c.retries >= 1 && DistinctProbes(c) && SameSearch(c, d)
    requires Exec(c, Init([], launch), acts) == Some(s) && s.receiver.Exited? && |s.log| == |Probes(c)|
    requires HonestRun(c, network, Init([], launch), acts)
    requires forall l :: l in Probes(c) && network(l).Reply? ==> ReplyArrives(c, Init([], launch), acts, l)
    requires SequentialOn(d, network, rs, heard)
    ensures Agree(FastResult(c, s), rs)
  {
    hide Exec, HonestRun, Delivered, ReplyArrives, SequentialOn, Agree, DistinctProbes, Probes;
    forall l | l in Probes(c) && network(l).Reply? ensures Delivered(c, Init([], launch), acts, l) {
      ArrivalIsDelivery(c, launch, acts, l);
    }
    FastRefinesSequential(c, d, network, launch, acts, s, rs, heard);
  }
}
