/**
 `FastTraceroute` as an object with a shared queue. Every execution of its
 methods, with the sender's steps and the passing of time interleaved at will
 between the receiver's steps, is a run of the transition system.
 */
module FastTraceroute {
  import opened Packets
  import opened ProbeResults
  import opened Schedule
  import opened Validators
  import opened FastMachine
  import opened FastSafety
  import opened FastRuns
  import opened FastMeaning
  import opened Traces
  import opened FastResults

  /** The table after pushing results one by one. */
  function PushAll(table: seq<TracerouteResult>, rs: seq<Resolved>): seq<TracerouteResult>
    decreases rs
  {
    if rs == [] then table else PushAll(PushBack(table, rs[0].probe.ttl, rs[0].result), rs[1..])
  }

  lemma {:induction false} TableOfConcatenation(log: seq<Resolved>, rs: seq<Resolved>)
    ensures Table(log + rs) == PushAll(Table(log), rs)
    decreases rs
  {
    if rs == [] {
      assert log + rs == log;
    } else {
      assert (log + [rs[0]])[..|log|] == log;
      assert log + rs == (log + [rs[0]]) + rs[1..];
      TableOfConcatenation(log + [rs[0]], rs[1..]);
    }
  }

  lemma SizeOfTable(log: seq<Resolved>)
    ensures CurrentSize(Table(log)) == |log|
  {
    TableMeaning(log);
  }

  lemma EmptyTable()
    ensures Table([]) == []
  {
  }

  /** The `find_if` over the queue. */
  method FindAcceptor(valid: (Packet, Response) -> Verdict, q: seq<Pending>, r: Response) returns (m: Match)
    ensures m == FirstMatch(valid, q, r)
  {
    var it := 0;
    assert q[0..] == q;
    while it < |q|
      invariant 0 <= it <= |q|
      invariant FirstMatch(valid, q, r) == Shifted(FirstMatch(valid, q[it..], r), it)
    {
      assert q[it..][1..] == q[it + 1..];
      match valid(q[it].packet, r)
      case Accepted => return Found(it);
      case Threw => return MatchThrew;
      case Rejected => it := it + 1;
    }
    m := NotFound;
  }

  function Shifted(m: Match, offset: nat): Match {
    if m.Found? then Found(m.index + offset) else m
  }

  /** What examining the next probe of a sweep does to what is kept and reported. */
  lemma SweepOne(q: seq<Pending>, readings: seq<Reading>, n: nat, timeout: nat, table: seq<TracerouteResult>)
    requires |q| == |readings| && n < |q|
    ensures Kept(q[n..], readings[n..], timeout)
         == (if Expired(q[n], readings[n].decide, timeout) then [] else [q[n]]) + Kept(q[n + 1..], readings[n + 1..], timeout)
    ensures PushAll(table, Swept(q[n..], readings[n..], timeout))
         == PushAll(if Expired(q[n], readings[n].decide, timeout)
                    then PushBack(table, q[n].probe.ttl, FailedProbe(TimePassed(readings[n].report, q[n].sentAt)))
                    else table,
                    Swept(q[n + 1..], readings[n + 1..], timeout))
  {
    hide Expired, PushBack;
    assert q[n..][1..] == q[n + 1..] && readings[n..][1..] == readings[n + 1..];
    if Expired(q[n], readings[n].decide, timeout) {
      var failure := Resolved(q[n].probe, FailedProbe(TimePassed(readings[n].report, q[n].sentAt)));
      var rest := Swept(q[n + 1..], readings[n + 1..], timeout);
      assert Swept(q[n..], readings[n..], timeout) == [failure] + rest;
      assert ([failure] + rest)[1..] == rest;
    }
  }

  lemma SameHead(queue: seq<Pending>, it: nat, q: seq<Pending>, n: nat)
    requires it < |queue| && n <= |q| && queue[it..] == q[n..]
    ensures n < |q| && queue[it] == q[n] && queue[it + 1..] == q[n + 1..]
  {
    assert |queue[it..]| == |q[n..]|;
    assert queue[it] == queue[it..][0] && q[n] == q[n..][0];
    assert queue[it + 1..] == queue[it..][1..] && q[n + 1..] == q[n..][1..];
  }

  lemma WithoutSplit(queue: seq<Pending>, it: nat)
    requires it < |queue|
    ensures Without(queue, it)[..it] == queue[..it] && Without(queue, it)[it..] == queue[it + 1..]
    ensures |Without(queue, it)| == |queue| - 1
  {
  }

  lemma MoveHead(queue: seq<Pending>, it: nat, rest: seq<Pending>)
    requires it < |queue|
    ensures queue[..it] + ([queue[it]] + rest) == queue[..it + 1] + rest
  {
    assert queue[..it + 1] == queue[..it] + [queue[it]];
  }

  lemma NothingLeft(readings: seq<Reading>, timeout: nat, table: seq<TracerouteResult>)
    requires readings == []
    ensures Kept([], readings, timeout) == [] && PushAll(table, Swept([], readings, timeout)) == table
  {
  }

  /** When every probe has been registered, the queue is empty exactly when every probe has been resolved. */
  lemma AllSent(c: Config, launch: int, acts: seq<Action>, s: State)
    requires Exec(c, Init([], launch), acts) == Some(s) && s.registered == |Probes(c)|
    ensures s.pending == [] <==> multiset(LogLabels(s.log)) == multiset(Probes(c))
  {
    hide Exec;
    RunConserves(c, launch, acts, s);
    assert Probes(c)[..s.registered] == Probes(c);
    assert |multiset(PendingLabels(s.pending))| == |s.pending|;
  }

  /** The probes still to send when the loops of `sendPackets` stand at a ttl and retry. */
  function Remaining(c: Config, ttl: nat, retry: nat): seq<Label> {
    if ttl > c.ttlEnd || retry > c.retries then []
    else Row(ttl, c.retries)[retry..] + Labels(ttl + 1, c.ttlEnd, c.retries)
  }

  lemma AllRemain(c: Config)
    ensures Remaining(c, c.ttlBegin, 0) == Probes(c)
  {
    assert Row(c.ttlBegin, c.retries)[0..] == Row(c.ttlBegin, c.retries);
  }

  /** The inner loop goes on with the next retry, the outer one with the next ttl. */
  lemma LoopsAdvance(c: Config, ttl: nat, retry: nat)
    requires ttl <= c.ttlEnd && retry <= c.retries
    ensures if retry < c.retries then Remaining(c, ttl, retry) == [Label(ttl, retry)] + Remaining(c, ttl, retry + 1)
            else Remaining(c, ttl, retry) == Remaining(c, ttl + 1, 0)
  {
    var row := Row(ttl, c.retries);
    if retry < c.retries {
      assert row[retry..] == [Label(ttl, retry)] + row[retry + 1..];
    } else {
      assert row[retry..] == [];
      if ttl + 1 <= c.ttlEnd {
        assert Row(ttl + 1, c.retries)[0..] == Row(ttl + 1, c.retries);
      }
    }
  }

  lemma NoneRemain(c: Config, ttl: nat, retry: nat)
    requires ttl > c.ttlEnd
    ensures Remaining(c, ttl, retry) == []
  {
  }

  /** The sendings of a list of probes, each with its packet and its ttl. */
  function Scheduled(c: Config, ls: seq<Label>): seq<Sending> {
    seq(|ls|, i requires 0 <= i < |ls| => Sending(c.packetFor(ls[i]), ls[i].ttl, true))
  }

  /** What has been handed to the data sender when `n` probes have been registered: those, and the next if it is underway or was refused. */
  function SendingsSoFar(c: Config, n: nat, sender: SenderState): seq<Sending>
    requires n <= |Probes(c)| && (!sender.Ready? ==> n < |Probes(c)|)
  {
    Scheduled(c, Probes(c)[..n]) +
    if sender.Ready? then [] else [Sending(c.packetFor(Probes(c)[n]), Probes(c)[n].ttl, sender.InFlight?)]
  }

  lemma RegisteredNext(c: Config, n: nat)
    requires n < |Probes(c)|
    ensures SendingsSoFar(c, n, InFlight) == SendingsSoFar(c, n + 1, Ready)
    ensures SendingsSoFar(c, n, InFlight)
         == SendingsSoFar(c, n, Ready) + [Sending(c.packetFor(Probes(c)[n]), Probes(c)[n].ttl, true)]
    ensures SendingsSoFar(c, n, Crashed)
         == SendingsSoFar(c, n, Ready) + [Sending(c.packetFor(Probes(c)[n]), Probes(c)[n].ttl, false)]
  {
    assert Probes(c)[..n + 1] == Probes(c)[..n] + [Probes(c)[n]];
  }

  lemma NothingSent(c: Config)
    ensures SendingsSoFar(c, 0, Ready) == Sendings([]) == [] && Receptions([]) == [] == Asked(c, Taken([]))
  {
  }

  /** The responses taken in by a run. */
  function Taken(acts: seq<Action>): seq<Option<Response>> {
    if acts == [] then []
    else Taken(acts[..|acts| - 1]) + if acts[|acts| - 1].Process? then [acts[|acts| - 1].response] else []
  }

  lemma TakenOneMore(acts: seq<Action>, a: Action)
    ensures Taken(acts + [a]) == if a.Process? then Taken(acts) + [a.response] else Taken(acts)
  {
    assert (acts + [a])[..|acts|] == acts;
  }

  lemma ResultOfTable(c: Config, s: State)
    ensures FastResult(c, s) == CutAfterDestination(Table(s.log), c.destination)
  {
  }

  /** Each from a receive that was given the whole milliseconds of the timeout. */
  function Asked(c: Config, responses: seq<Option<Response>>): seq<Reception> {
    seq(|responses|, i requires 0 <= i < |responses| => Reception(c.timeout / 1000, responses[i]))
  }

  lemma AskedOneMore(c: Config, responses: seq<Option<Response>>, response: Option<Response>)
    ensures Asked(c, responses + [response]) == Asked(c, responses) + [Reception(c.timeout / 1000, response)]
  {
  }

  lemma NothingDone(c: Config, s: State)
    ensures Exec(c, s, []) == Some(s) && Probes(c)[0..] == Probes(c)
  {
  }

  /** The steps of the two threads outside the lock regions. */
  lemma BeginStep(c: Config, s: State)
    requires s.receiver.Starting?
    ensures Enabled(c, s, Begin) && Apply(c, s, Begin) == s.(receiver := Testing, beginAt := s.clock, sweptAt := s.clock)
  {
  }

  lemma TestStep(c: Config, s: State)
    requires s.receiver.Testing?
    ensures Enabled(c, s, Test)
    ensures Apply(c, s, Test) == s.(receiver := if LoopContinues(c, s) then Receiving(s.clock) else Exited)
  {
  }

  lemma SendStep(c: Config, s: State)
    requires s.sender.Ready? && s.registered < |Probes(c)|
    ensures Enabled(c, s, Send) && Apply(c, s, Send) == s.(sender := InFlight)
    ensures Enabled(c, s, SendFails) && Apply(c, s, SendFails) == s.(sender := Crashed)
  {
  }

  lemma RegisterStep(c: Config, s: State, l: Label)
    requires s.sender.InFlight? && s.registered < |Probes(c)| && l == Probes(c)[s.registered]
    ensures Enabled(c, s, Register)
    ensures Apply(c, s, Register) == s.(sender := Ready, registered := s.registered + 1,
                                       pending := s.pending + [Pending(c.packetFor(l), s.clock, l)])
  {
  }

  lemma RegionStep(c: Config, s: State, a: Action)
    requires a.Process? && s.receiver.Receiving? && s.receiver.since + 1 <= s.clock <= a.matchedAt
    requires |a.readings| == |AfterMatch(c, s.pending, a.response)|
    requires Chronological(a.matchedAt, a.readings, a.end) && a.end <= s.clock + c.drift
    ensures Enabled(c, s, a)
    ensures MatchOf(c, s.pending, a.response).MatchThrew? ==> Apply(c, s, a) == s.(receiver := Failed)
    ensures !MatchOf(c, s.pending, a.response).MatchThrew? ==>
              var q := AfterMatch(c, s.pending, a.response);
              Apply(c, s, a) == s.(clock := a.end, sweptAt := a.end, receiver := Testing, rounds := s.rounds + 1,
                                   pending := Kept(q, a.readings, c.timeout),
                                   log := s.log + Matched(c, s.pending, a.response, a.matchedAt) + Swept(q, a.readings, c.timeout))
  {
  }

  class FastTraceroute {
    const c: Config
    /** `mPacketsToBeValidated`. */
    var queue: seq<Pending>
    var clock: int
    /** What the sender thread is doing, and the counters of its loops. */
    var sender: SenderState
    var ttl: nat
    var retry: nat
    /** Where the receiver is, and when its last sweep ended. */
    var receiver: ReceiverState
    var sweptAt: int
    /** The run so far, and the state it has led to. */
    ghost var launch: State
    ghost var acts: seq<Action>
    ghost var state: State
    /** The calls made to the data sender in this run. */
    ghost var trace: seq<Event>

    constructor (c: Config, now: int)
      ensures this.c == c && queue == [] && clock == now
    {
      this.c := c;
      queue, clock, sender, ttl, retry, receiver, sweptAt := [], now, Ready, c.ttlBegin, 0, Starting, now;
      launch, acts, state, trace := Init([], now), [], Init([], now), [];
    }

    /** The fields are those of the state that the recorded run leads to. */
    ghost predicate Valid()
      reads this
    {
      && Exec(c, launch, acts) == Some(state)
      && state.pending == queue && state.clock == clock
      && state.sender == sender
      && state.receiver == receiver && state.sweptAt == sweptAt
      && retry <= c.retries
      && state.registered <= |Probes(c)| && Probes(c)[state.registered..] == Remaining(c, ttl, retry)
      && (sender.InFlight? ==> ttl <= c.ttlEnd && retry < c.retries)
      && (!sender.Ready? ==> state.registered < |Probes(c)|)
      && Sendings(trace) == SendingsSoFar(c, state.registered, sender)
      && WaitAllowed(c, receiver, sweptAt, clock)
    }

    /** What no step of the sender and no passing of time changes. */
    twostate predicate ReceiverUntouched()
      reads this
    {
      && launch == old(launch) && receiver == old(receiver) && sweptAt == old(sweptAt)
      && state.log == old(state.log) && state.beginAt == old(state.beginAt) && state.rounds == old(state.rounds)
      && Taken(acts) == old(Taken(acts)) && Receptions(trace) == old(Receptions(trace))
    }

    /** Records a step of the run. */
    ghost method Step(a: Action)
      requires Exec(c, launch, acts) == Some(state) && Enabled(c, state, a)
      modifies `state, `acts
      ensures state == Apply(c, old(state), a) && acts == old(acts) + [a]
      ensures Exec(c, launch, acts) == Some(state)
      ensures Taken(acts) == if a.Process? then old(Taken(acts)) + [a.response] else old(Taken(acts))
    {
      ExecStep(c, launch, acts, state, a);
      TakenOneMore(acts, a);
      state, acts := Apply(c, state, a), acts + [a];
    }

    /** The sender has gone through its loops, or a refused send has ended it. */
    ghost predicate SenderDone()
      reads this
    {
      sender.Crashed? || (sender.Ready? && state.registered == |Probes(c)|)
    }

    /** A bound on the steps the sender still has to take. */
    ghost function SenderWork(): nat
      reads this
      requires state.registered <= |Probes(c)|
    {
      if sender.Crashed? then 0 else 2 * (|Probes(c)| - state.registered) + if sender.Ready? then 1 else 0
    }

    /** The loop conditions of `sendPackets`: to the next ttl when the retries of this one are used up. */
    method NextProbe() returns (more: bool)
      requires Valid() && sender.Ready?
      modifies `ttl, `retry
      ensures Valid() && ReceiverUntouched()
      ensures more <==> state.registered < |Probes(c)|
      ensures more ==> ttl <= c.ttlEnd && retry < c.retries && Probes(c)[state.registered] == Label(ttl, retry)
    {
      hide Exec, Probes, Remaining, SendingsSoFar, Sendings, Receptions, Taken;
      while ttl <= c.ttlEnd && retry == c.retries
        invariant Valid()
        decreases c.ttlEnd + 1 - ttl
      {
        LoopsAdvance(c, ttl, retry);
        ttl, retry := ttl + 1, 0;
      }
      more := ttl <= c.ttlEnd;
      if more {
        LoopsAdvance(c, ttl, retry);
        assert Probes(c)[state.registered] == Probes(c)[state.registered..][0];
      } else {
        assert Remaining(c, ttl, retry) == [] by { NoneRemain(c, ttl, retry); }
        assert |Probes(c)[state.registered..]| == 0;
      }
    }

    /** `trySending`: sent or refused. */
    method TrySending(packet: Packet, ttl: nat) returns (sent: bool)
      modifies `trace
      ensures trace == old(trace) + [if sent then Sent(packet, ttl, clock) else Refused(packet, ttl, clock)]
      ensures Sendings(trace) == old(Sendings(trace)) + [Sending(packet, ttl, sent)]
      ensures Receptions(trace) == old(Receptions(trace))
    {
      sent := *;
      ghost var e := if sent then Sent(packet, ttl, clock) else Refused(packet, ttl, clock);
      OneMore(trace, e);
      trace := trace + [e];
    }

    /**
     One step of the sender: hand the next probe with its packet and ttl to the data
     sender, or queue the one just sent with the time of queueing.
     */
    method SenderStep()
      requires Valid()
      modifies this
      ensures Valid() && ReceiverUntouched() && clock == old(clock)
      ensures old(sender.InFlight?) ==>
                && Probes(c)[old(state.registered)] == Label(old(ttl), old(retry))
                && queue == old(queue) + [Pending(c.packetFor(Label(old(ttl), old(retry))), clock, Label(old(ttl), old(retry)))]
                && sender.Ready? && state.registered == old(state.registered) + 1 && trace == old(trace)
      ensures !old(sender.InFlight?) ==> queue == old(queue) && state.registered == old(state.registered)
      ensures old(sender.Ready?) ==>
                if old(state.registered) < |Probes(c)| then
                  var l := Probes(c)[old(state.registered)];
                  || (sender.InFlight? && trace == old(trace) + [Sent(c.packetFor(l), l.ttl, clock)])
                  || (sender.Crashed? && trace == old(trace) + [Refused(c.packetFor(l), l.ttl, clock)])
                else sender.Ready? && trace == old(trace)
      ensures old(sender.Crashed?) ==> sender.Crashed? && trace == old(trace)
      ensures SenderWork() <= old(SenderWork()) && (old(SenderDone()) || SenderWork() < old(SenderWork()))
    {
      hide Exec, Probes, Remaining, SendingsSoFar, Sendings, Receptions, Taken, Enabled, Apply;
      if sender.Ready? {
        var more := NextProbe();
        if more {
          RegisteredNext(c, state.registered);
          SendStep(c, state);
          var sent := TrySending(c.packetFor(Label(ttl, retry)), ttl);
          if sent {
            Step(Send);
            sender := InFlight;
          } else {
            Step(SendFails);
            sender := Crashed;
          }
        }
      } else if sender.InFlight? {
        var l := Label(ttl, retry);
        LoopsAdvance(c, ttl, retry);
        ghost var n := state.registered;
        assert Probes(c)[n..][0] == l && Probes(c)[n..][1..] == Probes(c)[n + 1..];
        RegisteredNext(c, n);
        RegisterStep(c, state, l);
        Step(Register);
        queue := queue + [Pending(c.packetFor(l), clock, l)];
        sender, retry := Ready, retry + 1;
      }
    }

    /** Time passes as far as the bounds allow. */
    method TimePasses(elapsed: nat)
      requires Valid()
      modifies this
      ensures Valid() && ReceiverUntouched() && queue == old(queue)
      ensures clock == if WaitAllowed(c, receiver, sweptAt, old(clock) + elapsed) then old(clock) + elapsed else old(clock)
      ensures SenderWork() == old(SenderWork()) && trace == old(trace)
    {
      hide Exec, Probes, SendingsSoFar, Sendings, Receptions, Taken;
      if WaitAllowed(c, receiver, sweptAt, clock + elapsed) {
        Step(Tick(elapsed));
        clock := clock + elapsed;
      }
    }

    /** Between two steps of the receiver, the sender and the clock take any number of steps. */
    method Interleave()
      requires Valid()
      modifies this
      ensures Valid() && ReceiverUntouched() && clock >= old(clock) && SenderWork() <= old(SenderWork())
    {
      hide Exec, Probes, SendingsSoFar, Sendings, Receptions, Taken;
      var steps: int := *;
      while steps > 0
        invariant Valid() && ReceiverUntouched() && clock >= old(clock) && SenderWork() <= old(SenderWork())
      {
        var elapsed: int := *;
        if elapsed > 0 {
          TimePasses(elapsed);
        } else {
          SenderStep();
        }
        steps := steps - 1;
      }
    }

    /** Destroying the future of `sendPackets` waits for the sender; sends and time go on in between. */
    method AwaitSender()
      requires Valid()
      modifies this
      ensures Valid() && ReceiverUntouched() && SenderDone()
    {
      hide Exec, Probes, SendingsSoFar, Sendings, Receptions, Taken;
      var more := true;
      while more
        invariant Valid() && ReceiverUntouched() && (more || SenderDone())
        decreases more, SenderWork()
      {
        Interleave();
        SenderStep();
        if sender.Ready? {
          more := NextProbe();
        } else {
          more := sender.InFlight?;
        }
      }
    }

    /** `tryReceiving`: some response or none, after at least a microsecond and at most the milliseconds given. */
    method TryReceiving(milliseconds: nat) returns (response: Option<Response>)
      requires Valid() && receiver.Receiving? && clock == receiver.since
      modifies this
      ensures Valid() && launch == old(launch) && receiver == old(receiver) && Taken(acts) == old(Taken(acts))
      ensures state.log == old(state.log) && state.beginAt == old(state.beginAt)
      ensures receiver.since + 1 <= clock
      ensures Receptions(trace) == old(Receptions(trace)) + [Reception(milliseconds, response)]
    {
      hide Exec, Probes, Remaining, SendingsSoFar, Sendings, Receptions, Taken;
      Interleave();
      if clock == receiver.since {
        TimePasses(1);
      }
      response := *;
      OneMore(trace, Received(milliseconds, response, clock));
      trace := trace + [Received(milliseconds, response, clock)];
    }

    /**
     The erase loop: examines every pending probe with the clock readings given,
     erases the expired ones in place and reports their failures.
     */
    method SweepExpired(readings: seq<Reading>, before: seq<TracerouteResult>) returns (table: seq<TracerouteResult>)
      requires |readings| == |queue|
      modifies `queue
      ensures queue == Kept(old(queue), readings, c.timeout)
      ensures table == PushAll(before, Swept(old(queue), readings, c.timeout))
    {
      hide Kept, Swept, PushAll, PushBack, Expired;
      table := before;
      var it, n := 0, 0;
      ghost var q := queue;
      assert q[0..] == q && readings[0..] == readings;
      assert [] + Kept(q, readings, c.timeout) == Kept(q, readings, c.timeout);
      while it < |queue|
        invariant it <= |queue| && n <= |q| && queue[it..] == q[n..]
        invariant queue[..it] + Kept(q[n..], readings[n..], c.timeout) == Kept(q, readings, c.timeout)
        invariant PushAll(table, Swept(q[n..], readings[n..], c.timeout)) == PushAll(before, Swept(q, readings, c.timeout))
        decreases |queue| - it
      {
        SweepOne(q, readings, n, c.timeout, table);
        SameHead(queue, it, q, n);
        if Expired(queue[it], readings[n].decide, c.timeout) {
          table := PushBack(table, queue[it].probe.ttl, FailedProbe(TimePassed(readings[n].report, queue[it].sentAt)));
          WithoutSplit(queue, it);
          queue := Without(queue, it);
        } else {
          MoveHead(queue, it, Kept(q[n + 1..], readings[n + 1..], c.timeout));
          it := it + 1;
        }
        n := n + 1;
      }
      NothingLeft(readings[n..], c.timeout, table);
      assert q[n..] == [] && queue[..it] + [] == queue;
    }

    /** The time of the next clock reading in the lock region. */
    method ReadClock() returns (t: int)
      ensures clock <= t <= clock + c.drift
    {
      t := *;
      t := if clock <= t <= clock + c.drift then t else clock;
    }

    /** The readings one sweep makes after time `from`, and the time it ends. */
    method ReadClockDuringSweep(n: nat, from: int) returns (readings: seq<Reading>, end: int)
      requires clock <= from <= clock + c.drift
      ensures |readings| == n && Chronological(from, readings, end) && end <= clock + c.drift
    {
      readings := *;
      end := *;
      if !(|readings| == n && Chronological(from, readings, end) && end <= clock + c.drift) {
        readings, end := Standing(n, from), from;
        StandingClock(n, from, end);
      }
    }

    /** The first half of the lock region: the first pending probe that accepts is reported and erased. */
    method TakeResponse(response: Option<Response>, before: seq<TracerouteResult>)
      returns (threw: bool, matchedAt: int, table: seq<TracerouteResult>)
      modifies `queue
      ensures clock <= matchedAt <= clock + c.drift
      ensures threw <==> MatchOf(c, old(queue), response).MatchThrew?
      ensures queue == AfterMatch(c, old(queue), response) && (threw ==> queue == old(queue))
      ensures table == PushAll(before, Matched(c, old(queue), response, matchedAt))
    {
      table := before;
      var m := NotFound;
      if response.Some? {
        m := FindAcceptor(c.valid, queue, response.value);
      }
      threw := m.MatchThrew?;
      matchedAt := ReadClock();
      if m.Found? {
        var p := queue[m.index];
        ghost var matched := Matched(c, queue, response, matchedAt);
        assert matched[1..] == [];
        table := PushBack(table, p.probe.ttl, SuccessProbe(TimePassed(matchedAt, p.sentAt), response.value.info.client));
        queue := Without(queue, m.index);
      }
    }

    /** The receiver's lock region after one call of `tryReceiving`. */
    method ProcessResponse(response: Option<Response>, before: seq<TracerouteResult>)
      returns (threw: bool, table: seq<TracerouteResult>)
      requires Valid() && receiver.Receiving? && receiver.since + 1 <= clock
      modifies this
      ensures launch == old(launch) && clock >= old(clock) && state.beginAt == old(state.beginAt)
      ensures Valid()
      ensures threw <==> receiver.Failed?
      ensures !threw ==> receiver.Testing? && state.rounds == old(state.rounds) + 1
      ensures !threw && before == Table(old(state.log)) ==> table == Table(state.log)
      ensures Taken(acts) == old(Taken(acts)) + [response] && trace == old(trace)
    {
      hide Exec, Probes, Remaining, SendingsSoFar, Sendings, Receptions, Taken, Enabled, Apply, Chronological, Kept, Swept, Matched, AfterMatch, MatchOf, Table, PushAll, MaxReceiveTime, PushBack;
      ghost var q := queue;
      var matchedAt;
      threw, matchedAt, table := TakeResponse(response, before);
      var readings, end := ReadClockDuringSweep(|queue|, matchedAt);
      LastReading(matchedAt, readings, end);
      ghost var matched, swept := Matched(c, q, response, matchedAt), Swept(queue, readings, c.timeout);
      ghost var a := Process(response, matchedAt, readings, end);
      RegionStep(c, state, a);
      Step(a);
      if threw {
        receiver := Failed;
        return;
      }
      TableOfConcatenation(old(state.log), matched);
      TableOfConcatenation(old(state.log) + matched, swept);
      table := SweepExpired(readings, table);
      clock, sweptAt, receiver := end, end, Testing;
    }

    /** The body of the loop: one receive, given the whole milliseconds of the timeout, and the lock region. */
    method ReceiveOnce(before: seq<TracerouteResult>) returns (threw: bool, table: seq<TracerouteResult>)
      requires Valid() && receiver.Receiving? && clock == receiver.since
      requires Receptions(trace) == Asked(c, Taken(acts)) && before == Table(state.log)
      modifies this
      ensures Valid() && launch == old(launch) && clock > old(clock) && state.beginAt == old(state.beginAt)
      ensures Receptions(trace) == Asked(c, Taken(acts))
      ensures if threw then receiver.Failed? else receiver.Testing? && table == Table(state.log)
    {
      hide Exec, Probes, Remaining, SendingsSoFar, Sendings, Receptions, Asked, Taken, Table, MaxReceiveTime;
      ghost var taken := Taken(acts);
      var response := TryReceiving(c.timeout / 1000);
      AskedOneMore(c, taken, response);
      threw, table := ProcessResponse(response, before);
    }

    /** `receiveAndValidate`, up to the end of its loop. The table is `ttlToProbeResults`. */
    method ReceiveAndValidate() returns (completed: bool, table: seq<TracerouteResult>)
      requires Valid() && receiver.Starting? && state.log == [] && Receptions(trace) == Asked(c, Taken(acts))
      modifies this
      ensures Valid() && launch == old(launch) && Receptions(trace) == Asked(c, Taken(acts))
      ensures if completed then receiver.Exited? && table == Table(state.log) else receiver.Failed?
    {
      hide Exec, Probes, Remaining, SendingsSoFar, Sendings, Receptions, Asked, Taken, ExpectedSize, Deadline, MaxReceiveTime, Table, CurrentSize, Enabled, Apply;
      EmptyTable();
      table := [];
      Interleave();
      var beginAt := clock;
      BeginStep(c, state);
      Step(Begin);
      receiver, sweptAt := Testing, clock;
      while true
        invariant Valid() && launch == old(launch) && receiver.Testing? && Receptions(trace) == Asked(c, Taken(acts))
        invariant beginAt == state.beginAt && table == Table(state.log)
        decreases beginAt + Deadline(c) - clock
      {
        Interleave();
        var size := ComputeCurrentSize(table);
        SizeOfTable(state.log);
        var continues := size < ExpectedSize(c) && TimeLeft(clock, beginAt, Deadline(c)) > 0;
        TestStep(c, state);
        Step(Test);
        receiver := if continues then Receiving(clock) else Exited;
        if !continues {
          return true, table;
        }
        var threw, next := ReceiveOnce(table);
        if threw {
          return false, table;
        }
        table := next;
      }
    }

    /** A new run, from whatever is queued. */
    method StartRun()
      modifies this
      ensures Valid() && launch == Init(old(queue), old(clock)) && receiver.Starting? && state.log == []
      ensures Receptions(trace) == Asked(c, Taken(acts))
    {
      hide Exec, Probes, Remaining, SendingsSoFar, Sendings, Receptions, Asked, Taken;
      NothingSent(c);
      AllRemain(c);
      NothingDone(c, Init(queue, clock));
      launch, acts, state, trace := Init(queue, clock), [], Init(queue, clock), [];
      sender, ttl, retry, receiver, sweptAt := Ready, c.ttlBegin, 0, Starting, clock;
    }

    /**
     `beginProbing`. Whatever is queued from earlier runs stays queued. The results
     are those of the run that was made, and the queue left behind is the run's, which
     has gone on until the sender was done. The probes registered are those sent, in
     schedule order with their packets and ttls; a refused one comes last. Every
     response taken in was received by a call that was given the whole milliseconds of
     the timeout. Sorting the rows is no step of its own: the map yields them in order.
     */
    method BeginProbing() returns (completed: bool, results: seq<TracerouteResult>)
      modifies this
      ensures launch == Init(old(queue), old(clock))
      ensures Exec(c, launch, acts) == Some(state) && queue == state.pending && clock == state.clock
      ensures completed ==> state.receiver.Exited? && results == FastResult(c, state)
      ensures !completed ==> state.receiver.Failed?
      ensures sender == state.sender && SenderDone() && state.registered == Registers(acts) <= |Probes(c)|
      ensures sender.Crashed? ==> state.registered < |Probes(c)|
      ensures Sendings(trace) == SendingsSoFar(c, state.registered, sender)
      ensures Receptions(trace) == Asked(c, Taken(acts))
      ensures old(queue) == [] && !sender.Crashed? ==> (queue == [] <==> multiset(LogLabels(state.log)) == multiset(Probes(c)))
    {
      hide Exec, Probes, Remaining, SendingsSoFar, Sendings, Receptions, Asked, Taken, FastResult;
      StartRun();
      results := [];
      var table;
      completed, table := ReceiveAndValidate();
      if completed {
        results := FinishResults(table, c.destination);
      }
      AwaitSender();
      ResultOfTable(c, state);
      RegistersCounted(c, launch, acts, state);
      if old(queue) == [] && !sender.Crashed? {
        AllSent(c, old(clock), acts, state);
      }
    }
  }
}
