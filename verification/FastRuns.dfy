/**
 Building runs of `FastTraceroute` to order: registering probes at a chosen time,
 and receive rounds without responses that bring the receiver to a chosen time.
 The statements about what can happen take their runs from here.
 */
module FastRuns {
  import opened ProbeResults
  import opened FastMachine

  /** In every state of the run after `limit`, all probes have been registered. */
  predicate AllRegisteredBy(c: Config, s0: State, acts: seq<Action>, limit: int) {
    forall k {:trigger acts[..k]} :: 0 <= k <= |acts| ==>
      var at := Exec(c, s0, acts[..k]);
      at.Some? && at.value.clock > limit ==> at.value.registered == |Probes(c)|
  }

  predicate Reaches(c: Config, s0: State, acts: seq<Action>, s: State, limit: int) {
    Exec(c, s0, acts) == Some(s) && AllRegisteredBy(c, s0, acts, limit)
  }

  predicate OnSchedule(c: Config, s: State, limit: int) {
    s.clock > limit ==> s.registered == |Probes(c)|
  }

  lemma Start(c: Config, s0: State, limit: int)
    requires OnSchedule(c, s0, limit)
    ensures Reaches(c, s0, [], s0, limit)
  {
  }

  lemma ReachesOnSchedule(c: Config, s0: State, acts: seq<Action>, s: State, limit: int)
    requires Reaches(c, s0, acts, s, limit)
    ensures OnSchedule(c, s, limit)
  {
    assert acts[..|acts|] == acts;
  }

  /** One more action. */
  lemma Extend(c: Config, s0: State, acts: seq<Action>, s: State, a: Action, limit: int)
    requires Reaches(c, s0, acts, s, limit) && Enabled(c, s, a) && OnSchedule(c, Apply(c, s, a), limit)
    ensures Reaches(c, s0, acts + [a], Apply(c, s, a), limit)
  {
    ExecStep(c, s0, acts, s, a);
    hide Exec, Apply, Enabled, Probes;
    var more := acts + [a];
    forall k | 0 <= k <= |more| && Exec(c, s0, more[..k]).Some?
      ensures OnSchedule(c, Exec(c, s0, more[..k]).value, limit)
    {
      if k <= |acts| {
        assert more[..k] == acts[..k];
      } else {
        assert more[..k] == more;
      }
    }
  }

  // ----- Receiving nothing while the clock stands still -----

  /** The probes with at least the minimal time left. */
  function Unexpired(q: seq<Pending>, now: int, timeout: nat): seq<Pending> {
    if q == [] then []
    else if Expired(q[0], now, timeout) then Unexpired(q[1..], now, timeout)
    else [q[0]] + Unexpired(q[1..], now, timeout)
  }

  /** Sweeping again later is sweeping once, later. */
  lemma {:induction false} UnexpiredTwice(q: seq<Pending>, now: int, later: int, timeout: nat)
    requires now <= later
    ensures Unexpired(Unexpired(q, now, timeout), later, timeout) == Unexpired(q, later, timeout)
    ensures |Unexpired(q, later, timeout)| <= |Unexpired(q, now, timeout)|
    decreases q
  {
    if q != [] {
      UnexpiredTwice(q[1..], now, later, timeout);
      assert ([q[0]] + Unexpired(q[1..], now, timeout))[1..] == Unexpired(q[1..], now, timeout);
    }
  }

  lemma {:induction false} NoneExpired(q: seq<Pending>, now: int, timeout: nat)
    requires forall p :: p in q ==> now - p.sentAt <= timeout - MIN_TIME_WAIT_FOR_RESPONSE
    ensures Unexpired(q, now, timeout) == q
    decreases q
  {
    if q != [] {
      assert q == [q[0]] + q[1..];
      NoneExpired(q[1..], now, timeout);
    }
  }

  lemma {:induction false} EveryExpired(q: seq<Pending>, now: int, timeout: nat)
    requires forall p :: p in q ==> now - p.sentAt > timeout - MIN_TIME_WAIT_FOR_RESPONSE
    ensures Unexpired(q, now, timeout) == []
    decreases q
  {
    if q != [] {
      EveryExpired(q[1..], now, timeout);
    }
  }

  function Standing(n: nat, now: int): seq<Reading> {
    seq(n, _ => Reading(now, now))
  }

  lemma StandingTail(n: nat, now: int)
    requires n > 0
    ensures Standing(n, now)[0] == Reading(now, now) && Standing(n, now)[1..] == Standing(n - 1, now)
  {
  }

  /** Readings of a clock that stands still. */
  lemma {:induction false} StandingClock(n: nat, at: int, end: int)
    requires at <= end
    ensures Chronological(at, Standing(n, at), end)
    decreases n
  {
    if n > 0 {
      StandingTail(n, at);
      StandingClock(n - 1, at, end);
    }
  }

  lemma {:induction false} StandingSweep(q: seq<Pending>, now: int, timeout: nat)
    ensures Kept(q, Standing(|q|, now), timeout) == Unexpired(q, now, timeout)
    ensures |Swept(q, Standing(|q|, now), timeout)| == |q| - |Unexpired(q, now, timeout)|
    decreases q
  {
    if q != [] {
      StandingTail(|q|, now);
      StandingSweep(q[1..], now, timeout);
    }
  }

  /** A lock region without response whose clock readings are all made at its beginning. */
  function Quiet(s: State, end: int): Action {
    Process(None, s.clock, Standing(|s.pending|, s.clock), end)
  }

  lemma QuietRegion(c: Config, s: State, end: int) returns (t: State)
    requires s.receiver.Receiving? && s.receiver.since + 1 <= s.clock <= end <= s.clock + c.drift
    ensures Enabled(c, s, Quiet(s, end)) && t == Apply(c, s, Quiet(s, end))
    ensures t == s.(clock := end, sweptAt := end, receiver := Testing, rounds := s.rounds + 1,
                    pending := Unexpired(s.pending, s.clock, c.timeout), log := t.log)
    ensures t.log == s.log + Swept(s.pending, Standing(|s.pending|, s.clock), c.timeout)
    ensures |t.log| + |t.pending| == |s.log| + |s.pending|
  {
    assert AfterMatch(c, s.pending, None) == s.pending && Matched(c, s.pending, None, s.clock) == [];
    StandingClock(|s.pending|, s.clock, end);
    StandingSweep(s.pending, s.clock, c.timeout);
    t := Apply(c, s, Quiet(s, end));
    assert s.log + [] == s.log;
  }

  // ----- Longer pieces -----

  /** One round without response: the receiver waits for some time up to its timeout and sweeps, which takes `lasting`. */
  lemma Round(c: Config, s0: State, acts: seq<Action>, s: State, wait: nat, lasting: nat, limit: int)
    returns (more: seq<Action>, t: State)
    requires Reaches(c, s0, acts, s, limit) && s.receiver.Testing? && LoopContinues(c, s)
    requires 1 <= wait <= MaxReceiveTime(c.timeout) && lasting <= c.drift
    requires s.clock + wait + lasting <= limit || s.registered == |Probes(c)|
    ensures Reaches(c, s0, more, t, limit)
    ensures t == s.(clock := s.clock + wait + lasting, sweptAt := s.clock + wait + lasting, rounds := s.rounds + 1,
                    pending := Unexpired(s.pending, s.clock + wait, c.timeout), log := t.log)
    ensures t.log == s.log + Swept(s.pending, Standing(|s.pending|, s.clock + wait), c.timeout)
    ensures |t.log| + |t.pending| == |s.log| + |s.pending|
  {
    hide Reaches, Probes, Unexpired, Swept;
    var s1 := Apply(c, s, Test);
    Extend(c, s0, acts, s, Test, limit);
    var s2 := Apply(c, s1, Tick(wait));
    Extend(c, s0, acts + [Test], s1, Tick(wait), limit);
    var end := s2.clock + lasting;
    t := QuietRegion(c, s2, end);
    Extend(c, s0, acts + [Test] + [Tick(wait)], s2, Quiet(s2, end), limit);
    more := acts + [Test] + [Tick(wait)] + [Quiet(s2, end)];
  }

  /**
   Rounds without response until `to`, or until the loop ends by count. Sweeping on
   the way makes no difference to what is left at the end.
   */
  lemma {:induction false} Advance(c: Config, s0: State, acts: seq<Action>, s: State, to: int, limit: int)
    returns (more: seq<Action>, t: State)
    requires Reaches(c, s0, acts, s, limit) && s.receiver.Testing? && s.clock == s.sweptAt
    requires s.clock <= to <= s.beginAt + Deadline(c)
    requires to <= limit || s.registered == |Probes(c)|
    ensures Reaches(c, s0, more, t, limit)
    ensures t == s.(clock := t.clock, sweptAt := t.clock, receiver := t.receiver, rounds := t.rounds, pending := t.pending, log := t.log)
    ensures |t.log| + |t.pending| == |s.log| + |s.pending|
    ensures |t.log| + |Unexpired(s.pending, to, c.timeout)| <= |s.log| + |s.pending|
    ensures if t.receiver.Testing? then t.clock == to else t.receiver.Exited? && |t.log| >= ExpectedSize(c)
    ensures t.receiver.Testing? && to > s.clock ==> t.pending == Unexpired(s.pending, to, c.timeout)
    ensures to == s.clock ==> t == s
    decreases if s.clock < to then to - s.clock else 0
  {
    hide Reaches, Probes, Unexpired, ExpectedSize, Deadline;
    if to == s.clock {
      more, t := acts, s;
      ShorterUnexpired(s.pending, to, c.timeout);
    } else if |s.log| >= ExpectedSize(c) {
      t := Apply(c, s, Test);
      Extend(c, s0, acts, s, Test, limit);
      more := acts + [Test];
      ShorterUnexpired(s.pending, to, c.timeout);
    } else {
      var wait := if to - s.clock <= MaxReceiveTime(c.timeout) then to - s.clock else MaxReceiveTime(c.timeout);
      var acts1, s1 := Round(c, s0, acts, s, wait, 0, limit);
      UnexpiredTwice(s.pending, s1.clock, to, c.timeout);
      more, t := Advance(c, s0, acts1, s1, to, limit);
    }
  }

  /** As long as nothing expires, nothing but time changes. */
  lemma AdvanceSparing(c: Config, s0: State, acts: seq<Action>, s: State, to: int, limit: int)
    returns (more: seq<Action>, t: State)
    requires Reaches(c, s0, acts, s, limit) && s.receiver.Testing? && s.clock == s.sweptAt
    requires s.clock <= to <= s.beginAt + Deadline(c)
    requires to <= limit || s.registered == |Probes(c)|
    requires s.log == [] && ExpectedSize(c) >= 1
    requires to > s.clock ==> forall p :: p in s.pending ==> to - p.sentAt <= c.timeout - MIN_TIME_WAIT_FOR_RESPONSE
    ensures Reaches(c, s0, more, t, limit)
    ensures t == s.(clock := to, sweptAt := to, rounds := t.rounds)
  {
    hide Reaches, Probes, Unexpired, ExpectedSize, Deadline;
    more, t := Advance(c, s0, acts, s, to, limit);
    if to > s.clock {
      NoneExpired(s.pending, to, c.timeout);
    }
    assert t.log == [];
  }

  /** One round more: a receive of a microsecond, a sweep that spares everything and ends at `until`. */
  lemma SparingRound(c: Config, s0: State, acts: seq<Action>, s: State, until: int, limit: int)
    returns (more: seq<Action>, t: State)
    requires Reaches(c, s0, acts, s, limit) && s.receiver.Testing? && LoopContinues(c, s)
    requires s.clock + 1 <= until <= s.clock + 1 + c.drift
    requires until <= limit || s.registered == |Probes(c)|
    requires s.log == []
    requires forall p :: p in s.pending ==> s.clock + 1 - p.sentAt <= c.timeout - MIN_TIME_WAIT_FOR_RESPONSE
    ensures Reaches(c, s0, more, t, limit)
    ensures t == s.(clock := until, sweptAt := until, rounds := s.rounds + 1)
  {
    hide Reaches, Probes, Unexpired, Swept, LoopContinues;
    more, t := Round(c, s0, acts, s, 1, until - s.clock - 1, limit);
    NoneExpired(s.pending, s.clock + 1, c.timeout);
    assert t.log == [];
  }

  lemma {:induction false} ShorterUnexpired(q: seq<Pending>, now: int, timeout: nat)
    ensures |Unexpired(q, now, timeout)| <= |q|
    decreases q
  {
    if q != [] {
      ShorterUnexpired(q[1..], now, timeout);
    }
  }

  /** The sender sends and queues probes, up to the `upTo`-th, without time passing. */
  lemma {:induction false} RegisterAtOnce(c: Config, s0: State, acts: seq<Action>, s: State, upTo: nat, limit: int)
    returns (more: seq<Action>, t: State)
    requires Reaches(c, s0, acts, s, limit) && s.sender.Ready? && s.clock <= limit
    requires s.registered <= upTo <= |Probes(c)|
    ensures Reaches(c, s0, more, t, limit)
    ensures t == s.(registered := upTo, pending := t.pending)
    ensures |t.pending| == |s.pending| + upTo - s.registered && s.pending <= t.pending
    ensures forall p :: p in t.pending ==> p in s.pending || p.sentAt == s.clock
    decreases upTo - s.registered
  {
    hide Reaches, Probes;
    if s.registered == upTo {
      more, t := acts, s;
    } else {
      var s1 := Apply(c, s, Send);
      Extend(c, s0, acts, s, Send, limit);
      var s2 := Apply(c, s1, Register);
      Extend(c, s0, acts + [Send], s1, Register, limit);
      more, t := RegisterAtOnce(c, s0, acts + [Send] + [Register], s2, upTo, limit);
    }
  }
}
