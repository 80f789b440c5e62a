/**
 The probing protocol of `FastTraceroute` as a transition system.

 A sender thread and the receiver share the queue of pending probes. The
 sender's atomic steps are sending a probe and, in the lock region that follows,
 reading the clock and queueing it. The receiver's are reading the clock at the
 start, the loop test, and the lock region that handles what one call of
 `tryReceiving` brought: match a pending probe, then sweep the expired ones.
 Time passes between any two steps, within the bounds the configuration gives.
 */
module FastMachine {
  import opened Bytes
  import opened Headers
  import opened Packets
  import opened ProbeResults
  import opened Schedule
  import opened Validators

  /**
   One call of `beginProbing` and its environment. `packetFor` gives the packet the
   factory makes for each probe and `valid` stands for `Packet::isValid`; both are
   arbitrary. The three bounds, in microseconds, limit the time between launching
   the sender and reading the start time (`startup`), between a sweep or the start
   and the next loop test (`slack`), and inside the receiver's lock region (`drift`).
   */
  datatype Config = Config(
    ttlBegin: nat, ttlEnd: nat, retries: nat, timeout: nat, destination: SocketAddress,
    packetFor: Label -> Packet, valid: (Packet, Response) -> Verdict,
    startup: nat, slack: nat, drift: nat)

  /** `PacketToValidate`. */
  datatype Pending = Pending(packet: Packet, sentAt: int, probe: Label)

  /** A result together with the probe it belongs to. */
  datatype Resolved = Resolved(probe: Label, result: ProbeResult)

  /** The two clock readings the sweep makes for a probe: one to decide, one to report. */
  datatype Reading = Reading(decide: int, report: int)

  datatype SenderState = Ready | InFlight | Crashed

  datatype ReceiverState = Starting | Testing | Receiving(since: int) | Exited | Failed

  /**
   `registered` counts the probes queued so far, `sweptAt` is the end of the last
   sweep (before the first one: the start), `rounds` counts the receive attempts
   and `log` lists the results in the order they were made.
   */
  datatype State = State(
    clock: int, sender: SenderState, registered: nat, pending: seq<Pending>,
    receiver: ReceiverState, beginAt: int, sweptAt: int, rounds: nat, log: seq<Resolved>)

  datatype Action =
    | Tick(elapsed: nat)
    | Send
    | SendFails
    | Register
    | Begin
    | Test
    | Process(response: Option<Response>, matchedAt: int, readings: seq<Reading>, end: int)

  // ----- Parameters of a run -----

  function Probes(c: Config): seq<Label> {
    Labels(c.ttlBegin, c.ttlEnd, c.retries)
  }

  /** What the source assumes of its 32-bit parameters. */
  predicate WellFormed(c: Config) {
    && c.ttlBegin <= c.ttlEnd < TWO_TO_32 - 1
    && (c.ttlEnd + 1 - c.ttlBegin) * c.retries < TWO_TO_32
  }

  /** The product of `beginProbing`, in 32-bit unsigned arithmetic. */
  function ExpectedSize(c: Config): nat {
    ((c.ttlEnd - c.ttlBegin) % TWO_TO_32 + 1) % TWO_TO_32 * c.retries % TWO_TO_32
  }

  lemma ExpectedSizeIsProbeCount(c: Config)
    requires WellFormed(c)
    ensures ExpectedSize(c) == |Probes(c)|
  {
    ScheduleLength(c.ttlBegin, c.ttlEnd, c.retries);
    hide Probes;
    var rows := c.ttlEnd + 1 - c.ttlBegin;
    SmallRemainder(c.ttlEnd - c.ttlBegin, TWO_TO_32);
    SmallRemainder(rows, TWO_TO_32);
    SmallRemainder(rows * c.retries, TWO_TO_32);
  }

  lemma SmallRemainder(x: nat, m: nat)
    requires x < m
    ensures x % m == x
  {
  }

  /** `expectedMaxTimeTaken`, in microseconds. */
  function Deadline(c: Config): nat {
    WholeMilliseconds(c.timeout) * ExpectedSize(c)
  }

  // ----- The receiver's lock region -----

  datatype Match = Found(index: nat) | NotFound | MatchThrew

  /** `find_if`: the first pending probe that accepts the response. */
  function FirstMatch(valid: (Packet, Response) -> Verdict, q: seq<Pending>, r: Response): (m: Match)
    ensures m.Found? ==> m.index < |q|
  {
    if q == [] then NotFound
    else
      match valid(q[0].packet, r)
      case Accepted => Found(0)
      case Threw => MatchThrew
      case Rejected =>
        var m := FirstMatch(valid, q[1..], r);
        if m.Found? then Found(m.index + 1) else m
  }

  function MatchOf(c: Config, q: seq<Pending>, response: Option<Response>): (m: Match)
    ensures m.Found? ==> response.Some? && m.index < |q|
  {
    if response.Some? then FirstMatch(c.valid, q, response.value) else NotFound
  }

  function Without(q: seq<Pending>, i: nat): seq<Pending>
    requires i < |q|
  {
    q[..i] + q[i + 1..]
  }

  function AfterMatch(c: Config, q: seq<Pending>, response: Option<Response>): seq<Pending> {
    var m := MatchOf(c, q, response);
    if m.Found? then Without(q, m.index) else q
  }

  function Matched(c: Config, q: seq<Pending>, response: Option<Response>, at: int): seq<Resolved> {
    var m := MatchOf(c, q, response);
    if m.Found? then
      [Resolved(q[m.index].probe, SuccessProbe(TimePassed(at, q[m.index].sentAt), response.value.info.client))]
    else []
  }

  predicate Expired(p: Pending, now: int, timeout: nat) {
    TimeLeft(now, p.sentAt, timeout) < MIN_TIME_WAIT_FOR_RESPONSE
  }

  /** The probes a sweep leaves, given the clock readings it makes. */
  function Kept(q: seq<Pending>, readings: seq<Reading>, timeout: nat): seq<Pending>
    requires |q| == |readings|
  {
    if q == [] then []
    else if Expired(q[0], readings[0].decide, timeout) then Kept(q[1..], readings[1..], timeout)
    else [q[0]] + Kept(q[1..], readings[1..], timeout)
  }

  /** The failures a sweep reports. */
  function Swept(q: seq<Pending>, readings: seq<Reading>, timeout: nat): seq<Resolved>
    requires |q| == |readings|
  {
    if q == [] then []
    else if Expired(q[0], readings[0].decide, timeout) then
      [Resolved(q[0].probe, FailedProbe(TimePassed(readings[0].report, q[0].sentAt)))]
      + Swept(q[1..], readings[1..], timeout)
    else Swept(q[1..], readings[1..], timeout)
  }

  /** Clock readings made one after the other between two times. */
  predicate Chronological(start: int, readings: seq<Reading>, end: int)
    decreases readings
  {
    if readings == [] then start <= end
    else start <= readings[0].decide <= readings[0].report && Chronological(readings[0].report, readings[1..], end)
  }

  // ----- Steps and runs -----

  function Init(queue: seq<Pending>, now: int): State {
    State(now, Ready, 0, queue, Starting, now, now, 0, [])
  }

  /** How late it can get while the receiver is in a given state. */
  predicate WaitAllowed(c: Config, receiver: ReceiverState, sweptAt: int, now: int) {
    match receiver
    case Starting => now <= sweptAt + c.startup
    case Testing => now <= sweptAt + c.slack
    case Receiving(since) => now <= since + MaxReceiveTime(c.timeout)
    case _ => true
  }

  /** The bounds on waiting that hold whenever the clock shows `now`. */
  predicate InTime(c: Config, s: State, now: int) {
    WaitAllowed(c, s.receiver, s.sweptAt, now)
  }

  predicate Enabled(c: Config, s: State, a: Action) {
    match a
    case Tick(d) => InTime(c, s, s.clock + d)
    case Send => s.sender.Ready? && s.registered < |Probes(c)|
    case SendFails => s.sender.Ready? && s.registered < |Probes(c)|
    case Register => s.sender.InFlight? && s.registered < |Probes(c)|
    case Begin => s.receiver.Starting?
    case Test => s.receiver.Testing?
    case Process(response, matchedAt, readings, end) =>
      && s.receiver.Receiving?
      && s.receiver.since + 1 <= s.clock
      && |readings| == |AfterMatch(c, s.pending, response)|
      && s.clock <= matchedAt
      && Chronological(matchedAt, readings, end)
      && end <= s.clock + c.drift
  }

  predicate LoopContinues(c: Config, s: State) {
    |s.log| < ExpectedSize(c) && TimeLeft(s.clock, s.beginAt, Deadline(c)) > 0
  }

  function Apply(c: Config, s: State, a: Action): State
    requires Enabled(c, s, a)
  {
    match a
    case Tick(d) => s.(clock := s.clock + d)
    case Send => s.(sender := InFlight)
    case SendFails => s.(sender := Crashed)
    case Register =>
      var l := Probes(c)[s.registered];
      s.(sender := Ready, registered := s.registered + 1,
         pending := s.pending + [Pending(c.packetFor(l), s.clock, l)])
    case Begin => s.(receiver := Testing, beginAt := s.clock, sweptAt := s.clock)
    case Test => s.(receiver := if LoopContinues(c, s) then Receiving(s.clock) else Exited)
    case Process(response, matchedAt, readings, end) =>
      if MatchOf(c, s.pending, response).MatchThrew? then
        s.(receiver := Failed)
      else
        var q := AfterMatch(c, s.pending, response);
        s.(clock := end, sweptAt := end, receiver := Testing, rounds := s.rounds + 1,
           pending := Kept(q, readings, c.timeout),
           log := s.log + Matched(c, s.pending, response, matchedAt) + Swept(q, readings, c.timeout))
  }

  /** The state after a sequence of actions; none when some action was not enabled. */
  function Exec(c: Config, s: State, acts: seq<Action>): Option<State> {
    if acts == [] then Some(s)
    else
      var before := Exec(c, s, acts[..|acts| - 1]);
      var a := acts[|acts| - 1];
      if before.Some? && Enabled(c, before.value, a) then Some(Apply(c, before.value, a)) else None
  }

  /** What `receiveAndValidate` has collected in its map. */
  function Table(log: seq<Resolved>): seq<TracerouteResult> {
    if log == [] then []
    else
      var last := log[|log| - 1];
      PushBack(Table(log[..|log| - 1]), last.probe.ttl, last.result)
  }

  /** The value `beginProbing` returns once the receiver has left its loop. */
  function FastResult(c: Config, s: State): seq<TracerouteResult> {
    CutAfterDestination(Table(s.log), c.destination)
  }

  /** Every prefix of a run is a run. */
  lemma {:induction false} PrefixOfRun(c: Config, s: State, acts: seq<Action>, k: nat)
    requires k <= |acts| && Exec(c, s, acts).Some?
    ensures Exec(c, s, acts[..k]).Some?
  {
    if k == |acts| {
      assert acts[..k] == acts;
    } else {
      var n := |acts| - 1;
      PrefixOfRun(c, s, acts[..n], k);
      assert acts[..n][..k] == acts[..k];
    }
  }

  /** One more enabled action extends a run. */
  lemma ExecStep(c: Config, s0: State, acts: seq<Action>, s: State, a: Action)
    requires Exec(c, s0, acts) == Some(s) && Enabled(c, s, a)
    ensures Exec(c, s0, acts + [a]) == Some(Apply(c, s, a))
  {
    assert (acts + [a])[..|acts|] == acts;
  }

  /** Two runs one after the other are a run. */
  lemma {:induction false} RunOfConcatenation(c: Config, s0: State, acts: seq<Action>, s: State, more: seq<Action>)
    requires Exec(c, s0, acts) == Some(s)
    ensures Exec(c, s0, acts + more) == Exec(c, s, more)
    decreases |more|
  {
    hide Apply, Enabled;
    if more == [] {
      assert acts + more == acts;
    } else {
      var n, whole := |more| - 1, acts + more;
      RunOfConcatenation(c, s0, acts, s, more[..n]);
      assert whole[..|whole| - 1] == acts + more[..n] && whole[|whole| - 1] == more[n];
    }
  }
}
