# A verified model of the traceroute library

The library finds the route to a host by sending probes with increasing ttl and
matching what comes back. This project models its three cores and proves that
they work together.

* **The probing engines.** `FastTraceroute` runs a sender thread and a receiver
  over a shared queue. `FastMachine.dfy` gives it as a transition system whose
  atomic steps are the source's lock regions and loop tests, with a microsecond
  clock that advances between them. `FastSafety.dfy` (conservation and queue
  order), `FastResults.dfy` (the table of results), `FastMeaning.dfy` (what each
  result, each loop test and each step of the sender means in terms of the run), `FastTiming.dfy` (waiting
  times and the deadline), `FastLosses.dfy` (lost probes and leftover queues) and
  `FastFifo.dfy` (UDP) prove properties of every run, and `FastRuns.dfy` builds the
  runs that show what can happen; `FastTraceroute.dfy` is the object itself, whose
  every execution is proved to be a run of the transition system.
  `SequentialTraceroute.dfy` is the one-at-a-time engine. `Refinement.dfy` proves
  that Fast refines Sequential, and `AnsweredRuns.dfy` that its hypotheses can be met.
  `Traces.dfy` has the calls to the data sender that both objects record.
* **The response validators.** `Validators.dfy` parses a received message byte by
  byte, `ValidatorReads.dfy` gives the exact extent of what a verdict reads,
  `ValidatorProofs.dfy` which probe a message is attributed to, and `Replies.dfy`
  follows a probe from its serialized bytes through a router or the destination back
  to the validator.
* **The Internet checksum.** `Checksum.dfy` relates the source's deferred-carry
  loop over host-order loads to the network-order definition of RFC 1071, and
  `Packets.dfy` builds the probe packets and proves that they verify.

`EndToEnd.dfy` joins the three: for ICMP and TCP probes with distinct ids or
sequence numbers, drawn by each engine for itself, on a network whose replies are genuine and reach each engine
while it waits for them, every interleaving of the fast engine that exits by count
agrees with every sequential result on the same network. What the engines accept is
derived from the bytes of the replies, and what they heard is what their objects
recorded.

## Assumptions about the environment

They are parts of the model's definitions or hypotheses of the statements.

* The clock is monotone. One call of `tryReceiving` takes at least 1 microsecond
  and at most the whole milliseconds it is given (1 microsecond when that is none).
* Time between launching the sender and reading the start time, between a sweep
  (or the start) and the next loop test, and inside the receiver's lock region is
  bounded by `startup`, `slack` and `drift` of the configuration. Statements hold for
  any bounds unless they name one; the UDP order holds exactly for a `drift` of zero.
* The factory always gives the same destination. The packet it makes for each
  probe, and `isValid`, are arbitrary functions unless a statement says otherwise.
* `ttlBegin <= ttlEnd < 2^32 - 1`, and the number of probes fits in 32 bits.
* The host is little-endian with 64-bit `unsigned long` and `size_t`.

## Where the code differs from what one might expect

Each has a lemma in the table below.

* With zero retries Fast returns nothing and Sequential an empty row per ttl.
* The pending queue is not cleared between runs, so any leftover probe can end the
  next run before its last probe is sent.
* Below a timeout of 1 ms the fast deadline is zero and no probe is ever reported.
  Above it, probes registered later than a moment given exactly below can be lost;
  for a single probe whose timeout is not whole milliseconds that moment can lie
  before the start.
* The fast engine resolves UDP probes in sending order only if the clock stands still
  while it sweeps the queue: each probe is judged by a clock reading of its own.
* A failed fast probe can report as little as the timeout less 9 microseconds and as
  much as almost twice the timeout, although the unit test of the fast engine expects exactly
  the timeout.
* A message shorter than its own IP header passes the size checks because the
  subtraction wraps, and a short message can be judged by stale buffer bytes.
* ICMPv6 destination unreachable is dropped by ICMP probes, and destination
  unreachable from a router by TCP probes.
* Over IPv6 a direct TCP reply from ports 16640-20479 or 24576-28671 is taken to
  begin with an IP header.
* `IcmpResponseValidator` merges the ICMPv4 and ICMPv6 type numbers, so an ICMP probe
  takes an IPv4 destination-unreachable message from any router for its reply.
* A zero UDP checksum is not replaced by all ones as RFC 768 asks.

## Model

| member | source | states |
|---|---|---|
| Checksum.ComputeChecksum | src/utils/ChecksumCalculator.cpp:68-88 | the two loops compute the 64-bit complement of the folded sum of the words, for every size, ignoring the byte read past an odd end |
| Checksum.FoldCarries | src/utils/ChecksumCalculator.cpp:82-85 | the carry loop ends with the recursively folded sum |
| Checksum.FoldMeaning | src/utils/ChecksumCalculator.cpp:82-85 | folding to 16 bits keeps the residue modulo 65535 and gives zero only for a zero sum |
| Checksum.FoldUnique | src/utils/ChecksumCalculator.cpp:82-85 | those two facts determine the folded value |
| Checksum.DeferredCarriesRefineEndAround | src/utils/ChecksumCalculator.cpp:70-85 | deferring all carries gives the one's complement sum with an end-around carry after each addition (section 2 of RFC 1071) |
| Checksum.FoldEarly | src/utils/ChecksumCalculator.cpp:70-85 | folding a partial sum early does not change the result |
| Checksum.SumOfConcatenation | src/utils/ChecksumCalculator.cpp:46-55 | a prior sum over an even number of bytes equals summing the concatenation |
| Checksum.OddTailIsZeroPadding | src/utils/ChecksumCalculator.cpp:76-80 | an odd last byte counts as if a zero byte followed it |
| Checksum.FoldedSumsAreSwapped | src/utils/ChecksumCalculator.cpp:68-88 | the folded little-endian sum is the byte swap of the folded big-endian sum |
| Checksum.ByteOrderIndependence | src/utils/ChecksumCalculator.cpp:68-88 | storing the host-order result puts on the wire the two bytes of the network-order definition, for any length and even prefix (section 2(B) of RFC 1071) |
| Checksum.VerifiesInHostOrder | src/utils/ChecksumCalculator.cpp:68-88 | bytes verify in network order exactly when their folded host-order sum is 0xFFFF |
| Checksum.ComplementCompletes | src/utils/ChecksumCalculator.cpp:86-88 | adding the complement of a folded sum to the sum folds to 0xFFFF |
| Checksum.SingleWordSensitivity | src/utils/ChecksumCalculator.cpp:68-88 | changing exactly one word changes the checksum unless it goes between 0x0000 and 0xFFFF and the rest of the sum is nonzero, both directions |
| Packets.ComputePseudoheaderChecksum | src/utils/ChecksumCalculator.cpp:11-24 | the IPv4 branch sums exactly the words of the wire pseudo header of RFC 793 |
| Packets.ComputeIcmpHeaderChecksum | src/utils/ChecksumCalculator.cpp:5-10 | the header verifies once the result is stored in it |
| Packets.ComputeTcpHeaderChecksum | src/utils/ChecksumCalculator.cpp:46-56 | pseudo header and TCP header verify once the result is stored, for every header and address pair |
| Packets.ComputeUdpHeaderChecksum | src/utils/ChecksumCalculator.cpp:58-67 | the same for UDP |
| Packets.StoredFieldVerifies | src/utils/ChecksumCalculator.cpp:46-56 | replacing a zeroed checksum field by the computed value makes the whole verify |
| Packets.CreateIcmp4Packet | src/Packet/IcmpPacket.cpp:25-35 | the eight bytes of the built echo request: type 8, code 0, the checksum, the drawn id in network order, sequence 0; they verify; mismatched families fail |
| Packets.CreateIcmp6Packet | src/Packet/IcmpPacket.cpp:37-46 | likewise: type 128, code 0, checksum zero, the drawn id, sequence 0 |
| Packets.CreateTcpPacket | src/Packet/TcpPacket.cpp:20-36 | the twenty bytes of the built segment: drawn source port, destination port and sequence number in network order, acknowledgement 0, offset byte 0x50, SYN, window 5760; over IPv4 it verifies with its pseudo header |
| Packets.CreateUdpPacket | src/Packet/UdpPacket.cpp:17-28 | the eight bytes of the built datagram: drawn source port, destination port, length 8, checksum; over IPv4 it verifies with its pseudo header |
| Packets.TcpWire | src/utils/Serialize.hpp:9-14 | where each field of a TCP header lies on the wire and that it reads in network order as the host's value (section 3.1 of RFC 793) |
| Packets.UdpWire | src/utils/Serialize.hpp:9-14 | the same for UDP (RFC 768) |
| Packets.IcmpWire | src/utils/Serialize.hpp:9-14 | the same for ICMP echo messages (RFC 792) |
| Packets.UdpFieldIsZero | src/utils/ChecksumCalculator.cpp:58-67 | the stored UDP field is zero exactly when the folded sum is 0xFFFF, that is when the sum is a multiple of 65535 |
| Packets.UdpZeroFieldHappens | src/Packet/UdpPacket.cpp:17-28 | a concrete probe that is sent with a zero checksum field |
| ValidatorReads.VerdictReadsFirst136 | src/ResponseValidators/common.cpp:31-80 | every verdict is a function of the first 136 bytes of the buffer |
| ValidatorReads.StaleBytesIgnoredExactly | src/ResponseValidators/ResponseValidator.cpp:5-17 | for every probe, message size and buffer: bytes behind the received ones cannot change the verdict if and only if the size reaches the extent, which ends at the first byte that settles the verdict |
| ValidatorReads.CompleteMessageDecides | src/ResponseValidators/ResponseValidator.cpp:5-17 | so the received bytes decide for every message with a whole ICMP or TCP header and, when it quotes a probe, the inner header and 8 bytes |
| ValidatorReads.ReadsDecide | src/ResponseValidators/common.cpp:67-75 | when a verdict comes down to a comparison, it is that of the bytes of one field: id, sequence number, or sequence number plus one modulo 2^32 |
| ValidatorReads.ShortMessagePassesSizeCheck | src/ResponseValidators/common.cpp:58-65 | a size check holds exactly when the rest is long enough or the message is shorter than its IP header |
| ValidatorReads.ThrowsExactly | src/ResponseValidators/common.cpp:31-56 | validation throws exactly when the message is empty (for a TCP probe: an empty ICMP or TCP message), or is ICMP, passes the size check, is of a type that quotes a probe, and has neither version 4 nor 6 where the quoted IP header begins |
| ValidatorProofs.AcceptedByOneIdentity | src/ResponseValidators/common.cpp:67-75 | two probes of one target that accept the same message have the same id or sequence number, on every accepting path |
| ValidatorProofs.IdentityDeterminesVerdict | src/ResponseValidators/UdpResponseValidator.cpp:15-44 | probes with one identity and target get one verdict; UDP probes always do |
| ValidatorProofs.ThrowingIsShared | src/ResponseValidators/common.cpp:31-46 | whether validation throws does not depend on which probe of the target is asked |
| Replies.OuterHeaderDetected | src/ResponseValidators/common.cpp:47-65 | the validator finds the message exactly when it comes behind a legal IPv4 header of any length, or its first byte is not that of an IP header (0x40, a header of length zero, does no harm) |
| Replies.ArrivedValidation | src/ResponseValidators/ResponseValidator.cpp:5-17 | then the message is validated as itself with its own size |
| Replies.QuotedField | src/utils/Serialize.hpp:9-14 | the first 8 bytes of a serialized probe contain the id or sequence number at offset 4 |
| Replies.QuotedProbeRoundTrip | src/ResponseValidators/IcmpToTcpResponseValidator.cpp:15-66 | an ICMP message of any type but echo reply quoting 8 bytes of a probe, with any legal header lengths, is accepted by a probe of the target iff the type leads to the quote and the identities match (RFC 792, Time Exceeded Message) |
| Replies.ErrorKindInNumbers | src/ResponseValidators/IcmpToTcpResponseValidator.cpp:42-66 | the ICMP types that lead to the quoted header, per probe kind, family and sender, as numbers |
| Replies.ErrorAccepted | src/ResponseValidators/IcmpResponseValidator.cpp:34-47 | a message of type 11 over IPv4 or 3 over IPv6 that quotes a probe is accepted from any hop, and for a TCP probe one of type 3 or 1 from the destination |
| Replies.EchoReplyRoundTrip | src/ResponseValidators/IcmpResponseValidator.cpp:13-21 | an echo reply (type 0, over IPv6 129) from the destination is accepted iff the ids match |
| Replies.TcpReplyRoundTrip | src/ResponseValidators/TcpToTcpResponseValidator.cpp:18-29 | a segment acknowledging one past the probe's sequence number modulo 2^32 is accepted iff the sequence numbers match, unless it is bare and from a port that looks like an IP header |
| Replies.BareTcpAcceptedExactly | src/ResponseValidators/common.cpp:47-56 | for every IPv6 TCP probe and every port: all bare replies to it from that port are accepted if and only if the port is outside 16640-20479 and 24576-28671 |
| Replies.BareReplyMissed | src/ResponseValidators/TcpToTcpResponseValidator.cpp:18-29 | from a port inside, a correct 20-byte reply to any sequence number is rejected, by the size check or by stale bytes read as the acknowledgement |
| Replies.AnswerAttribution | src/ResponseValidators/TcpResponseValidator.cpp:19-31 | whatever a router or the destination sends in answer to an ICMP or TCP probe is accepted by exactly the probes that share its identity if the code recognises the type, and by none otherwise; validation does not throw |
| Replies.QuoteRecognised | src/ResponseValidators/IcmpToTcpResponseValidator.cpp:42-66 | of the errors routers send, the code drops exactly ICMPv6 destination unreachable for an ICMP probe, and destination unreachable from anyone but the destination for a TCP probe |
| Replies.GenuineReplyAttribution | src/ResponseValidators/TcpResponseValidator.cpp:19-31 | so a recognised answer is accepted by exactly the probes that share the identity of the one it answers |
| Replies.AcceptedFromElsewhere | src/ResponseValidators/IcmpToTcpResponseValidator.cpp:22-30 | from anyone but the destination a TCP probe accepts only time exceeded of the sender's family, an ICMP probe only types 11 and 3 |
| Replies.QuotedFromElsewhere | src/ResponseValidators/IcmpResponseValidator.cpp:34-47 | a message from there that quotes the probe is accepted exactly when it has such a type |
| Replies.UnreachableFromAnyRouter | src/ResponseValidators/IcmpResponseValidator.cpp:34-47 | an ICMP probe accepts an IPv4 destination-unreachable message quoting it from any router |
| Replies.UdpVerdictOnArrival | src/ResponseValidators/UdpResponseValidator.cpp:15-52 | a UDP probe accepts an arrived ICMP message exactly when it has 16 bytes and is of type 3 (over IPv6 1) from the destination or 11 (over IPv6 3) from elsewhere |
| ProbeResults.PushBackIsMapUpdate | src/FastTraceroute.cpp:79-80 | appending under a key keeps the map in order and changes that row only, by one result |
| ProbeResults.SortLeavesSortedTable | src/FastTraceroute.cpp:97-100 | sorting the rows of the map by ttl changes nothing: any sorted permutation is the table |
| ProbeResults.ComputeCurrentSize | src/FastTraceroute.cpp:57-60 | the fold over the rows counts the results |
| ProbeResults.CutMeaning | src/FastTraceroute.cpp:102-111 | the cut keeps a prefix whose last row alone can hold a reply from the destination, and shortens only behind such a row |
| ProbeResults.CutUnique | src/FastTraceroute.cpp:102-111 | no other prefix has that property |
| ProbeResults.FinishResults | src/FastTraceroute.cpp:102-111 | the search and the erase compute that cut |
| Schedule.LabelScheduled | src/FastTraceroute.cpp:38-50 | exactly the probes with ttl and retry in range are scheduled |
| Schedule.ScheduleIncreasing | src/FastTraceroute.cpp:38-50 | probes are sent in strictly increasing (ttl, retry) order |
| FastMachine.ExpectedSizeIsProbeCount | src/FastTraceroute.cpp:32 | the 32-bit product is the number of probes |
| FastSafety.RunConservesFrom | src/FastTraceroute.cpp:28-96 | from whatever queue a run starts with, in every reachable state, what was queued and what has been registered is the disjoint union of pending and resolved |
| FastSafety.RunConserves | src/FastTraceroute.cpp:36-96 | in every reachable state of every interleaving from an empty queue, registered probes are the disjoint union of pending and resolved ones, and the queue is in strict (ttl, retry) and nondecreasing time order |
| FastSafety.ResolvedAtMostOnce | src/FastTraceroute.cpp:73-93 | no probe is resolved twice or resolved while pending |
| FastSafety.ExitByCountIsClean | src/FastTraceroute.cpp:65-96 | an exit by count means every probe was sent and resolved and the queue is empty |
| FastSafety.SweepMovesSome | src/FastTraceroute.cpp:84-94 | a sweep with any clock readings splits the queue into kept and failed probes |
| FastResults.TableMeaning | src/FastTraceroute.cpp:55-60 | the map holds, per ttl and in order, exactly the results made for it |
| FastResults.AtMostRetriesPerTtl | src/FastTraceroute.cpp:38-48 | in every reachable state no ttl has more results than retries, and none is out of range |
| FastResults.CompleteTable | src/FastTraceroute.cpp:97-100 | when every probe is resolved the rows are the consecutive ttls with `retries` results each |
| FastMeaning.SearchMeaning | src/FastTraceroute.cpp:73-76 | the search finds a probe only if it accepts and all before it reject; it throws exactly when the first that does not reject throws |
| FastMeaning.RegionReports | src/FastTraceroute.cpp:69-95 | the lock region adds to the log exactly: the success of the first accepting probe, and the failures of the others with less than 10 microseconds left at their clock reading; nothing when validation throws |
| FastMeaning.RegionLeaves | src/FastTraceroute.cpp:84-94 | it leaves pending exactly the probes with at least 10 microseconds left at their reading |
| FastMeaning.LogExactly | src/FastTraceroute.cpp:65-96 | the results of every run are exactly those its lock regions report |
| FastMeaning.SuccessMeaning | src/FastTraceroute.cpp:77-82 | in every run from any queue each success belongs to a probe that was pending and accepted the response taken in; it names the sender of that response, and reports the time from the registration of the probe (by this run, with the clock at that moment, or an earlier one) to the reading after the match |
| FastMeaning.FailureMeaning | src/FastTraceroute.cpp:86-90 | each failure belongs to a pending probe with less than 10 microseconds left at one reading and reports the time passed at the next |
| FastMeaning.PendingOrigin | src/FastTraceroute.cpp:47-48 | every pending probe was queued before the run or registered by it: the next of the schedule, with its packet and the time on the clock |
| FastMeaning.BeginMeaning | src/FastTraceroute.cpp:64 | the start time is the clock at the start |
| FastMeaning.TestMeaning | src/FastTraceroute.cpp:62-65 | the loop goes on exactly while there are fewer results than probes and less time has passed than the number of probes times the whole milliseconds of the timeout |
| FastMeaning.SenderShape | src/FastTraceroute.cpp:36-51 | in every run the sender's actions are sending and registering, one probe after the other, at the end perhaps one sent but not yet registered or one refused |
| FastMeaning.NothingAfterRefusal | src/FastTraceroute.cpp:43-46 | after a refused send nothing is sent or registered |
| FastMeaning.RegistersFollowSends | src/FastTraceroute.cpp:42-48 | at every point of a run at most as many probes have been registered as sent |
| FastLosses.CleanExitsExactly | src/FastTraceroute.cpp:28-34 | for any queue left from before: every exit by count has sent and resolved all probes of the run if and only if the queue was empty (or there is no probe, or the timeout is below 1 ms) |
| FastLosses.LeftoverEndsRun | src/FastTraceroute.cpp:65-94 | from any nonempty queue a run exits by count without having sent its last probe |
| FastTiming.FailedProbesWaitedLongEnough | src/FastTraceroute.cpp:86-90 | in every run from any queue each failed probe waited at least timeout - 9 microseconds |
| FastTiming.SweepRemovesPrefix | src/FastTraceroute.cpp:84-94 | with the clock fixed the sweep removes exactly the expired prefix of the queue |
| FastTiming.RunTimely | src/FastTraceroute.cpp:65-96 | in every run, for any bounds and any queue whose probes were sent at most `age` before the launch, no result waited longer than a bound made of the last sparing sweep, slack, drift, one receive, and the deadline |
| FastTiming.WaitingTimeBounds | src/FastTraceroute.cpp:65-94 | with no probe sent more than timeout - 10 and the drift before the start, every result waited at most 2 timeout - 10 plus the slack and two lock regions, and failures at least timeout - 9 |
| FastTiming.LongestWaitAttained | src/FastTraceroute.cpp:65-94 | that bound is sharp: for any number of probes, any timeout from 1 ms on, any bounds and any age, a run attains it, from an empty queue when the age is zero |
| FastTiming.TwoProbesWaitLongest | src/FastTraceroute.cpp:62-65 | for two or more probes, a prompt start, and at most 10 microseconds of slack and drift the deadline plays no part in it |
| FastTiming.FailuresReportTimeoutExactly | src/FastTraceroute.cpp:86-90 | failed probes report exactly the timeout in every run if and only if nothing is ever reported: the timeout is below 1 ms or there is no probe |
| FastTiming.EarliestFailure | src/FastTraceroute.cpp:86-90 | otherwise a run reports a failure after timeout - 9 microseconds |
| FastTiming.NoResultsBelowOneMillisecond | src/FastTraceroute.cpp:62-65 | a timeout below 1 ms gives no receive attempt and no result in any run |
| FastTiming.ReceiveAttemptsBounded | src/FastTraceroute.cpp:62-68 | every run from any queue makes at most as many receive attempts as the deadline has microseconds |
| FastLosses.NoProbeLost | src/FastTraceroute.cpp:62-96 | if all probes are registered by the last safe moment, a finished run has resolved all of them, with `retries` results per ttl |
| FastLosses.NoProbeLostWholeMilliseconds | src/FastTraceroute.cpp:62-96 | for whole milliseconds and under 10 microseconds of slack and drift, registration within N - 1 timeouts of the start is enough |
| FastLosses.NoProbeLostExactly | src/FastTraceroute.cpp:62-96 | for any number of probes, timeout and bounds: no run loses a probe if and only if all are registered by the last safe moment, which is a timeout less 9 microseconds, the slack and the drift before the deadline, or earlier than can be |
| FastLosses.LosingRun | src/FastTraceroute.cpp:62-96 | when they are not, a run registers all probes in time, finishes and has no result at all |
| FastLosses.WholeMillisecondLimit | src/FastTraceroute.cpp:62-96 | for whole milliseconds the last safe moment is N - 1 timeouts and 9 microseconds after the start, less slack and drift |
| FastLosses.PromptProbesAreSafe | src/FastTraceroute.cpp:62-96 | probes registered by the start are never lost, except exactly a single one whose fraction of a millisecond with slack and drift reaches 10 microseconds |
| FastFifo.UdpProbesIndistinguishable | src/ResponseValidators/UdpResponseValidator.cpp:15-44 | UDP probes to one destination get the same verdict on every response |
| FastFifo.RunFifo | src/FastTraceroute.cpp:73-94 | if probes are indistinguishable, resolved followed by pending probes are the registered prefix of the schedule, in order |
| FastFifo.UdpResolvesInSendingOrder | src/FastTraceroute.cpp:73-94 | over UDP, in every reachable state the resolved probes are a prefix of the schedule |
| FastFifo.InOrderExactly | src/FastTraceroute.cpp:73-94 | for indistinguishable probes: all runs resolve in sending order if and only if no time passes within a sweep (or there are no two probes, or the timeout is below 1 ms) |
| FastFifo.SecondOvertakes | src/FastTraceroute.cpp:84-94 | otherwise a run fails the second probe while the first stays pending |
| FastTraceroute.FindAcceptor | src/FastTraceroute.cpp:73-76 | the search finds the first accepting probe, or that one throws before it |
| FastTraceroute.FastTraceroute.NextProbe | src/FastTraceroute.cpp:38-42 | the loop counters of the sender always stand at the next probe of the schedule, and the loops end when there is none |
| FastTraceroute.FastTraceroute.SenderStep | src/FastTraceroute.cpp:38-50 | the probe at the loop counters is handed to the data sender with its packet and ttl, sent or refused, or the sent probe is queued with the time of queueing; a refusal ends the sender |
| FastTraceroute.FastTraceroute.AwaitSender | src/FastTraceroute.cpp:31 | waiting for the sender ends, with every probe registered or a refused send |
| FastTraceroute.FastTraceroute.TakeResponse | src/FastTraceroute.cpp:71-83 | the matched probe is reported and erased, and only it |
| FastTraceroute.FastTraceroute.SweepExpired | src/FastTraceroute.cpp:84-94 | the in-place erase loop keeps what the filter keeps and reports what it drops, for any clock readings |
| FastTraceroute.FastTraceroute.ProcessResponse | src/FastTraceroute.cpp:69-95 | the lock region is one step of the run and the table stays that of the log |
| FastTraceroute.FastTraceroute.ReceiveOnce | src/FastTraceroute.cpp:67-95 | each receive is given the whole milliseconds of the timeout, and what it brings is what the lock region takes in |
| FastTraceroute.FastTraceroute.ReceiveAndValidate | src/FastTraceroute.cpp:53-96 | the loop ends, with the table of the log, whatever the sender and the clock do in between |
| FastTraceroute.FastTraceroute.BeginProbing | src/FastTraceroute.cpp:28-34 | every execution is a run of the transition system from the queue it found and returns that run's results; the probes registered are exactly those sent, in schedule order with their packets and ttls, a refused one coming last; the responses taken in are those received by calls given the whole milliseconds of the timeout; on return the sender is done, and from an empty queue, if no send was refused, the queue left behind is empty exactly when every probe was resolved |
| SequentialTraceroute.ProbeOnce | src/SequentialTraceroute.cpp:31-65 | the trace grows by the sending and the attempts of one wait: each asks for the whole milliseconds left since the sending, with at least 10 microseconds left; it ends with the first accepted response, which gives the time since the sending and the sender, or with less than 10 left, which gives the timeout; no response of a completed probe made validation throw |
| SequentialTraceroute.ResultMeaning | src/SequentialTraceroute.cpp:41-63 | the result of a wait is its first accepted response within the timeout, or a failure after the timeout; there are at most timeout - 9 attempts |
| SequentialTraceroute.ProbeTtl | src/SequentialTraceroute.cpp:28-66 | `retries` results for one ttl, each that of the wait for its probe, with the trace of the data sender grown by just those waits |
| SequentialTraceroute.BeginProbing | src/SequentialTraceroute.cpp:22-74 | consecutive ttls, `retries` results each, a destination reply in the last row only, a shorter list only behind one; every result is that of the wait for its probe, with its times, and the trace grows by the waits of the probes made, in schedule order; failure only by a refused send or a throwing validation |
| Refinement.HonestOutcome | src/SequentialTraceroute.cpp:41-53 | if what a probe accepts is always the network's reply, and that is heard when there is one, the outcome of the attempts is the network's |
| Refinement.FastRefinesSequential | src/FastTraceroute.cpp:28-112 | every interleaving that exits by count returns the ttls of every sequential result of the same search on the network, with the same multiset of (success, sender) per ttl; each engine has packets, validators and a timeout of its own |
| Refinement.TimelyFastRefinesSequential | src/FastTraceroute.cpp:28-112 | under the conditions that lose no probe every finished run agrees |
| Refinement.ZeroRetriesDisagree | src/SequentialTraceroute.cpp:25-71 | with zero retries Fast returns nothing, Sequential one empty row per ttl, and they do not agree |
| Refinement.AttributionUnambiguous | src/FastTraceroute.cpp:73-76 | with distinct identities a response accepted by one pending probe is rejected by all others, without throwing |
| Refinement.SearchIgnoresQueueOrder | src/FastTraceroute.cpp:73-76 | then the search finds the same probe in every order of the queue |
| Refinement.ValidatedFastRefinesSequential | src/FastTraceroute.cpp:28-112 | the refinement for ICMP and TCP probes of the fast engine with distinct identities under the source's validators |
| AnsweredRuns.AnsweredRunsExist | src/FastTraceroute.cpp:28-112 | for any number of probes and any replies they accept there are a fast run and a sequential result that meet the hypotheses of the refinement |
| EndToEnd.GenuineIsHonest | src/FastTraceroute.cpp:73-80 | a genuine reply that is accepted in the queue is attributed to the probe it answers, and other traffic to none |
| EndToEnd.OthersAreHarmless | src/FastTraceroute.cpp:73-80 | late answers to the probes of other runs, and answers of dropped types, are rejected by every probe of this run |
| EndToEnd.SequentialTrafficIsHonest | src/SequentialTraceroute.cpp:41-53 | the same for what the sequential engine hears: acceptance follows from the bytes of genuine replies |
| EndToEnd.FastAgreesEndToEnd | src/FastTraceroute.cpp:28-112 | two engines with packets drawn separately, on one network whose replies are genuine and reach both in time among any harmless traffic, agree; no acceptance is assumed on either side |
| EndToEnd.TimelyFastAgreesEndToEnd | src/FastTraceroute.cpp:28-112 | with all probes registered by the last safe moment every finished run agrees |
| EndToEnd.RunBoth | src/SequentialTraceroute.cpp:22-74 | the two objects run one after the other, each with its own packets: when the traffic they recorded is that of one network and the fast one exits by count, their results agree |
| EndToEnd.AnsweredEndToEnd | src/FastTraceroute.cpp:28-112 | for any number of probes and any genuine replies to both engines' probes there are runs that meet all those hypotheses |

## Left out

- Packets.ComputePseudoheaderChecksum: the IPv6 branch is not modelled; the packet classes never reach it, and it reads the source address in place of the destination.
- SequentialTraceroute.BeginProbing: the clock reading of a success is that of the last receive; time spent between statements is not modelled.
- FastTraceroute.FastTraceroute.BeginProbing: an exception of the sender thread stops the sender and is not observed, as in the source.
- Addresses are compared as whole values of one family; the cross-family comparison of raw socket storage is not modelled.
- Socket system calls, polling, binding, resolving the source address and setting the ttl: the data sender is an environment with the assumptions above.
- Drawing random ports, ids and sequence numbers: they are parameters, and distinctness is a hypothesis where it matters.
- Parsing and printing of addresses and printing of results: foreign functions and display formatting.
- Thread creation, futures and the memory model: the mutex makes the lock regions atomic steps.
- Overflow of the 32-bit result counter and of 64-bit time values: the counter is bounded by the number of probes when a run starts with an empty queue.
