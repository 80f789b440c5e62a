/**
 Probe results, the saturating time arithmetic both engines use, and the table
 of results by ttl.
 */
module ProbeResults {
  import opened Headers

  datatype Option<+T> = None | Some(value: T)

  datatype ProbeResult = ProbeResult(success: bool, waitedFor: int, responseSender: Option<SocketAddress>)

  datatype TracerouteResult = TracerouteResult(ttl: nat, probeResults: seq<ProbeResult>)

  function FailedProbe(waitedFor: int): ProbeResult {
    ProbeResult(false, waitedFor, None)
  }

  function SuccessProbe(waitedFor: int, sender: SocketAddress): ProbeResult {
    ProbeResult(true, waitedFor, Some(sender))
  }

  // ----- Time, in microseconds -----

  const MIN_TIME_WAIT_FOR_RESPONSE := 10

  function TimePassed(now: int, then_: int): int {
    now - then_
  }

  /** `getTimeLeft`: never negative once time has passed. */
  function TimeLeft(now: int, then_: int, timeout: nat): int {
    if TimePassed(now, then_) > timeout then 0 else timeout - TimePassed(now, then_)
  }

  /** `duration_cast<milliseconds>`, back in microseconds. */
  function WholeMilliseconds(us: nat): (truncated: nat)
    ensures us - 999 <= truncated <= us
  {
    us / 1000 * 1000
  }

  /** The longest one call of `tryReceiving` takes when it is asked to wait `us`, truncated to milliseconds. */
  function MaxReceiveTime(us: nat): nat {
    if us < 1000 then 1 else WholeMilliseconds(us)
  }

  // ----- The ordered map from ttl to results -----

  // std::map keeps its keys in order, so it is modelled as the sequence of its entries.

  predicate SortedByTtl(m: seq<TracerouteResult>) {
    forall i, j :: 0 <= i < j < |m| ==> m[i].ttl < m[j].ttl
  }

  /** `m[ttl].push_back(r)`. */
  function PushBack(m: seq<TracerouteResult>, ttl: nat, r: ProbeResult): seq<TracerouteResult> {
    if m == [] || ttl < m[0].ttl then [TracerouteResult(ttl, [r])] + m
    else if ttl == m[0].ttl then [TracerouteResult(ttl, m[0].probeResults + [r])] + m[1..]
    else [m[0]] + PushBack(m[1..], ttl, r)
  }

  /** The results stored under a key; none when it is absent. */
  function RowOf(m: seq<TracerouteResult>, ttl: nat): seq<ProbeResult> {
    if m == [] then []
    else if m[0].ttl == ttl then m[0].probeResults
    else RowOf(m[1..], ttl)
  }

  predicate HasKey(m: seq<TracerouteResult>, ttl: nat) {
    exists i :: 0 <= i < |m| && m[i].ttl == ttl
  }

  /** `getCurrentSize`. */
  function CurrentSize(m: seq<TracerouteResult>): nat {
    if m == [] then 0 else |m[0].probeResults| + CurrentSize(m[1..])
  }

  /** Appending under a key keeps the order, adds that key and no other, and changes that row only. */
  lemma {:induction false} PushBackIsMapUpdate(m: seq<TracerouteResult>, ttl: nat, r: ProbeResult)
    requires SortedByTtl(m)
    ensures SortedByTtl(PushBack(m, ttl, r))
    ensures forall t: nat :: HasKey(PushBack(m, ttl, r), t) <==> t == ttl || HasKey(m, t)
    ensures forall t: nat :: RowOf(PushBack(m, ttl, r), t) == RowOf(m, t) + if t == ttl then [r] else []
    ensures CurrentSize(PushBack(m, ttl, r)) == CurrentSize(m) + 1
    decreases m
  {
    var n := PushBack(m, ttl, r);
    if m == [] || ttl < m[0].ttl {
      assert n[1..] == m;
      AbsentBelow(m, ttl);
      forall t: nat ensures HasKey(n, t) <==> t == ttl || HasKey(m, t) {
        KeysOfCons(n, t);
      }
    } else if ttl == m[0].ttl {
      assert n[1..] == m[1..];
      forall t: nat ensures HasKey(n, t) <==> t == ttl || HasKey(m, t) {
        KeysOfCons(n, t);
        KeysOfCons(m, t);
      }
    } else {
      PushBackIsMapUpdate(m[1..], ttl, r);
      PushBackInTail(m, ttl, r);
    }
  }

  lemma PushBackInTail(m: seq<TracerouteResult>, ttl: nat, r: ProbeResult)
    requires SortedByTtl(m) && m != [] && ttl > m[0].ttl
    requires SortedByTtl(PushBack(m[1..], ttl, r))
    requires forall t: nat :: HasKey(PushBack(m[1..], ttl, r), t) <==> t == ttl || HasKey(m[1..], t)
    ensures SortedByTtl(PushBack(m, ttl, r))
    ensures forall t: nat :: HasKey(PushBack(m, ttl, r), t) <==> t == ttl || HasKey(m, t)
    ensures PushBack(m, ttl, r)[0] == m[0] && PushBack(m, ttl, r)[1..] == PushBack(m[1..], ttl, r)
  {
    var tail := PushBack(m[1..], ttl, r);
    var n := [m[0]] + tail;
    assert PushBack(m, ttl, r) == n && n[1..] == tail;
    hide PushBack;
    forall t: nat ensures HasKey(n, t) <==> t == ttl || HasKey(m, t) {
      KeysOfCons(n, t);
      KeysOfCons(m, t);
    }
    forall j | 0 <= j < |tail| ensures m[0].ttl < tail[j].ttl {
      assert HasKey(tail, tail[j].ttl);
    }
  }

  lemma KeysOfCons(m: seq<TracerouteResult>, t: nat)
    requires m != []
    ensures HasKey(m, t) <==> m[0].ttl == t || HasKey(m[1..], t)
  {
    if HasKey(m, t) && m[0].ttl != t {
      var i :| 0 <= i < |m| && m[i].ttl == t;
      assert m[1..][i - 1].ttl == t;
    }
    if HasKey(m[1..], t) {
      var i :| 0 <= i < |m[1..]| && m[1..][i].ttl == t;
      assert m[i + 1].ttl == t;
    }
  }

  lemma {:induction false} AbsentBelow(m: seq<TracerouteResult>, ttl: nat)
    requires SortedByTtl(m) && (m == [] || ttl < m[0].ttl)
    ensures RowOf(m, ttl) == []
  {
    if m != [] {
      AbsentBelow(m[1..], ttl);
    }
  }

  /** In a sorted table the entry at an index holds the row of its key. */
  lemma {:induction false} EntryIsRow(m: seq<TracerouteResult>, j: nat)
    requires SortedByTtl(m) && j < |m|
    ensures m[j].probeResults == RowOf(m, m[j].ttl)
  {
    if j > 0 {
      EntryIsRow(m[1..], j - 1);
      assert m[0].ttl < m[j].ttl;
    }
  }

  /** Sorting a table whose keys are already in order does nothing: any sorted permutation is the table. */
  lemma {:induction false} SortLeavesSortedTable(m: seq<TracerouteResult>, sorted: seq<TracerouteResult>)
    requires SortedByTtl(m)
    requires multiset(sorted) == multiset(m)
    requires forall i, j :: 0 <= i < j < |sorted| ==> sorted[i].ttl <= sorted[j].ttl
    ensures sorted == m
    decreases m
  {
    assert |sorted| == |multiset(sorted)| == |multiset(m)| == |m|;
    if m != [] {
      SmallestComesFirst(m, sorted);
      TailsAgree(m, sorted);
      SortLeavesSortedTable(m[1..], sorted[1..]);
      assert m == [m[0]] + m[1..] && sorted == [sorted[0]] + sorted[1..];
    }
  }

  lemma SmallestComesFirst(m: seq<TracerouteResult>, sorted: seq<TracerouteResult>)
    requires m != [] && sorted != [] && SortedByTtl(m)
    requires multiset(sorted) == multiset(m)
    requires forall i, j :: 0 <= i < j < |sorted| ==> sorted[i].ttl <= sorted[j].ttl
    ensures sorted[0] == m[0]
  {
    assert m[0] in multiset(sorted) && sorted[0] in multiset(m);
    var i :| 0 <= i < |m| && m[i] == sorted[0];
    var j :| 0 <= j < |sorted| && sorted[j] == m[0];
    assert i == 0;
  }

  lemma TailsAgree(m: seq<TracerouteResult>, sorted: seq<TracerouteResult>)
    requires m != [] && sorted != [] && sorted[0] == m[0]
    requires multiset(sorted) == multiset(m)
    ensures multiset(sorted[1..]) == multiset(m[1..])
  {
    assert m == [m[0]] + m[1..] && sorted == [sorted[0]] + sorted[1..];
    assert multiset(m[1..]) == multiset(m) - multiset{m[0]};
    assert multiset(sorted[1..]) == multiset(sorted) - multiset{m[0]};
  }

  // ----- Cutting the results after the destination -----

  predicate RepliedFrom(row: seq<ProbeResult>, destination: SocketAddress) {
    exists r :: r in row && r.responseSender == Some(destination)
  }

  /** The results up to and including the first row with a reply from the destination. */
  function CutAfterDestination(rs: seq<TracerouteResult>, destination: SocketAddress): seq<TracerouteResult> {
    if rs == [] then []
    else if RepliedFrom(rs[0].probeResults, destination) then [rs[0]]
    else [rs[0]] + CutAfterDestination(rs[1..], destination)
  }

  /** What the cut means: a prefix, reached in its last row at most, and shorter only when reached there. */
  lemma {:induction false} CutMeaning(rs: seq<TracerouteResult>, destination: SocketAddress)
    ensures var cut := CutAfterDestination(rs, destination);
            && cut <= rs
            && (forall j :: 0 <= j < |cut| - 1 ==> !RepliedFrom(cut[j].probeResults, destination))
            && (|cut| < |rs| ==> cut != [] && RepliedFrom(cut[|cut| - 1].probeResults, destination))
    decreases rs
  {
    if rs != [] && !RepliedFrom(rs[0].probeResults, destination) {
      CutMeaning(rs[1..], destination);
      var cut := CutAfterDestination(rs, destination);
      assert cut[1..] == CutAfterDestination(rs[1..], destination);
      assert forall j :: 0 < j < |cut| ==> cut[j] == cut[1..][j - 1];
    }
  }

  /** Those facts determine the cut, so it is the only such prefix. */
  lemma CutUnique(rs: seq<TracerouteResult>, destination: SocketAddress, cut: seq<TracerouteResult>)
    requires cut <= rs
    requires forall j :: 0 <= j < |cut| - 1 ==> !RepliedFrom(cut[j].probeResults, destination)
    requires |cut| < |rs| ==> cut != [] && RepliedFrom(cut[|cut| - 1].probeResults, destination)
    ensures cut == CutAfterDestination(rs, destination)
  {
    CutMeaning(rs, destination);
    var other := CutAfterDestination(rs, destination);
    assert forall j :: 0 <= j < |cut| ==> cut[j] == rs[j];
    assert forall j :: 0 <= j < |other| ==> other[j] == rs[j];
    assert !(|cut| < |other|) && !(|other| < |cut|);
  }

  /** The tail of `receiveAndValidate`: find the first row with a reply from the target, erase what follows it. */
  method FinishResults(table: seq<TracerouteResult>, destination: SocketAddress) returns (results: seq<TracerouteResult>)
    ensures results == CutAfterDestination(table, destination)
  {
    results := table;
    var it := 0;
    while it < |results| && !RepliedFrom(results[it].probeResults, destination)
      invariant 0 <= it <= |results|
      invariant forall j :: 0 <= j < it ==> !RepliedFrom(results[j].probeResults, destination)
    {
      it := it + 1;
    }
    if |results| - it > 0 {
      results := results[..it + 1];
    }
    CutUnique(table, destination, results);
  }

  /** `getCurrentSize` is a fold over the rows. */
  method ComputeCurrentSize(table: seq<TracerouteResult>) returns (total: nat)
    ensures total == CurrentSize(table)
  {
    total := 0;
    assert table[0..] == table;
    for i := 0 to |table|
      invariant total + CurrentSize(table[i..]) == CurrentSize(table)
    {
      assert table[i..][1..] == table[i + 1..];
      total := total + |table[i].probeResults|;
    }
  }
}
