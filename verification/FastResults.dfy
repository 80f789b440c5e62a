/** From the results of a run to the rows that `beginProbing` returns. */
module FastResults {
  import opened ProbeResults
  import opened Schedule
  import opened FastMachine
  import opened FastSafety

  /** The results logged for one ttl, in the order they were made. */
  function ResultsFor(log: seq<Resolved>, ttl: nat): seq<ProbeResult> {
    if log == [] then []
    else
      var last := log[|log| - 1];
      ResultsFor(log[..|log| - 1], ttl) + if last.probe.ttl == ttl then [last.result] else []
  }

  /** The map holds, in key order, exactly the logged results of each ttl that has any. */
  lemma {:induction false} TableMeaning(log: seq<Resolved>)
    ensures SortedByTtl(Table(log))
    ensures forall t: nat :: RowOf(Table(log), t) == ResultsFor(log, t)
    ensures forall t: nat :: HasKey(Table(log), t) <==> ResultsFor(log, t) != []
    ensures CurrentSize(Table(log)) == |log|
    decreases |log|
  {
    if log != [] {
      var n := |log| - 1;
      TableMeaning(log[..n]);
      PushBackIsMapUpdate(Table(log[..n]), log[n].probe.ttl, log[n].result);
    }
  }

  /** One result per logged label of that ttl. */
  lemma {:induction false} ResultsForCount(log: seq<Resolved>, ttl: nat)
    ensures |ResultsFor(log, ttl)| == |ForTtl(LogLabels(log), ttl)|
    decreases |log|
  {
    if log != [] {
      var n := |log| - 1;
      ResultsForCount(log[..n], ttl);
      assert LogLabels(log) == LogLabels(log[..n]) + [log[n].probe];
      ForTtlOfConcatenation(LogLabels(log[..n]), [log[n].probe], ttl);
    }
  }

  lemma SubMultisetSize(a: multiset<Label>, b: multiset<Label>)
    requires a <= b
    ensures |a| <= |b|
  {
    assert b == a + (b - a);
  }

  /** In every reachable state, no ttl has more results than retries, and ttls out of range have none. */
  lemma AtMostRetriesPerTtl(c: Config, launch: int, acts: seq<Action>, s: State, ttl: nat)
    requires Exec(c, Init([], launch), acts) == Some(s)
    ensures |RowOf(Table(s.log), ttl)| <= if c.ttlBegin <= ttl <= c.ttlEnd then c.retries else 0
  {
    hide Exec;
    RunConserves(c, launch, acts, s);
    TableMeaning(s.log);
    ResultsForCount(s.log, ttl);
    var logged, all := LogLabels(s.log), Probes(c);
    assert all == all[..s.registered] + all[s.registered..];
    assert multiset(all) == multiset(all[..s.registered]) + multiset(all[s.registered..]);
    forall l ensures multiset(ForTtl(logged, ttl))[l] <= multiset(ForTtl(all, ttl))[l] {
      ForTtlCounts(logged, ttl, l);
      ForTtlCounts(all, ttl, l);
    }
    SubMultisetSize(multiset(ForTtl(logged, ttl)), multiset(ForTtl(all, ttl)));
    assert |ForTtl(logged, ttl)| == |multiset(ForTtl(logged, ttl))|;
    assert |ForTtl(all, ttl)| == |multiset(ForTtl(all, ttl))|;
    ForTtlOfSchedule(c.ttlBegin, c.ttlEnd, c.retries, ttl);
  }

  /** A log of every scheduled probe gives exactly `retries` results for each ttl in range and none elsewhere. */
  lemma CompleteRows(c: Config, log: seq<Resolved>, ttl: nat)
    requires multiset(LogLabels(log)) == multiset(Probes(c))
    ensures |ResultsFor(log, ttl)| == if c.ttlBegin <= ttl <= c.ttlEnd then c.retries else 0
  {
    ResultsForCount(log, ttl);
    ForTtlOfPermutation(LogLabels(log), Probes(c), ttl);
    ForTtlOfSchedule(c.ttlBegin, c.ttlEnd, c.retries, ttl);
  }

  /** A sorted table whose keys are a range lists that range. */
  lemma {:induction false} SortedRange(m: seq<TracerouteResult>, b: nat, e: nat)
    requires SortedByTtl(m) && b <= e + 1
    requires forall t: nat :: HasKey(m, t) <==> b <= t <= e
    ensures |m| == e + 1 - b
    ensures forall j :: 0 <= j < |m| ==> m[j].ttl == b + j
    decreases e + 1 - b
  {
    if b > e {
      assert m != [] ==> HasKey(m, m[0].ttl);
    } else {
      assert HasKey(m, b);
      var i :| 0 <= i < |m| && m[i].ttl == b;
      assert HasKey(m, m[0].ttl);
      assert i == 0;
      forall t: nat ensures HasKey(m[1..], t) <==> b + 1 <= t <= e {
        KeysOfCons(m, t);
        if HasKey(m[1..], t) {
          var k :| 0 <= k < |m[1..]| && m[1..][k].ttl == t;
          assert m[k + 1].ttl == t;
        }
      }
      SortedRange(m[1..], b + 1, e);
      assert forall j :: 0 < j < |m| ==> m[j] == m[1..][j - 1];
    }
  }

  /** The full table of a complete run: one row per ttl in order, `retries` results each. */
  lemma CompleteTable(c: Config, log: seq<Resolved>)
    requires multiset(LogLabels(log)) == multiset(Probes(c))
    requires c.retries >= 1 && c.ttlBegin <= c.ttlEnd
    ensures |Table(log)| == c.ttlEnd + 1 - c.ttlBegin
    ensures forall j :: 0 <= j < |Table(log)| ==>
              && Table(log)[j].ttl == c.ttlBegin + j
              && Table(log)[j].probeResults == ResultsFor(log, c.ttlBegin + j)
              && |Table(log)[j].probeResults| == c.retries
  {
    var m := Table(log);
    TableMeaning(log);
    hide Table, SortedByTtl, HasKey, RowOf, ResultsFor, Probes, LogLabels;
    forall t: nat ensures HasKey(m, t) <==> c.ttlBegin <= t <= c.ttlEnd {
      CompleteRows(c, log, t);
    }
    SortedRange(m, c.ttlBegin, c.ttlEnd);
    forall j | 0 <= j < |m|
      ensures m[j].probeResults == ResultsFor(log, c.ttlBegin + j) && |m[j].probeResults| == c.retries
    {
      EntryIsRow(m, j);
      CompleteRows(c, log, c.ttlBegin + j);
    }
  }
}
