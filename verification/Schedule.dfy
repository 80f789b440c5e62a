/** The order in which both engines send their probes. */
module Schedule {

  datatype Label = Label(ttl: nat, retry: nat)

  predicate Before(a: Label, b: Label) {
    a.ttl < b.ttl || (a.ttl == b.ttl && a.retry < b.retry)
  }

  /** The probes of one ttl, in order. */
  function Row(ttl: nat, retries: nat): seq<Label> {
    seq(retries, (i: nat) => Label(ttl, i))
  }

  /** The probes of the nested ttl and retry loops, in order. */
  function Labels(ttlBegin: nat, ttlEnd: nat, retries: nat): seq<Label>
    decreases ttlEnd + 1 - ttlBegin
  {
    if ttlBegin > ttlEnd then [] else Row(ttlBegin, retries) + Labels(ttlBegin + 1, ttlEnd, retries)
  }

  /** A label is scheduled exactly when its ttl and retry are in range. */
  lemma {:induction false} LabelScheduled(b: nat, e: nat, n: nat, l: Label)
    ensures l in Labels(b, e, n) <==> b <= l.ttl <= e && l.retry < n
    decreases e + 1 - b
  {
    if b <= e {
      LabelScheduled(b + 1, e, n, l);
      if l.ttl == b && l.retry < n {
        assert Row(b, n)[l.retry] == l;
      }
    }
  }

  /** The schedule is strictly increasing in (ttl, retry), so no label occurs twice. */
  lemma {:induction false} ScheduleIncreasing(b: nat, e: nat, n: nat)
    ensures forall i, j :: 0 <= i < j < |Labels(b, e, n)| ==> Before(Labels(b, e, n)[i], Labels(b, e, n)[j])
    decreases e + 1 - b
  {
    if b <= e {
      ScheduleIncreasing(b + 1, e, n);
      var rest := Labels(b + 1, e, n);
      forall j | 0 <= j < |rest| ensures b < rest[j].ttl {
        LabelScheduled(b + 1, e, n, rest[j]);
      }
    }
  }

  lemma {:induction false} ScheduleLength(b: nat, e: nat, n: nat)
    requires b <= e + 1
    ensures |Labels(b, e, n)| == (e + 1 - b) * n
    decreases e + 1 - b
  {
    if b <= e {
      ScheduleLength(b + 1, e, n);
      assert (e + 1 - b) * n == n + (e - b) * n;
    } else {
      assert (e + 1 - b) * n == 0;
    }
  }

  // ----- The probes of one ttl -----

  function ForTtl(ls: seq<Label>, ttl: nat): seq<Label> {
    if ls == [] then []
    else if ls[0].ttl == ttl then [ls[0]] + ForTtl(ls[1..], ttl)
    else ForTtl(ls[1..], ttl)
  }

  lemma {:induction false} ForTtlOfConcatenation(a: seq<Label>, b: seq<Label>, ttl: nat)
    ensures ForTtl(a + b, ttl) == ForTtl(a, ttl) + ForTtl(b, ttl)
    decreases a
  {
    if a == [] {
      assert a + b == b;
    } else {
      assert (a + b)[1..] == a[1..] + b;
      ForTtlOfConcatenation(a[1..], b, ttl);
    }
  }

  /** Filtering by ttl keeps the multiplicity of the labels of that ttl and drops the others. */
  lemma {:induction false} ForTtlCounts(ls: seq<Label>, ttl: nat, l: Label)
    ensures multiset(ForTtl(ls, ttl))[l] == if l.ttl == ttl then multiset(ls)[l] else 0
    decreases ls
  {
    if ls != [] {
      ForTtlCounts(ls[1..], ttl, l);
      assert ls == [ls[0]] + ls[1..];
    }
  }

  /** Hence the labels of one ttl in a permutation are a permutation of the labels of that ttl. */
  lemma ForTtlOfPermutation(a: seq<Label>, b: seq<Label>, ttl: nat)
    requires multiset(a) == multiset(b)
    ensures multiset(ForTtl(a, ttl)) == multiset(ForTtl(b, ttl))
    ensures |ForTtl(a, ttl)| == |ForTtl(b, ttl)|
  {
    forall l ensures multiset(ForTtl(a, ttl))[l] == multiset(ForTtl(b, ttl))[l] {
      ForTtlCounts(a, ttl, l);
      ForTtlCounts(b, ttl, l);
    }
    assert multiset(ForTtl(a, ttl)) == multiset(ForTtl(b, ttl));
    assert |ForTtl(a, ttl)| == |multiset(ForTtl(a, ttl))|;
  }

  lemma {:induction false} ForTtlOfUniform(ls: seq<Label>, ttl: nat, same: bool)
    requires forall l :: l in ls ==> (l.ttl == ttl <==> same)
    ensures ForTtl(ls, ttl) == if same then ls else []
    decreases ls
  {
    if ls != [] {
      ForTtlOfUniform(ls[1..], ttl, same);
      assert ls == [ls[0]] + ls[1..];
    }
  }

  /** The scheduled probes of a ttl in range are its row; out of range there are none. */
  lemma {:induction false} ForTtlOfSchedule(b: nat, e: nat, n: nat, ttl: nat)
    ensures ForTtl(Labels(b, e, n), ttl) == if b <= ttl <= e then Row(ttl, n) else []
    decreases e + 1 - b
  {
    if b <= e {
      ForTtlOfSchedule(b + 1, e, n, ttl);
      ForTtlOfConcatenation(Row(b, n), Labels(b + 1, e, n), ttl);
      ForTtlOfUniform(Row(b, n), ttl, b == ttl);
    }
  }
}
