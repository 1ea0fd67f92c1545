// From a tick to /metrics: what src/http/ws.ts writes (140-168), the latest-per-pid query of
// src/timeseries/store.ts answers and src/timeseries/prometheus.ts counts (68-115).
module ScrapedTick {
  import opened Common
  import opened Timeseries
  import opened Prometheus
  import Pollers
  import SessionDiff

  type Entries = seq<(int, RefinedStatus)>

  // Sample k has this provider and this status.
  function Has(samples: seq<Sample>, provider: string, status: RefinedStatus): nat -> bool {
    (k: nat) => k < |samples| && samples[k].provider == provider && samples[k].status == status
  }

  // No sample of a provider and a status is counted twice or left out.
  lemma {:induction false} CountIsNumber(samples: seq<Sample>, provider: string, status: RefinedStatus)
    ensures Count(samples, provider, status) == HowMany(|samples|, Has(samples, provider, status))
  {
    if samples != [] {
      var init := samples[..|samples| - 1];
      CountIsNumber(init, provider, status);
      HowManySame(|init|, Has(init, provider, status), Has(samples, provider, status));
    }
  }

  // Who discovered the pid.
  function ProviderOf(providerByPid: map<int, string>, pid: int): string {
    if pid in providerByPid then providerByPid[pid] else "unknown"
  }

  // Entry k of the tick is a session of this provider in this status.
  function Listed(next: Entries, providerByPid: map<int, string>, provider: string, status: RefinedStatus)
    : nat -> bool
  {
    (k: nat) => k < |next| && ProviderOf(providerByPid, next[k].0) == provider && next[k].1 == status
  }

  predicate IsListed(next: Entries, pid: int) { exists k :: 0 <= k < |next| && next[k].0 == pid }

  predicate NewestOfItsPid(all: seq<Sample>, k: nat)
    requires k < |all|
  {
    forall j :: 0 <= j < |all| && all[j].pid == all[k].pid ==> all[j].ts <= all[k].ts
  }

  // Earlier row k is what was last seen of a session that the tick no longer sees, and it was
  // in this status.
  function Gone(earlier: seq<Sample>, next: Entries, provider: string, status: RefinedStatus): nat -> bool {
    (k: nat) => k < |earlier| && !IsListed(next, earlier[k].pid) && NewestOfItsPid(earlier, k)
                && earlier[k].provider == provider && earlier[k].status == status
  }

  // The clock has moved on since the rows the table has of the pids in this tick.
  ghost predicate ClockMovedOn(earlier: seq<Sample>, next: Entries, now: int) {
    forall k :: 0 <= k < |earlier| && IsListed(next, earlier[k].pid) ==> earlier[k].ts < now
  }

  // A tick's samples behind earlier ones.
  ghost predicate Recorded(
    earlier: seq<Sample>, batch: seq<Sample>, next: Entries, providerByPid: map<int, string>, now: int)
  {
    && SessionDiff.DistinctPids(next) && Pollers.Observed(batch, next, providerByPid, now)
    && ClockMovedOn(earlier, next, now)
  }

  // Of the rows before the tick the query keeps those of gone sessions; of the tick's, all.
  lemma WhoIsNewest(earlier: seq<Sample>, batch: seq<Sample>, next: Entries,
      providerByPid: map<int, string>, now: int, k: nat)
    requires Recorded(earlier, batch, next, providerByPid, now) && k < |earlier + batch|
    ensures HasMaxTs(earlier + batch, k) <==>
            k >= |earlier| || (!IsListed(next, earlier[k].pid) && NewestOfItsPid(earlier, k))
  {
    var all := earlier + batch;
    if k >= |earlier| {
      forall j | 0 <= j < |all| && all[j].pid == all[k].pid ensures all[j].ts <= all[k].ts {
        assert all[k] == batch[k - |earlier|];
        if j < |earlier| { assert IsListed(next, earlier[j].pid); }
      }
    } else if IsListed(next, earlier[k].pid) {
      var i :| 0 <= i < |next| && next[i].0 == earlier[k].pid;
      assert all[|earlier| + i] == batch[i];
    } else {
      assert forall j :: 0 <= j < |earlier| ==> all[j] == earlier[j];
      assert forall j :: |earlier| <= j < |all| ==> all[j] == batch[j - |earlier|];
    }
  }

  // Row k is in the answer, and has this provider and this status.
  function Answered(all: seq<Sample>, provider: string, status: RefinedStatus): nat -> bool {
    (k: nat) => k < |all| && HasMaxTs(all, k) && all[k].provider == provider && all[k].status == status
  }

  function HasBoth(provider: string, status: RefinedStatus): Sample -> bool {
    (x: Sample) => x.provider == provider && x.status == status
  }

  lemma AnswerCount(all: seq<Sample>, n: nat, provider: string, status: RefinedStatus)
    requires n <= |all|
    ensures Count(JoinLatest(all, n), provider, status) == HowMany(n, Answered(all, provider, status))
  {
    JoinIsFiltered(all, n);
    CountIsNumber(JoinLatest(all, n), provider, status);
    FilteredCount(all, InAnswer(all), n, HasBoth(provider, status), Answered(all, provider, status),
                  Has(JoinLatest(all, n), provider, status));
  }

  lemma AnswerSplits(earlier: seq<Sample>, batch: seq<Sample>, next: Entries,
      providerByPid: map<int, string>, now: int)
    requires Recorded(earlier, batch, next, providerByPid, now)
    ensures JoinLatest(earlier + batch, |earlier + batch|) == JoinLatest(earlier + batch, |earlier|) + batch
  {
    BatchInAnswer(earlier, batch, next, providerByPid, now);
    JoinIsFiltered(earlier + batch, |earlier + batch|);
    JoinIsFiltered(earlier + batch, |earlier|);
    FilteredAll(earlier + batch, InAnswer(earlier + batch), |earlier|, |earlier + batch|);
    EndIs(earlier, batch);
  }

  lemma EndIs<T>(a: seq<T>, b: seq<T>)
    ensures (a + b)[|a|..|a + b|] == b
  {
  }

  lemma BatchInAnswer(earlier: seq<Sample>, batch: seq<Sample>, next: Entries,
      providerByPid: map<int, string>, now: int)
    requires Recorded(earlier, batch, next, providerByPid, now)
    ensures forall k: nat :: |earlier| <= k < |earlier + batch| ==> InAnswer(earlier + batch)(k)
  {
    forall k: nat | |earlier| <= k < |earlier + batch| ensures InAnswer(earlier + batch)(k) {
      WhoIsNewest(earlier, batch, next, providerByPid, now, k);
    }
  }

  lemma GoneAnswers(earlier: seq<Sample>, batch: seq<Sample>, next: Entries,
      providerByPid: map<int, string>, now: int, provider: string, status: RefinedStatus)
    requires Recorded(earlier, batch, next, providerByPid, now)
    ensures HowMany(|earlier|, Answered(earlier + batch, provider, status)) ==
            HowMany(|earlier|, Gone(earlier, next, provider, status))
  {
    var p, q := Answered(earlier + batch, provider, status), Gone(earlier, next, provider, status);
    forall k: nat | k < |earlier| ensures p(k) == q(k) {
      WhoIsNewest(earlier, batch, next, providerByPid, now, k);
      assert (earlier + batch)[k] == earlier[k];
    }
    HowManySame(|earlier|, p, q);
  }

  lemma BatchCount(batch: seq<Sample>, next: Entries, providerByPid: map<int, string>, now: int, provider: string,
      status: RefinedStatus)
    requires Pollers.Observed(batch, next, providerByPid, now)
    ensures Count(batch, provider, status) == HowMany(|next|, Listed(next, providerByPid, provider, status))
  {
    CountIsNumber(batch, provider, status);
    HowManySame(|next|, Has(batch, provider, status), Listed(next, providerByPid, provider, status));
  }

  lemma CountAfterTick(earlier: seq<Sample>, batch: seq<Sample>, next: Entries,
      providerByPid: map<int, string>, now: int, provider: string, status: RefinedStatus)
    requires Recorded(earlier, batch, next, providerByPid, now)
    ensures Count(JoinLatest(earlier + batch, |earlier + batch|), provider, status)
         == HowMany(|next|, Listed(next, providerByPid, provider, status))
            + HowMany(|earlier|, Gone(earlier, next, provider, status))
  {
    AnswerSplits(earlier, batch, next, providerByPid, now);
    CountConcat(JoinLatest(earlier + batch, |earlier|), batch, provider, status);
    AnswerCount(earlier + batch, |earlier|, provider, status);
    GoneAnswers(earlier, batch, next, providerByPid, now, provider, status);
    BatchCount(batch, next, providerByPid, now, provider, status);
  }

  lemma {:induction false} PointsForCount(samples: seq<Sample>, providers: seq<string>, p: Point)
    requires p in PointsFor(samples, providers)
    ensures p.count == Count(samples, p.provider, p.status)
    decreases |providers|
  {
    var init, last := providers[..|providers| - 1], providers[|providers| - 1];
    if p in PointsFor(samples, init) {
      PointsForCount(samples, init, p);
    } else {
      assert p in PointsOf(samples, last);
    }
  }

  lemma PointAfterTick(earlier: seq<Sample>, batch: seq<Sample>, next: Entries,
      providerByPid: map<int, string>, now: int, p: Point)
    requires Recorded(earlier, batch, next, providerByPid, now) && next != []
    requires p in Points(JoinLatest(earlier + batch, |earlier + batch|))
    ensures p.count == HowMany(|next|, Listed(next, providerByPid, p.provider, p.status))
                       + HowMany(|earlier|, Gone(earlier, next, p.provider, p.status))
  {
    AnswerSplits(earlier, batch, next, providerByPid, now);
    PointsForCount(JoinLatest(earlier + batch, |earlier + batch|),
                   Providers(JoinLatest(earlier + batch, |earlier + batch|)), p);
    CountAfterTick(earlier, batch, next, providerByPid, now, p.provider, p.status);
  }

  // The row's number is that of the tick's entries with its provider and status, plus the gone
  // sessions last seen so; hence exactly the tick's number if and only if there is none.
  ghost predicate RowCounts(p: Point, next: Entries, providerByPid: map<int, string>, earlier: seq<Sample>) {
    && p.count == HowMany(|next|, Listed(next, providerByPid, p.provider, p.status))
                  + HowMany(|earlier|, Gone(earlier, next, p.provider, p.status))
    && (p.count == HowMany(|next|, Listed(next, providerByPid, p.provider, p.status)) <==>
          forall k: nat :: k < |earlier| ==> !Gone(earlier, next, p.provider, p.status)(k))
  }

  // From position `kept` on these are the tick's samples.
  ghost predicate EndsInTick(all: seq<Sample>, kept: nat, next: Entries, providerByPid: map<int, string>, now: int) {
    kept <= |all| && Recorded(all[..kept], all[kept..], next, providerByPid, now)
  }

  // Every row of /metrics over this table counts the tick behind the first `kept` samples.
  ghost predicate RowsCount(all: seq<Sample>, kept: nat, next: Entries, providerByPid: map<int, string>) {
    kept <= |all| && forall p :: p in Points(JoinLatest(all, |all|)) ==> RowCounts(p, next, providerByPid, all[..kept])
  }

  lemma TableAfterTick(all: seq<Sample>, kept: nat, next: Entries, providerByPid: map<int, string>, now: int)
    requires EndsInTick(all, kept, next, providerByPid, now) && next != []
    ensures RowsCount(all, kept, next, providerByPid)
  {
    assert all[..kept] + all[kept..] == all;
    forall p | p in Points(JoinLatest(all, |all|)) ensures RowCounts(p, next, providerByPid, all[..kept]) {
      PointAfterTick(all[..kept], all[kept..], next, providerByPid, now, p);
      HowManyNone(kept, Gone(all[..kept], next, p.provider, p.status));
    }
  }

  // So every row of /metrics counts after a tick whose samples reached the table.
  lemma TickIsScraped(before: seq<Row>, after: seq<Row>, next: SessionDiff.StatusMap,
      providerByPid: map<int, string>, now: int)
    requires Pollers.Appended(before, after, next, providerByPid, now) && next != []
    requires ClockMovedOn(Samples(before), next, now)
    ensures RowsCount(Samples(after), |after| - |next|, next, providerByPid)
  {
    var kept := AppendedIsRecorded(before, after, next, providerByPid, now);
    TableAfterTick(Samples(after), kept, next, providerByPid, now);
  }

  lemma AppendedIsRecorded(before: seq<Row>, after: seq<Row>, next: SessionDiff.StatusMap,
      providerByPid: map<int, string>, now: int) returns (kept: nat)
    requires Pollers.Appended(before, after, next, providerByPid, now) && ClockMovedOn(Samples(before), next, now)
    ensures kept == |after| - |next| && EndsInTick(Samples(after), kept, next, providerByPid, now)
  {
    kept := |after| - |next|;
    forall k | 0 <= k < kept ensures Samples(after)[k] == Samples(before)[|before| - kept + k] {
      assert after[..kept][k] == before[|before| - kept..][k];
    }
  }

  lemma RowsOfProvider(samples: seq<Sample>, provider: string, status: RefinedStatus)
    requires exists k :: 0 <= k < |samples| && samples[k].provider == provider
    ensures Point(provider, status, Count(samples, provider, status)) in Points(samples)
  {
    var i := ProviderIndex(Providers(samples), provider);
    var j := StatusIndex(status);
    FiveRowsPerProvider(samples, i, j);
    assert 5 * i + j < |Points(samples)|;
  }

  lemma StatusIndex(status: RefinedStatus) returns (j: nat)
    ensures j < 5 && [AwaitingUserInput, ToolPending, Crashed, Working, Idle][j] == status
  {
    j := match status
         case AwaitingUserInput => 0 case ToolPending => 1 case Crashed => 2 case Working => 3 case Idle => 4;
  }

  lemma ProviderIndex(providers: seq<string>, provider: string) returns (i: nat)
    requires provider in providers
    ensures i < |providers| && providers[i] == provider
  {
    i :| 0 <= i < |providers| && providers[i] == provider;
  }

  function Seen(pid: int, ts: int, status: RefinedStatus): Sample {
    Sample(ts, "claude", pid, status, None, None, None)
  }

  // A session that has ended is still counted after a tick that does not see it.
  lemma GoneSessionIsCounted()
    ensures var before, after := [Row(0, Seen(7, 5, Working))], [Row(0, Seen(7, 5, Working)), Row(1, Seen(8, 6, Idle))];
      && Pollers.Appended(before, after, [(8, Idle)], map[8 := "claude"], 6)
      && Point("claude", Working, 1) in Points(JoinLatest(Samples(after), 2))
  {
    OneAppended(Row(0, Seen(7, 5, Working)), Row(1, Seen(8, 6, Idle)), map[8 := "claude"]);
    BothCounted(Seen(7, 5, Working), Seen(8, 6, Idle));
    assert Samples([Row(0, Seen(7, 5, Working)), Row(1, Seen(8, 6, Idle))]) == [Seen(7, 5, Working), Seen(8, 6, Idle)];
  }

  lemma OneAppended(a: Row, b: Row, providerByPid: map<int, string>)
    requires b.sample.pid in providerByPid && b.sample.provider == providerByPid[b.sample.pid]
    requires b.sample == Sample(b.sample.ts, b.sample.provider, b.sample.pid, b.sample.status, None, None, None)
    ensures Pollers.Appended([a], [a, b], [(b.sample.pid, b.sample.status)], providerByPid, b.sample.ts)
  {
    assert [a, b][..1] == [a] == [a][0..];
    assert Samples([a, b])[1..] == [b.sample];
    assert Pollers.Observed([b.sample], [(b.sample.pid, b.sample.status)], providerByPid, b.sample.ts);
  }

  lemma BothCounted(a: Sample, b: Sample)
    requires a.pid != b.pid && (a.provider != b.provider || a.status != b.status)
    ensures Point(a.provider, a.status, 1) in Points(JoinLatest([a, b], 2))
  {
    BothAnswer(a, b);
    CountOfTwo(a, b);
    assert [a, b][0].provider == a.provider;
    RowsOfProvider([a, b], a.provider, a.status);
  }

  lemma BothAnswer(a: Sample, b: Sample)
    requires a.pid != b.pid
    ensures JoinLatest([a, b], 2) == [a, b]
  {
    assert HasMaxTs([a, b], 0) && HasMaxTs([a, b], 1);
    assert JoinLatest([a, b], 1) == [a];
  }

  lemma CountOfTwo(a: Sample, b: Sample)
    ensures Count([a, b], a.provider, a.status) == if b.provider == a.provider && b.status == a.status then 2 else 1
  {
    assert [a, b][..1] == [a] && [a][..0] == [];
    assert Count([a], a.provider, a.status) == 1;
  }
}
