// What the session pollers write to the store, tick by tick (src/http/ws.ts:140-168), and
// what the store then answers.
module PolledTable {
  import opened Common
  import opened Timeseries
  import SessionDiff
  import opened Pollers

  // What one tick reads, and the clock when it does.
  datatype Reading = Reading(next: SessionDiff.StatusMap, providerByPid: map<int, string>, now: int)

  function SamplesOf(r: Reading): seq<Sample> { Batch(r.next, r.providerByPid, r.now) }

  // The rows that ticks write one after another.
  function WrittenBy(readings: seq<Reading>): seq<Sample> { Flat(SamplesOf, readings) }

  ghost predicate Lists(r: Reading, pid: int) { exists i :: 0 <= i < |r.next| && r.next[i].0 == pid }

  // The clock has moved on whenever two ticks list the same pid.
  ghost predicate Later(a: Reading, b: Reading) {
    forall pid :: Lists(a, pid) && Lists(b, pid) ==> a.now < b.now
  }

  ghost predicate ClockAdvances(readings: seq<Reading>) {
    forall i, j :: 0 <= i < j < |readings| ==> Later(readings[i], readings[j])
  }

  lemma SampleListed(r: Reading, x: Sample)
    ensures x in SamplesOf(r) ==> Lists(r, x.pid) && x.ts == r.now
  {
    BatchAt(r.next, r.providerByPid, r.now);
  }

  lemma ListedSample(r: Reading, pid: int) returns (x: Sample)
    requires Lists(r, pid)
    ensures x in SamplesOf(r) && x.pid == pid && x.ts == r.now
  {
    BatchAt(r.next, r.providerByPid, r.now);
    var i :| 0 <= i < |r.next| && r.next[i].0 == pid;
    x := SamplesOf(r)[i];
  }

  // All of a's samples are older than b's of the same pid.
  ghost predicate Precedes(a: seq<Sample>, b: seq<Sample>) {
    forall x, y :: x in a && y in b && x.pid == y.pid ==> x.ts < y.ts
  }

  lemma AdvanceConcat(a: seq<Sample>, b: seq<Sample>)
    ensures TimestampsAdvance(a + b) <==> TimestampsAdvance(a) && TimestampsAdvance(b) && Precedes(a, b)
  {
    if TimestampsAdvance(a + b) {
      forall i, j | 0 <= i < j < |a| && a[i].pid == a[j].pid ensures a[i].ts < a[j].ts {
        assert (a + b)[i] == a[i] && (a + b)[j] == a[j];
      }
      forall i, j | 0 <= i < j < |b| && b[i].pid == b[j].pid ensures b[i].ts < b[j].ts {
        assert (a + b)[|a| + i] == b[i] && (a + b)[|a| + j] == b[j];
      }
      forall x, y | x in a && y in b && x.pid == y.pid ensures x.ts < y.ts {
        var i :| 0 <= i < |a| && a[i] == x;
        var j :| 0 <= j < |b| && b[j] == y;
        assert (a + b)[i] == x && (a + b)[|a| + j] == y;
      }
    }
  }

  lemma BatchAdvances(r: Reading)
    ensures TimestampsAdvance(SamplesOf(r))
  {
    BatchAt(r.next, r.providerByPid, r.now);
  }

  lemma LaterIsPrecedes(a: Reading, b: Reading)
    ensures Precedes(SamplesOf(a), SamplesOf(b)) <==> Later(a, b)
  {
    if Later(a, b) {
      forall x, y | x in SamplesOf(a) && y in SamplesOf(b) && x.pid == y.pid ensures x.ts < y.ts {
        SampleListed(a, x);
        SampleListed(b, y);
      }
    } else {
      var pid :| Lists(a, pid) && Lists(b, pid) && a.now >= b.now;
      var x := ListedSample(a, pid);
      var y := ListedSample(b, pid);
    }
  }

  lemma PrecedesConcat(a: seq<Sample>, more: seq<Sample>, b: seq<Sample>)
    ensures Precedes(a + more, b) <==> Precedes(a, b) && Precedes(more, b)
  {
  }

  lemma {:induction false} AllPrecede(readings: seq<Reading>, b: seq<Sample>)
    ensures Precedes(WrittenBy(readings), b) <==>
            forall i :: 0 <= i < |readings| ==> Precedes(SamplesOf(readings[i]), b)
  {
    if readings != [] {
      var init, last := readings[..|readings| - 1], readings[|readings| - 1];
      AllPrecede(init, b);
      PrecedesConcat(WrittenBy(init), SamplesOf(last), b);
      assert forall i :: 0 <= i < |init| ==> init[i] == readings[i];
    }
  }

  // The poller's rows have timestamps that advance per pid exactly when the clock moved on
  // between any two ticks that list a pid in common.
  lemma {:induction false} RowsAdvanceExactlyWhen(readings: seq<Reading>)
    ensures TimestampsAdvance(WrittenBy(readings)) <==> ClockAdvances(readings)
  {
    if readings != [] {
      RowsAdvanceExactlyWhen(readings[..|readings| - 1]);
      RowsNext(readings[..|readings| - 1], readings[|readings| - 1]);
      ClockNext(readings[..|readings| - 1], readings[|readings| - 1]);
      assert readings[..|readings| - 1] + [readings[|readings| - 1]] == readings;
    }
  }

  lemma RowsNext(readings: seq<Reading>, r: Reading)
    ensures TimestampsAdvance(WrittenBy(readings + [r])) <==>
            TimestampsAdvance(WrittenBy(readings)) && LaterThanAll(readings, r)
  {
    assert (readings + [r])[..|readings|] == readings;
    AdvanceConcat(WrittenBy(readings), SamplesOf(r));
    BatchAdvances(r);
    AllEarlier(readings, r);
  }

  ghost predicate LaterThanAll(readings: seq<Reading>, r: Reading) {
    forall i :: 0 <= i < |readings| ==> Later(readings[i], r)
  }

  lemma AllEarlier(readings: seq<Reading>, r: Reading)
    ensures Precedes(WrittenBy(readings), SamplesOf(r)) <==> LaterThanAll(readings, r)
  {
    AllPrecede(readings, SamplesOf(r));
    forall i | 0 <= i < |readings|
      ensures Precedes(SamplesOf(readings[i]), SamplesOf(r)) <==> Later(readings[i], r)
    {
      LaterIsPrecedes(readings[i], r);
    }
  }

  lemma ClockNext(readings: seq<Reading>, r: Reading)
    ensures ClockAdvances(readings + [r]) <==> ClockAdvances(readings) && LaterThanAll(readings, r)
  {
    if ClockAdvances(readings + [r]) {
      forall i, j | 0 <= i < j < |readings| ensures Later(readings[i], readings[j]) {
        assert (readings + [r])[i] == readings[i] && (readings + [r])[j] == readings[j];
      }
      forall i | 0 <= i < |readings| ensures Later(readings[i], r) {
        assert (readings + [r])[i] == readings[i] && (readings + [r])[|readings|] == r;
      }
    }
  }

  // What pollers do to the table: write a tick's batch, and prune.
  datatype TableUse = Polled(reading: Reading) | Pruned(deleted: nat)

  function OpOf(use: TableUse): Op {
    match use case Polled(r) => Write(SamplesOf(r)) case Pruned(n) => Prune(n)
  }

  function OpsOf(uses: seq<TableUse>): (r: seq<Op>)
    ensures |r| == |uses|
  {
    seq(|uses|, i requires 0 <= i < |uses| => OpOf(uses[i]))
  }

  function ReadingOf(use: TableUse): seq<Reading> { if use.Polled? then [use.reading] else [] }

  // What has been written, by an earlier daemon on the same file and since.
  lemma {:induction false} WrittenIs(earlier: seq<Reading>, uses: seq<TableUse>)
    ensures Replay(History(WrittenBy(earlier), WrittenBy(earlier)), OpsOf(uses)).written ==
            WrittenBy(earlier + Flat(ReadingOf, uses))
  {
    if uses == [] {
      assert earlier + [] == earlier;
    } else {
      var init, last := uses[..|uses| - 1], uses[|uses| - 1];
      WrittenIs(earlier, init);
      assert OpsOf(uses)[..|uses| - 1] == OpsOf(init);
      WrittenNext(earlier + Flat(ReadingOf, init), last);
      ConcatAssoc(earlier, Flat(ReadingOf, init), ReadingOf(last));
    }
  }

  lemma WrittenNext(readings: seq<Reading>, use: TableUse)
    ensures WrittenBy(readings + ReadingOf(use)) ==
            WrittenBy(readings) + if use.Polled? then SamplesOf(use.reading) else []
  {
    if use.Polled? {
      assert (readings + [use.reading])[..|readings|] == readings;
    } else {
      assert readings + [] == readings;
    }
  }

  // So a table that ticks write and prune answers every pid it still has a row of with the
  // last sample ever written for it, whenever the clock moved on between ticks with a pid in
  // common.
  lemma PolledTableAnswersLastWritten(earlier: seq<Reading>, uses: seq<TableUse>, pid: int)
    requires ClockAdvances(earlier + Flat(ReadingOf, uses))
    ensures var h := Replay(History(WrittenBy(earlier), WrittenBy(earlier)), OpsOf(uses));
            if exists i :: 0 <= i < |h.table| && h.table[i].pid == pid
            then pid in LastWritten(h.written)
                && OfPid(JoinLatest(h.table, |h.table|), pid) == [LastWritten(h.written)[pid]]
            else OfPid(JoinLatest(h.table, |h.table|), pid) == []
  {
    WrittenIs(earlier, uses);
    RowsAdvanceExactlyWhen(earlier + Flat(ReadingOf, uses));
    RetentionNeverChangesTheAnswer(WrittenBy(earlier), OpsOf(uses), pid);
  }
}
