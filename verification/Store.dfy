// src/timeseries/store.ts: the bounded, pruned table of samples.
//
// A SQLite table is a sequence of rows in insertion order. A statement that
// SQLite may refuse (disk full, locked) is a position at which the call throws.
module Timeseries {
  import opened Common

  const PRUNE_BATCH := 1000

  datatype Sample = Sample(
    ts: int, provider: string, pid: int, status: RefinedStatus,
    turnCount: Option<int>, toolCount: Option<int>, lastWriteAge: Option<int>)

  datatype Row = Row(id: nat, sample: Sample)

  // ---------------------------------------------------------------- the table

  ghost predicate IdsAscending(rows: seq<Row>) {
    forall i, j :: 0 <= i < j < |rows| ==> rows[i].id < rows[j].id
  }

  // Inserting samples one after the other under AUTOINCREMENT.
  function Inserted(samples: seq<Sample>, firstId: nat): seq<Row> {
    seq(|samples|, i requires 0 <= i < |samples| => Row(firstId + i, samples[i]))
  }

  function Samples(rows: seq<Row>): (r: seq<Sample>)
    ensures |r| == |rows|
    ensures forall i :: 0 <= i < |rows| ==> r[i] == rows[i].sample
  {
    seq(|rows|, i requires 0 <= i < |rows| => rows[i].sample)
  }

  // DELETE ... WHERE id IN (SELECT id ... ORDER BY id ASC LIMIT n).
  function DeleteOldest(rows: seq<Row>, n: nat): seq<Row> {
    if n >= |rows| then [] else rows[n..]
  }

  // What retention is for: the newest maxRows rows, in one step.
  function KeepNewest(rows: seq<Row>, maxRows: int): seq<Row> {
    if |rows| <= maxRows then rows
    else if maxRows <= 0 then []
    else rows[|rows| - maxRows..]
  }

  function Sum(xs: seq<nat>): nat {
    if xs == [] then 0 else xs[0] + Sum(xs[1..])
  }

  function Min(a: int, b: int): int { if a < b then a else b }

  // The rows deleted by each statement of one prune. Below a negative cap a last statement
  // deletes nothing and ends the loop.
  function BatchSizes(count: nat, maxRows: int): seq<nat> {
    if count <= maxRows then [] else
    var changes := Min(Min(PRUNE_BATCH, count - maxRows), count);
    [changes] + if changes == 0 then [] else BatchSizes(count - changes, maxRows)
  }

  // One prune deletes exactly the overflow, in batches of at most 1000 rows, and with
  // a cap of at least zero in as few statements as that allows.
  lemma {:induction false} BatchesDeleteTheOverflow(count: nat, maxRows: int)
    ensures Sum(BatchSizes(count, maxRows)) ==
            if count <= maxRows then 0 else if 0 <= maxRows then count - maxRows else count
    ensures forall i :: 0 <= i < |BatchSizes(count, maxRows)| ==> BatchSizes(count, maxRows)[i] <= 1000
    ensures 0 <= maxRows < count ==>
              |BatchSizes(count, maxRows)| == (count - maxRows + 999) / 1000
  {
    if maxRows < count {
      var changes := Min(Min(PRUNE_BATCH, count - maxRows), count);
      if changes != 0 {
        BatchesDeleteTheOverflow(count - changes, maxRows);
      }
    }
  }

  // Where the loop stops, the newest maxRows rows are left.
  lemma OverflowGone(before: seq<Row>, deleted: nat, maxRows: int)
    requires deleted <= |before| && (deleted == 0 || maxRows <= |before| - deleted)
    requires |before| - deleted <= maxRows || (deleted == |before| && maxRows < 0)
    ensures before[deleted..] == KeepNewest(before, maxRows)
  {
    if deleted == 0 {
      assert before[deleted..] == before;
    }
  }

  lemma DropTwice<T>(s: seq<T>, a: nat, b: nat)
    requires a + b <= |s|
    ensures s[a..][b..] == s[a + b..]
  {
  }

  class TimeseriesStore {
    const maxRows: int
    var rows: seq<Row>
    var nextId: nat
    var closed: bool
    ghost var pruned: nat  // rows deleted so far

    ghost predicate Valid() reads this {
      && IdsAscending(rows)
      && (forall i :: 0 <= i < |rows| ==> rows[i].id < nextId)
    }

    // Open a database file that already holds some rows.
    constructor (maxRows: int, existing: seq<Row>, nextId: nat)
      requires IdsAscending(existing)
      requires forall i :: 0 <= i < |existing| ==> existing[i].id < nextId
      ensures Valid() && !closed && pruned == 0
      ensures this.maxRows == maxRows && rows == existing && this.nextId == nextId
    {
      this.maxRows, rows, this.nextId, closed := maxRows, existing, nextId, false;
      pruned := 0;
    }

    // One transaction: the insert at position failAt throws and rolls everything back.
    method WriteMany(samples: seq<Sample>, failAt: Option<nat>) returns (ok: bool)
      requires Valid()
      modifies this`rows, this`nextId
      ensures Valid()
      ensures ok <==> !closed && (failAt == None || |samples| <= failAt.value)
      ensures ok ==> rows == old(rows) + Inserted(samples, old(nextId)) && nextId == old(nextId) + |samples|
      ensures !ok ==> rows == old(rows) && nextId == old(nextId)
    {
      if closed { return false; }
      if |samples| == 0 {
        assert rows == old(rows) + Inserted(samples, old(nextId));
        return true;
      }
      var before, beforeId := rows, nextId;
      var i := 0;
      while i < |samples|
        invariant 0 <= i <= |samples| && Valid()
        invariant failAt == None || i <= failAt.value
        invariant nextId == beforeId + i
        invariant rows == before + Inserted(samples[..i], beforeId)
      {
        if failAt == Some(i) {
          rows, nextId := before, beforeId;
          return false;
        }
        rows := rows + [Row(nextId, samples[i])];
        nextId := nextId + 1;
        i := i + 1;
        assert Inserted(samples[..i], beforeId) ==
            Inserted(samples[..i - 1], beforeId) + [Row(beforeId + i - 1, samples[i - 1])];
      }
      assert samples[..i] == samples;
      return true;
    }

    function RowCount(): nat reads this { |rows| }

    // pruneStmt.run: at most `batch` of the oldest rows go; returns how many did.
    method RunDelete(batch: nat) returns (changes: nat)
      requires Valid() && batch <= PRUNE_BATCH
      modifies this`rows, this`pruned
      ensures Valid() && pruned == old(pruned) + changes
      ensures changes == Min(batch, |old(rows)|)
      ensures rows == old(rows)[changes..]
    {
      var after := DeleteOldest(rows, batch);
      changes := |rows| - |after|;
      rows, pruned := after, pruned + changes;
    }

    // One turn of the loop: a batch, but never more than the overflow.
    method DeleteBatch() returns (changes: nat)
      requires Valid() && |rows| > maxRows
      modifies this`rows, this`pruned
      ensures Valid() && pruned == old(pruned) + changes
      ensures changes <= |old(rows)| && rows == old(rows)[changes..]
      ensures 0 <= maxRows ==> 0 < changes && maxRows <= |rows|
      ensures changes == 0 ==> rows == []
      ensures |BatchSizes(|old(rows)|, maxRows)| == 1 + if changes == 0 then 0 else |BatchSizes(|rows|, maxRows)|
    {
      var over := RowCount() - maxRows;
      changes := RunDelete(Min(PRUNE_BATCH, over));
    }

    // Batched retention. The statement at position failAt throws; the result is then None
    // and what earlier statements deleted stays deleted.
    method Prune(failAt: Option<nat>) returns (total: Option<nat>, ghost statements: nat)
      requires Valid()
      modifies this`rows, this`pruned
      ensures Valid() && |rows| + pruned == |old(rows)| + old(pruned)
      ensures closed ==> total == Some(0) && rows == old(rows)
      ensures |rows| <= |old(rows)| && rows == old(rows)[|old(rows)| - |rows|..]
      ensures total != None ==> total.value == |old(rows)| - |rows|
      ensures total != None && !closed ==> rows == KeepNewest(old(rows), maxRows)
      ensures total != None && !closed ==> statements == |BatchSizes(|old(rows)|, maxRows)|
      ensures total == None ==> failAt == Some(statements) && !closed && Min(maxRows, |old(rows)|) <= |rows|
    {
      if closed { return Some(0), 0; }
      var deleted, threw;
      deleted, threw, statements := PruneBatches(failAt);
      if threw { return None, statements; }
      OverflowGone(old(rows), deleted, maxRows);
      return Some(deleted), statements;
    }

    // The loop of prune.
    method PruneBatches(failAt: Option<nat>) returns (deleted: nat, threw: bool, ghost statements: nat)
      requires Valid()
      modifies this`rows, this`pruned
      ensures Valid() && pruned == old(pruned) + deleted
      ensures deleted <= |old(rows)| && rows == old(rows)[deleted..]
      ensures deleted == 0 || maxRows <= |rows|
      ensures threw ==> failAt == Some(statements)
      ensures !threw ==> |rows| <= maxRows || (rows == [] && maxRows < 0)
      ensures !threw ==> statements == |BatchSizes(|old(rows)|, maxRows)|
    {
      deleted, statements := 0, 0;
      var runs := 0;
      while true
        invariant Valid() && runs == statements && pruned == old(pruned) + deleted
        invariant deleted <= |old(rows)| && rows == old(rows)[deleted..]
        invariant deleted == 0 || maxRows <= |rows|
        invariant statements + |BatchSizes(|rows|, maxRows)| == |BatchSizes(|old(rows)|, maxRows)|
        decreases |rows|
      {
        if failAt == Some(runs) { return deleted, true, statements; }
        if RowCount() <= maxRows { break; }
        var changes := DeleteBatch();
        DropTwice(old(rows), deleted, changes);
        deleted := deleted + changes;
        statements, runs := statements + 1, runs + 1;
        if changes == 0 { break; }
      }
      threw := false;
    }

    function LatestPerPid(): (answer: seq<Sample>)
      reads this
      ensures exists at :: NewestAt(rows, answer, at)
    {
      AnswerIsNewest(rows);
      JoinLatest(Samples(rows), |rows|)
    }

    // Idempotent.
    method Close()
      modifies this`closed
      ensures closed
    {
      if closed { return; }
      closed := true;
    }
  }

  // ------------------------------------------------- the latest-per-pid query

  // The join condition: ts equals MAX(ts) over the rows of the same pid.
  predicate HasMaxTs(all: seq<Sample>, i: nat)
    requires i < |all|
  {
    forall j :: 0 <= j < |all| && all[j].pid == all[i].pid ==> all[j].ts <= all[i].ts
  }

  // The rows among the first n that satisfy the join, in id order.
  function JoinLatest(all: seq<Sample>, n: nat): seq<Sample>
    requires n <= |all|
  {
    if n == 0 then [] else
    JoinLatest(all, n - 1) + if HasMaxTs(all, n - 1) then [all[n - 1]] else []
  }

  // Row k is in the answer.
  function InAnswer(all: seq<Sample>): nat -> bool { (k: nat) => k < |all| && HasMaxTs(all, k) }

  lemma {:induction false} JoinIsFiltered(all: seq<Sample>, n: nat)
    requires n <= |all|
    ensures JoinLatest(all, n) == Filtered(all, InAnswer(all), n)
  {
    if n > 0 { JoinIsFiltered(all, n - 1); }
  }

  // These are the rows of which no row of the same pid has a later timestamp, in id order.
  ghost predicate NewestAt(rows: seq<Row>, answer: seq<Sample>, at: seq<nat>) {
    && Picks(Samples(rows), answer, at)
    && forall k: nat :: k < |rows| ==>
      (k in at <==> forall r :: r in rows && r.sample.pid == rows[k].sample.pid ==> r.sample.ts <= rows[k].sample.ts)
  }

  lemma AnswerIsNewest(rows: seq<Row>)
    ensures exists at :: NewestAt(rows, JoinLatest(Samples(rows), |rows|), at)
  {
    JoinIsFiltered(Samples(rows), |rows|);
    var at := FilteredPicks(Samples(rows), InAnswer(Samples(rows)), |rows|);
    assert Samples(rows)[..|rows|] == Samples(rows);
    forall k: nat | k < |rows|
      ensures HasMaxTs(Samples(rows), k) <==>
              forall r :: r in rows && r.sample.pid == rows[k].sample.pid ==> r.sample.ts <= rows[k].sample.ts
    {
      SameNewest(rows, k);
    }
    assert NewestAt(rows, JoinLatest(Samples(rows), |rows|), at);
  }

  lemma SameNewest(rows: seq<Row>, k: nat)
    requires k < |rows|
    ensures HasMaxTs(Samples(rows), k) <==>
            forall r :: r in rows && r.sample.pid == rows[k].sample.pid ==> r.sample.ts <= rows[k].sample.ts
  {
    if HasMaxTs(Samples(rows), k) {
      forall r | r in rows && r.sample.pid == rows[k].sample.pid ensures r.sample.ts <= rows[k].sample.ts {
        var j :| 0 <= j < |rows| && rows[j] == r;
        assert Samples(rows)[j] == r.sample;
      }
    } else {
      var j :| 0 <= j < |rows| && Samples(rows)[j].pid == Samples(rows)[k].pid
        && Samples(rows)[j].ts > Samples(rows)[k].ts;
      assert rows[j] in rows;
    }
  }

  // The rows of one pid in a query result.
  function OfPid(result: seq<Sample>, pid: int): seq<Sample> {
    if result == [] then [] else
    var last := result[|result| - 1];
    OfPid(result[..|result| - 1], pid) + if last.pid == pid then [last] else []
  }

  // The simple reading of "latest": remember the last row written for each pid.
  function LastWritten(all: seq<Sample>): map<int, Sample> {
    if all == [] then map[] else
    var last := all[|all| - 1];
    LastWritten(all[..|all| - 1])[last.pid := last]
  }

  ghost predicate IsLastOfPid(all: seq<Sample>, j: nat)
    requires j < |all|
  {
    forall k :: j < k < |all| ==> all[k].pid != all[j].pid
  }

  // The clock condition: the last row of every pid is strictly newer than its other rows.
  ghost predicate LastRowStrictlyNewest(all: seq<Sample>) {
    forall i, j :: 0 <= i < j < |all| && all[i].pid == all[j].pid && IsLastOfPid(all, j) ==> all[i].ts < all[j].ts
  }

  // The stronger condition a poller with an advancing clock keeps.
  ghost predicate TimestampsAdvance(all: seq<Sample>) {
    forall i, j :: 0 <= i < j < |all| && all[i].pid == all[j].pid ==> all[i].ts < all[j].ts
  }

  // The query answers "the last row written" for one pid.
  ghost predicate AnswersLastWritten(all: seq<Sample>, pid: int) {
    OfPid(JoinLatest(all, |all|), pid) ==
    if pid in LastWritten(all) then [LastWritten(all)[pid]] else []
  }

  lemma OfPidAppend(a: seq<Sample>, x: Sample, pid: int)
    ensures OfPid(a + [x], pid) == OfPid(a, pid) + if x.pid == pid then [x] else []
  {
    assert (a + [x])[..|a|] == a;
  }

  lemma {:induction false} JoinOfPidStep(all: seq<Sample>, n: nat, pid: int)
    requires 0 < n <= |all|
    ensures OfPid(JoinLatest(all, n), pid) ==
            if HasMaxTs(all, n - 1) && all[n - 1].pid == pid
            then OfPid(JoinLatest(all, n - 1), pid) + [all[n - 1]] else OfPid(JoinLatest(all, n - 1), pid)
  {
    if HasMaxTs(all, n - 1) {
      OfPidAppend(JoinLatest(all, n - 1), all[n - 1], pid);
    } else {
      assert JoinLatest(all, n) == JoinLatest(all, n - 1);
    }
  }

  // The last-written map holds, for each pid, its row of highest index.
  lemma {:induction false} LastWrittenIndex(all: seq<Sample>, pid: int) returns (j: nat)
    requires pid in LastWritten(all)
    ensures j < |all| && all[j].pid == pid && IsLastOfPid(all, j) && LastWritten(all)[pid] == all[j]
  {
    j := |all| - 1;
    if all[j].pid != pid {
      j := LastWrittenIndex(all[..|all| - 1], pid);
    }
  }

  lemma {:induction false} LastWrittenPids(all: seq<Sample>, pid: int)
    ensures pid in LastWritten(all) <==> exists i :: 0 <= i < |all| && all[i].pid == pid
  {
    if all != [] {
      LastWrittenPids(all[..|all| - 1], pid);
      if pid in LastWritten(all[..|all| - 1]) {
        var i :| 0 <= i < |all[..|all| - 1]| && all[..|all| - 1][i].pid == pid;
        assert all[i].pid == pid;
      }
      if i :| 0 <= i < |all| && all[i].pid == pid {
        if i < |all| - 1 { assert all[..|all| - 1][i].pid == pid; }
      }
    }
  }

  // With a strictly newest last row at j, the join keeps that row and no other of its pid.
  lemma {:induction false} JoinKeepsOnlyLast(all: seq<Sample>, j: nat, n: nat)
    requires j < |all| && n <= |all| && IsLastOfPid(all, j)
    requires forall i :: 0 <= i < j && all[i].pid == all[j].pid ==> all[i].ts < all[j].ts
    ensures OfPid(JoinLatest(all, n), all[j].pid) == if n > j then [all[j]] else []
  {
    if n > 0 {
      JoinOfPidStep(all, n, all[j].pid);
      JoinKeepsOnlyLast(all, j, n - 1);
      if all[n - 1].pid == all[j].pid {
        OnlyLastIsNewest(all, j, n - 1);
        if n - 1 == j {
          SingleRow(OfPid(JoinLatest(all, n), all[j].pid), OfPid(JoinLatest(all, n - 1), all[j].pid), all[n - 1]);
        }
      }
    }
  }

  lemma SingleRow<T>(rows: seq<T>, before: seq<T>, row: T)
    requires rows == before + [row] && before == []
    ensures rows == [row]
  {
  }

  lemma OnlyLastIsNewest(all: seq<Sample>, j: nat, i: nat)
    requires i < |all| && j < |all| && IsLastOfPid(all, j) && all[i].pid == all[j].pid
    requires forall k :: 0 <= k < j && all[k].pid == all[j].pid ==> all[k].ts < all[j].ts
    ensures HasMaxTs(all, i) <==> i == j
  {
    if i != j {
      assert i < j && all[i].ts < all[j].ts;
    }
  }

  lemma {:induction false} JoinOfAbsentPid(all: seq<Sample>, pid: int, n: nat)
    requires n <= |all| && forall i :: 0 <= i < |all| ==> all[i].pid != pid
    ensures OfPid(JoinLatest(all, n), pid) == []
  {
    if n > 0 {
      JoinOfPidStep(all, n, pid);
      JoinOfAbsentPid(all, pid, n - 1);
    }
  }

  // Every selected row is in the answer for its pid, and every answer was selected.
  lemma {:induction false} JoinOfPidMembers(all: seq<Sample>, pid: int, n: nat)
    requires n <= |all|
    ensures forall x :: x in OfPid(JoinLatest(all, n), pid) <==>
              exists i :: 0 <= i < n && HasMaxTs(all, i) && all[i].pid == pid && all[i] == x
  {
    if n > 0 {
      JoinOfPidStep(all, n, pid);
      JoinOfPidMembers(all, pid, n - 1);
    }
  }

  lemma SelectedIsAnswered(all: seq<Sample>, i: nat, n: nat)
    requires i < n <= |all| && HasMaxTs(all, i)
    ensures all[i] in OfPid(JoinLatest(all, n), all[i].pid)
  {
    JoinOfPidMembers(all, all[i].pid, n);
  }

  lemma OneMoreThanSome<T>(s: seq<T>, x: T, y: T)
    requires x in s
    ensures |s + [y]| >= 2
  {
  }

  lemma {:induction false} JoinOfPidPair(all: seq<Sample>, i: nat, j: nat, n: nat)
    requires i < j < n <= |all| && all[i].pid == all[j].pid
    requires HasMaxTs(all, i) && HasMaxTs(all, j)
    ensures |OfPid(JoinLatest(all, n), all[i].pid)| >= 2
  {
    var pid := all[i].pid;
    JoinOfPidStep(all, n, pid);
    if n - 1 == j {
      var before := OfPid(JoinLatest(all, n - 1), pid);
      SelectedIsAnswered(all, i, n - 1);
      OneMoreThanSome(before, all[i], all[j]);
    } else {
      JoinOfPidPair(all, i, j, n - 1);
    }
  }

  // The query means "the last row written per pid" exactly when the clock condition holds.
  lemma LatestPerPidIsLastWritten(all: seq<Sample>)
    ensures (forall pid :: AnswersLastWritten(all, pid)) <==> LastRowStrictlyNewest(all)
  {
    if LastRowStrictlyNewest(all) {
      forall pid ensures AnswersLastWritten(all, pid) {
        StrictlyNewestAnswers(all, pid);
      }
    } else {
      var i, j :| 0 <= i < j < |all| && all[i].pid == all[j].pid && IsLastOfPid(all, j) && all[i].ts >= all[j].ts;
      StaleOrTiedFails(all, i, j);
    }
  }

  lemma StrictlyNewestAnswers(all: seq<Sample>, pid: int)
    requires LastRowStrictlyNewest(all)
    ensures AnswersLastWritten(all, pid)
  {
    LastWrittenPids(all, pid);
    if pid in LastWritten(all) {
      var j := LastWrittenIndex(all, pid);
      JoinKeepsOnlyLast(all, j, |all|);
    } else {
      JoinOfAbsentPid(all, pid, |all|);
    }
  }

  lemma StaleOrTiedFails(all: seq<Sample>, i: nat, j: nat)
    requires i < j < |all| && all[i].pid == all[j].pid && IsLastOfPid(all, j) && all[i].ts >= all[j].ts
    ensures !AnswersLastWritten(all, all[j].pid)
  {
    var pid := all[j].pid;
    LastWrittenPids(all, pid);
    var k := LastWrittenIndex(all, pid);
    assert k == j;
    JoinOfPidMembers(all, pid, |all|);
    if HasMaxTs(all, j) {
      assert HasMaxTs(all, i);
      JoinOfPidPair(all, i, j, |all|);
    } else {
      assert all[j] !in OfPid(JoinLatest(all, |all|), pid);
      assert all[j] in [all[j]];
    }
  }

  // Two ticks within one millisecond: one pid, two answers.
  lemma TiedTimestampsAnswerTwice(a: Sample, b: Sample)
    requires a.pid == b.pid && a.ts == b.ts
    ensures JoinLatest([a, b], 2) == [a, b]
    ensures !AnswersLastWritten([a, b], a.pid)
  {
    assert HasMaxTs([a, b], 0) && HasMaxTs([a, b], 1);
    assert JoinLatest([a, b], 1) == [a];
    StaleOrTiedFails([a, b], 0, 1);
  }

  // ------------------------------------------------------ retention over runs

  lemma {:induction false} LastWrittenOfSuffix(all: seq<Sample>, k: nat, pid: int)
    requires k <= |all| && pid in LastWritten(all[k..])
    ensures pid in LastWritten(all) && LastWritten(all)[pid] == LastWritten(all[k..])[pid]
  {
    var j := LastWrittenIndex(all[k..], pid);
    assert all[k + j].pid == pid;
    LastWrittenPids(all, pid);
    var m := LastWrittenIndex(all, pid);
    assert m >= k + j;
    assert all[k..][m - k] == all[m];
  }

  datatype Op = Write(samples: seq<Sample>) | Prune(deleted: nat)

  // The retained rows and everything ever written, after a sequence of successful calls.
  datatype History = History(table: seq<Sample>, written: seq<Sample>)

  function Do(h: History, op: Op): History {
    match op
    case Write(samples) => History(h.table + samples, h.written + samples)
    case Prune(n) => History(if n >= |h.table| then [] else h.table[n..], h.written)
  }

  function Replay(h: History, ops: seq<Op>): History {
    if ops == [] then h else Do(Replay(h, ops[..|ops| - 1]), ops[|ops| - 1])
  }

  // What WriteMany and Prune do to the rows is a step of the history.
  lemma TableFollowsHistory(rows: seq<Row>, written: seq<Sample>, samples: seq<Sample>, firstId: nat, n: nat)
    requires n <= |rows|
    ensures Samples(rows + Inserted(samples, firstId)) == Do(History(Samples(rows), written), Write(samples)).table
    ensures Samples(rows[n..]) == Do(History(Samples(rows), written), Prune(n)).table
  {
    assert Samples(rows + Inserted(samples, firstId)) == Samples(rows) + samples;
    assert Samples(rows[n..]) == Samples(rows)[n..];
  }

  lemma {:induction false} RetainedIsSuffix(initial: seq<Sample>, ops: seq<Op>)
    ensures var h := Replay(History(initial, initial), ops);
            |h.table| <= |h.written| && h.table == h.written[|h.written| - |h.table|..]
  {
    if ops != [] {
      RetainedIsSuffix(initial, ops[..|ops| - 1]);
    }
  }

  // However writes and prunes alternate, a pid that still has a row is answered by the last
  // sample ever written for it, as long as the clock advances per pid.
  lemma RetentionNeverChangesTheAnswer(initial: seq<Sample>, ops: seq<Op>, pid: int)
    requires TimestampsAdvance(Replay(History(initial, initial), ops).written)
    ensures var h := Replay(History(initial, initial), ops);
            if exists i :: 0 <= i < |h.table| && h.table[i].pid == pid
            then pid in LastWritten(h.written)
                && OfPid(JoinLatest(h.table, |h.table|), pid) == [LastWritten(h.written)[pid]]
            else OfPid(JoinLatest(h.table, |h.table|), pid) == []
  {
    RetainedIsSuffix(initial, ops);
    var h := Replay(History(initial, initial), ops);
    SuffixAnswers(h.written, |h.written| - |h.table|, pid);
  }

  lemma SuffixAnswers(written: seq<Sample>, k: nat, pid: int)
    requires k <= |written| && TimestampsAdvance(written)
    ensures if exists i :: 0 <= i < |written[k..]| && written[k..][i].pid == pid
            then pid in LastWritten(written)
                && OfPid(JoinLatest(written[k..], |written[k..]|), pid) == [LastWritten(written)[pid]]
            else OfPid(JoinLatest(written[k..], |written[k..]|), pid) == []
  {
    SuffixAdvances(written, k);
    StrictlyNewestAnswers(written[k..], pid);
    LastWrittenPids(written[k..], pid);
    if pid in LastWritten(written[k..]) { LastWrittenOfSuffix(written, k, pid); }
  }

  // In terms of the retained rows alone, without a clock: every pid that still has a row is
  // answered by its last sample ever written exactly when each pid's last retained row is
  // strictly its newest retained one.
  lemma RetentionAnswersExactlyWhen(initial: seq<Sample>, ops: seq<Op>)
    ensures var h := Replay(History(initial, initial), ops);
            (forall pid :: pid in LastWritten(h.table) ==> AnsweredByLastWrite(h, pid)) <==>
                LastRowStrictlyNewest(h.table)
  {
    var h := Replay(History(initial, initial), ops);
    RetainedIsSuffix(initial, ops);
    forall pid | pid in LastWritten(h.table) ensures AnsweredByLastWrite(h, pid) <==> AnswersLastWritten(h.table, pid) {
      LastWrittenOfSuffix(h.written, |h.written| - |h.table|, pid);
    }
    forall pid | pid !in LastWritten(h.table) ensures AnswersLastWritten(h.table, pid) {
      LastWrittenPids(h.table, pid);
      JoinOfAbsentPid(h.table, pid, |h.table|);
    }
    LatestPerPidIsLastWritten(h.table);
  }

  ghost predicate AnsweredByLastWrite(h: History, pid: int) {
    pid in LastWritten(h.written) && OfPid(JoinLatest(h.table, |h.table|), pid) == [LastWritten(h.written)[pid]]
  }

  lemma SuffixAdvances(written: seq<Sample>, k: nat)
    requires k <= |written| && TimestampsAdvance(written)
    ensures LastRowStrictlyNewest(written[k..])
  {
  }

  // ------------------------------------------------------------ distinct pids

  function Pids(s: seq<Sample>): (r: seq<int>)
    ensures |r| == |s| && forall i :: 0 <= i < |s| ==> r[i] == s[i].pid
  {
    seq(|s|, i requires 0 <= i < |s| => s[i].pid)
  }

  // No pid has two rows that share its greatest timestamp.
  ghost predicate NewestIsUnique(all: seq<Sample>) {
    forall i, j :: 0 <= i < j < |all| && all[i].pid == all[j].pid ==> !(HasMaxTs(all, i) && HasMaxTs(all, j))
  }

  lemma AdvancingIsUnique(all: seq<Sample>)
    requires TimestampsAdvance(all)
    ensures NewestIsUnique(all)
  {
  }

  lemma {:induction false} NewestIndex(all: seq<Sample>, n: nat, pid: int) returns (m: nat)
    requires n <= |all| && exists i :: 0 <= i < n && all[i].pid == pid
    ensures m < n && all[m].pid == pid
    ensures forall j :: 0 <= j < n && all[j].pid == pid ==> all[j].ts <= all[m].ts
  {
    m := n - 1;
    if exists i :: 0 <= i < n - 1 && all[i].pid == pid {
      var r := NewestIndex(all, n - 1, pid);
      if all[n - 1].pid != pid || all[n - 1].ts < all[r].ts { m := r; }
    }
  }

  lemma {:induction false} JoinMembers(all: seq<Sample>, n: nat)
    requires n <= |all|
    ensures forall pid :: pid in Pids(JoinLatest(all, n)) <==>
        exists i :: 0 <= i < n && HasMaxTs(all, i) && all[i].pid == pid
  {
    if n > 0 {
      JoinMembers(all, n - 1);
      var before := JoinLatest(all, n - 1);
      if HasMaxTs(all, n - 1) {
        assert Pids(before + [all[n - 1]]) == Pids(before) + [all[n - 1].pid];
      } else {
        assert JoinLatest(all, n) == before;
      }
    }
  }

  lemma {:induction false} JoinDistinct(all: seq<Sample>, n: nat)
    requires n <= |all|
    ensures Distinct(Pids(JoinLatest(all, n))) <==>
            forall i, j :: 0 <= i < j < n && all[i].pid == all[j].pid ==> !(HasMaxTs(all, i) && HasMaxTs(all, j))
  {
    if n > 0 {
      JoinDistinct(all, n - 1);
      JoinMembers(all, n - 1);
      var before := JoinLatest(all, n - 1);
      if HasMaxTs(all, n - 1) {
        var p, q := Pids(before), all[n - 1].pid;
        assert Pids(before + [all[n - 1]]) == p + [q];
        assert Distinct(p + [q]) <==> Distinct(p) && q !in p by {
          if Distinct(p + [q]) {
            forall i, j | 0 <= i < j < |p| ensures p[i] != p[j] { assert (p + [q])[i] != (p + [q])[j]; }
            forall i | 0 <= i < |p| ensures p[i] != q { assert (p + [q])[i] != (p + [q])[|p|]; }
          }
        }
      } else {
        assert JoinLatest(all, n) == before;
      }
    }
  }

  // The answer has at least one row per retained pid, and exactly one each
  // precisely when no newest timestamp is tied.
  lemma AnswerCountsPids(all: seq<Sample>)
    ensures |JoinLatest(all, |all|)| >= |Elements(Pids(all))|
    ensures |JoinLatest(all, |all|)| == |Elements(Pids(all))| <==> NewestIsUnique(all)
  {
    var answer := Pids(JoinLatest(all, |all|));
    JoinMembers(all, |all|);
    forall pid ensures pid in answer <==> pid in Pids(all) {
      if pid in Pids(all) {
        var i :| 0 <= i < |Pids(all)| && Pids(all)[i] == pid;
        assert all[i].pid == pid;
        var m := NewestIndex(all, |all|, pid);
        assert HasMaxTs(all, m);
      }
    }
    assert Elements(answer) == Elements(Pids(all));
    DistinctByCount(answer);
    JoinDistinct(all, |all|);
  }
}
