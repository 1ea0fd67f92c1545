// The two poll loops of the daemon as objects: src/http/ws.ts startSessionsDiffPoller and
// src/reminders/poll.ts, with the store and the counter a session tick writes to.
module Pollers {
  import opened Common
  import opened Broadcast
  import opened Timeseries
  import SessionDiff
  import ReminderDiff

  datatype WsEvent = TodoNews(event: ReminderDiff.TodoEvent) | SessionsUpdate(update: SessionDiff.Update)

  function SessionEvents(updates: seq<SessionDiff.Update>): (r: seq<WsEvent>)
    ensures |r| == |updates|
  {
    seq(|updates|, i requires 0 <= i < |updates| => SessionsUpdate(updates[i]))
  }

  function TodoEvents(events: seq<ReminderDiff.TodoEvent>): (r: seq<WsEvent>)
    ensures |r| == |events|
  {
    seq(|events|, i requires 0 <= i < |events| => TodoNews(events[i]))
  }

  // The session events, and the todo events, among the events of the broadcaster.
  function UpdateOf(e: WsEvent): seq<SessionDiff.Update> { if e.SessionsUpdate? then [e.update] else [] }

  function NewsOf(e: WsEvent): seq<ReminderDiff.TodoEvent> { if e.TodoNews? then [e.event] else [] }

  lemma {:induction false} SessionEventsAreUpdates(updates: seq<SessionDiff.Update>)
    ensures Flat(UpdateOf, SessionEvents(updates)) == updates && Flat(NewsOf, SessionEvents(updates)) == []
  {
    if updates != [] {
      var init, last := updates[..|updates| - 1], updates[|updates| - 1];
      SessionEventsAreUpdates(init);
      assert SessionEvents(updates)[..|updates| - 1] == SessionEvents(init);
      assert init + [last] == updates;
    }
  }

  lemma {:induction false} TodoEventsAreNews(events: seq<ReminderDiff.TodoEvent>)
    ensures Flat(NewsOf, TodoEvents(events)) == events && Flat(UpdateOf, TodoEvents(events)) == []
  {
    if events != [] {
      var init, last := events[..|events| - 1], events[|events| - 1];
      TodoEventsAreNews(init);
      assert TodoEvents(events)[..|events| - 1] == TodoEvents(init);
      assert init + [last] == events;
    }
  }

  lemma SessionEventsAppend(a: seq<SessionDiff.Update>, b: seq<SessionDiff.Update>)
    ensures SessionEvents(a + b) == SessionEvents(a) + SessionEvents(b)
  {
  }

  // The sample recorded for one observed status.
  function SampleOf(pid: int, status: RefinedStatus, providerByPid: map<int, string>, now: int): Sample {
    Sample(now, if pid in providerByPid then providerByPid[pid] else "unknown", pid, status, None, None, None)
  }

  // The samples of one tick.
  function Batch(next: seq<(int, RefinedStatus)>, providerByPid: map<int, string>, now: int): seq<Sample> {
    if next == [] then [] else
    var (pid, status) := next[|next| - 1];
    Batch(next[..|next| - 1], providerByPid, now) + [SampleOf(pid, status, providerByPid, now)]
  }

  lemma BatchPrefix(next: seq<(int, RefinedStatus)>, providerByPid: map<int, string>, now: int, i: nat)
    requires i < |next|
    ensures Batch(next[..i + 1], providerByPid, now) ==
            Batch(next[..i], providerByPid, now) + [SampleOf(next[i].0, next[i].1, providerByPid, now)]
  {
    assert next[..i + 1][..i] == next[..i];
  }

  lemma {:induction false} BatchAt(next: seq<(int, RefinedStatus)>, providerByPid: map<int, string>, now: int)
    ensures |Batch(next, providerByPid, now)| == |next|
    ensures forall i :: 0 <= i < |next| ==>
              Batch(next, providerByPid, now)[i] == SampleOf(next[i].0, next[i].1, providerByPid, now)
  {
    if next != [] { BatchAt(next[..|next| - 1], providerByPid, now); }
  }

  // What a tick has to record: for each entry in turn its pid, its status, the clock, and the
  // provider that discovered the pid, if any did.
  ghost predicate Observed(
    samples: seq<Sample>, next: seq<(int, RefinedStatus)>, providerByPid: map<int, string>, now: int)
  {
    && |samples| == |next|
    && forall i :: 0 <= i < |next| ==>
      && samples[i].pid == next[i].0 && samples[i].status == next[i].1 && samples[i].ts == now
      && (next[i].0 in providerByPid ==> samples[i].provider == providerByPid[next[i].0])
      && (next[i].0 !in providerByPid ==> samples[i].provider == "unknown")
      && samples[i].turnCount == None && samples[i].toolCount == None && samples[i].lastWriteAge == None
  }

  lemma BatchIsObserved(next: seq<(int, RefinedStatus)>, providerByPid: map<int, string>, now: int)
    ensures Observed(Batch(next, providerByPid, now), next, providerByPid, now)
  {
    BatchAt(next, providerByPid, now);
  }

  // startDaemon's writtenCount.
  class Counter {
    var written: nat

    constructor ()
      ensures written == 0
    {
      written := 0;
    }

    // onSampleWritten
    method Bump()
      modifies this
      ensures written == old(written) + 1
    {
      written := written + 1;
    }
  }

  // The store and the counter, as the accounting sees them.
  datatype Ledger = Ledger(rows: seq<Row>, nextId: nat, pruned: nat, closed: bool, written: nat)

  // A tick's batch is refused when the store is closed or an insert throws.
  predicate Refused(b: Ledger, batch: seq<Sample>, writeFails: Option<nat>) {
    batch == [] || b.closed || (writeFails != None && writeFails.value < |batch|)
  }

  // What a tick does to the store and the counter. A refused batch changes neither; a batch
  // that was written is counted even if pruning then fails half way.
  ghost predicate Recorded(
    b: Ledger, c: Ledger, maxRows: int, batch: seq<Sample>, writeFails: Option<nat>, pruneFails: Option<nat>)
  {
    if Refused(b, batch, writeFails) then c == b else
    var grown := b.rows + Inserted(batch, b.nextId);
    && c.written == b.written + |batch| && c.nextId == b.nextId + |batch| && c.closed == b.closed
    && Min(maxRows, |grown|) <= |c.rows| <= |grown| && c.rows == grown[|grown| - |c.rows|..]
    && |c.rows| + c.pruned == |grown| + b.pruned
    && (pruneFails == None ==> c.rows == KeepNewest(grown, maxRows))
  }

  // The table after a tick: some of the newest rows it had, then one row for each entry.
  ghost predicate Appended(
    before: seq<Row>, after: seq<Row>, next: seq<(int, RefinedStatus)>, providerByPid: map<int, string>, now: int)
  {
    var kept := |after| - |next|;
    && 0 <= kept <= |before| && after[..kept] == before[|before| - kept..]
    && Observed(Samples(after)[kept..], next, providerByPid, now)
  }

  // The tick's samples reach the table: the store is open and no insert throws.
  predicate Accepts(closed: bool, writeFails: Option<nat>, next: seq<(int, RefinedStatus)>) {
    next != [] && !closed && (writeFails == None || |next| <= writeFails.value)
  }

  // What a tick means for the books: nothing, or one more row and one more count for each
  // entry, as observed.
  ghost predicate TickRecorded(
    b: Ledger, c: Ledger, maxRows: int, next: seq<(int, RefinedStatus)>, providerByPid: map<int, string>, now: int,
    writeFails: Option<nat>)
  {
    if !Accepts(b.closed, writeFails, next) then c == b else
    && c.written == b.written + |next|
    && (|next| <= maxRows ==> Appended(b.rows, c.rows, next, providerByPid, now))
  }

  lemma RecordedAppends(b: Ledger, c: Ledger, maxRows: int, next: seq<(int, RefinedStatus)>,
      providerByPid: map<int, string>, now: int, writeFails: Option<nat>, pruneFails: Option<nat>)
    requires Recorded(b, c, maxRows, Batch(next, providerByPid, now), writeFails, pruneFails)
    ensures TickRecorded(b, c, maxRows, next, providerByPid, now, writeFails)
  {
    var batch := Batch(next, providerByPid, now);
    BatchIsObserved(next, providerByPid, now);
    if Accepts(b.closed, writeFails, next) && |next| <= maxRows {
      var grown, kept := b.rows + Inserted(batch, b.nextId), |c.rows| - |next|;
      assert c.rows == grown[|grown| - |c.rows|..];
      assert c.rows[..kept] == b.rows[|b.rows| - kept..];
      assert Samples(c.rows)[kept..] == batch;
    }
  }

  datatype LedgerOp =
    | Tick(batch: seq<Sample>, writeFails: Option<nat>, pruneFails: Option<nat>)
    | CloseStore

  ghost predicate Follows(b: Ledger, op: LedgerOp, c: Ledger, maxRows: int) {
    match op
    case Tick(batch, writeFails, pruneFails) => Recorded(b, c, maxRows, batch, writeFails, pruneFails)
    case CloseStore => c == b.(closed := true)
  }

  // How many samples a run of ticks gets written.
  function Accepted(ledgers: seq<Ledger>, ops: seq<LedgerOp>): nat
    requires |ledgers| == |ops| + 1
  {
    if ops == [] then 0 else
    var i := |ops| - 1;
    Accepted(ledgers[..|ops|], ops[..i])
    + if ops[i].Tick? && !Refused(ledgers[i], ops[i].batch, ops[i].writeFails) then |ops[i].batch| else 0
  }

  // Over any run of ticks from any pollers, failing writes, failing prunes and close: rows in
  // the table are rows at open, plus samples counted, minus rows pruned; the counter counts
  // exactly the samples written; and whenever all of a tick's store calls succeed the table
  // is within its cap.
  lemma {:induction false} BooksBalance(ledgers: seq<Ledger>, ops: seq<LedgerOp>, maxRows: int)
    requires |ledgers| == |ops| + 1
    requires forall i :: 0 <= i < |ops| ==> Follows(ledgers[i], ops[i], ledgers[i + 1], maxRows)
    ensures var first, last := ledgers[0], ledgers[|ops|];
            && |last.rows| + (last.pruned - first.pruned) == |first.rows| + (last.written - first.written)
            && last.written == first.written + Accepted(ledgers, ops)
            && (first.closed ==> last == first)
    ensures |ops| > 0 && ops[|ops| - 1].Tick? && ops[|ops| - 1].pruneFails == None
            && !Refused(ledgers[|ops| - 1], ops[|ops| - 1].batch, ops[|ops| - 1].writeFails) ==>
              |ledgers[|ops|].rows| <= if maxRows < 0 then 0 else maxRows
  {
    if ops != [] {
      var n := |ops| - 1;
      BooksBalance(ledgers[..|ops|], ops[..n], maxRows);
      assert Follows(ledgers[n], ops[n], ledgers[n + 1], maxRows);
    }
  }

  class SessionsDiffPoller {
    const bus: WsBroadcaster<WsEvent>
    const store: TimeseriesStore?
    const counter: Counter
    var stopped: bool
    var prev: map<int, RefinedStatus>
    ghost var inflight: nat

    ghost function State(): SessionDiff.Poller reads this {
      SessionDiff.Poller(stopped, prev, inflight)
    }

    // The first tick is fired at once.
    constructor (bus: WsBroadcaster<WsEvent>, store: TimeseriesStore?, counter: Counter)
      ensures this.bus == bus && this.store == store && this.counter == counter
      ensures State() == SessionDiff.STARTED
    {
      this.bus, this.store, this.counter := bus, store, counter;
      stopped, prev, inflight := false, map[], 1;
    }

    method Stop()
      modifies this
      ensures State() == SessionDiff.Stopped(old(State()))
      ensures stopped && prev == old(prev) && inflight == old(inflight)
    {
      stopped := true;
    }

    // The interval fires: `if (stopped) return`.
    method StartTick() returns (proceeds: bool)
      modifies this
      ensures proceeds <==> !stopped
      ensures State() == SessionDiff.Ticking(old(State()))
      ensures stopped == old(stopped) && prev == old(prev)
      ensures inflight == old(inflight) + if proceeds then 1 else 0
    {
      if stopped { return false; }
      inflight := inflight + 1;
      return true;
    }

    // Discovery or refinedStatusFor throws.
    method FailTick()
      modifies this
      ensures State() == SessionDiff.Failed(old(State()))
      ensures stopped == old(stopped) && prev == old(prev)
    {
      if inflight > 0 { inflight := inflight - 1; }
    }

    // The section of tick after its last await, for whatever map refinedStatusFor returned.
    method CompleteTick(next: SessionDiff.StatusMap, providerByPid: map<int, string>, now: int,
                        writeFails: Option<nat>, pruneFails: Option<nat>)
      requires inflight > 0 && bus.Valid() && (store != null ==> store.Valid())
      modifies this`prev, this`inflight, bus`history, bus`log, bus.known, counter
      modifies if store == null then {} else {store}
      ensures State() == SessionDiff.Completed(old(State()), next)
      ensures bus.Valid()
      ensures bus.log == old(bus.log) + SessionEvents(SessionDiff.Diff(old(prev), next))
      ensures store == null ==> counter.written == old(counter.written)
      ensures store != null ==> store.Valid()
      ensures store != null ==> Recorded(old(Books()), Books(), store.maxRows, Batch(next, providerByPid, now),
          writeFails, pruneFails)
      ensures store != null ==>
                TickRecorded(old(Books()), Books(), store.maxRows, next, providerByPid, now, writeFails)
    {
      var samples := EmitAndSample(next, providerByPid, now);
      if store == null {
        Advance(next);
      } else {
        RecordAndAdvance(samples, next, providerByPid, now, writeFails, pruneFails);
      }
    }

    // With a store: record the samples if there are any, then prev = next.
    method RecordAndAdvance(samples: seq<Sample>, next: SessionDiff.StatusMap, ghost providerByPid: map<int, string>,
                            ghost now: int, writeFails: Option<nat>, pruneFails: Option<nat>)
      requires store != null && store.Valid() && inflight > 0 && bus.Valid()
      requires samples == Batch(next, providerByPid, now)
      modifies this`prev, this`inflight, store, counter
      ensures State() == SessionDiff.Completed(old(State()), next)
      ensures bus.Valid() && store.Valid()
      ensures Recorded(old(Books()), Books(), store.maxRows, samples, writeFails, pruneFails)
      ensures TickRecorded(old(Books()), Books(), store.maxRows, next, providerByPid, now, writeFails)
    {
      RecordTick(samples, next, providerByPid, now, writeFails, pruneFails);
      Advance(next);
    }

    // prev = next
    method Advance(next: SessionDiff.StatusMap)
      requires inflight > 0 && bus.Valid()
      modifies this`prev, this`inflight
      ensures State() == SessionDiff.Completed(old(State()), next)
      ensures bus.Valid()
    {
      prev := SessionDiff.Contents(next);
      inflight := inflight - 1;
    }

    // if (samples.length > 0)
    method RecordTick(samples: seq<Sample>, ghost next: SessionDiff.StatusMap, ghost providerByPid: map<int, string>,
                      ghost now: int, writeFails: Option<nat>, pruneFails: Option<nat>)
      requires store != null && store.Valid() && bus.Valid() && samples == Batch(next, providerByPid, now)
      modifies store, counter
      ensures bus.Valid() && store.Valid()
      ensures Recorded(old(Books()), Books(), store.maxRows, samples, writeFails, pruneFails)
      ensures TickRecorded(old(Books()), Books(), store.maxRows, next, providerByPid, now, writeFails)
    {
      if |samples| > 0 {
        RecordSamples(samples, writeFails, pruneFails);
      }
      RecordedAppends(old(Books()), Books(), store.maxRows, next, providerByPid, now, writeFails, pruneFails);
    }

    // The events and the samples of a tick.
    method EmitAndSample(next: SessionDiff.StatusMap, providerByPid: map<int, string>, now: int)
        returns (samples: seq<Sample>)
      requires bus.Valid()
      modifies bus`history, bus`log, bus.known
      ensures bus.Valid()
      ensures bus.log == old(bus.log) + SessionEvents(SessionDiff.Diff(prev, next))
      ensures samples == if store == null then [] else Batch(next, providerByPid, now)
      ensures store != null ==> Observed(samples, next, providerByPid, now)
    {
      samples := EmitAll(next, providerByPid, now);
      BatchIsObserved(next, providerByPid, now);
    }

    // The loop over next.entries().
    method EmitAll(next: SessionDiff.StatusMap, providerByPid: map<int, string>, now: int)
        returns (samples: seq<Sample>)
      requires bus.Valid()
      modifies bus`history, bus`log, bus.known
      ensures bus.Valid()
      ensures bus.log == old(bus.log) + SessionEvents(SessionDiff.Diff(prev, next))
      ensures samples == if store == null then [] else Batch(next, providerByPid, now)
    {
      samples := [];
      var i := 0;
      while i < |next|
        invariant 0 <= i <= |next| && bus.Valid() && Emitted(samples, next[..i], providerByPid, now, old(bus.log))
      {
        samples := EmitEntry(samples, next, i, providerByPid, now, old(bus.log));
        i := i + 1;
      }
      assert next[..i] == next;
    }

    // These entries have been emitted and sampled.
    ghost predicate Emitted(samples: seq<Sample>, entries: seq<(int, RefinedStatus)>, providerByPid: map<int, string>,
                            now: int, start: seq<WsEvent>)
      reads this, bus
    {
      && samples == (if store == null then [] else Batch(entries, providerByPid, now))
      && bus.log == start + SessionEvents(SessionDiff.Diff(prev, entries))
    }

    // The body of that loop.
    method EmitEntry(sofar: seq<Sample>, next: seq<(int, RefinedStatus)>, i: nat, providerByPid: map<int, string>,
                     now: int, ghost start: seq<WsEvent>) returns (samples: seq<Sample>)
      requires bus.Valid() && i < |next| && Emitted(sofar, next[..i], providerByPid, now, start)
      modifies bus`history, bus`log, bus.known
      ensures bus.Valid() && Emitted(samples, next[..i + 1], providerByPid, now, start)
    {
      Report(next, i, start);
      samples := PushSample(sofar, next, i, providerByPid, now);
    }

    // if (pollerOpts.store) samples.push(...)
    method PushSample(sofar: seq<Sample>, next: seq<(int, RefinedStatus)>, i: nat, providerByPid: map<int, string>,
                      now: int) returns (samples: seq<Sample>)
      requires i < |next| && sofar == if store == null then [] else Batch(next[..i], providerByPid, now)
      ensures samples == if store == null then [] else Batch(next[..i + 1], providerByPid, now)
    {
      var (pid, status) := next[i];
      BatchPrefix(next, providerByPid, now, i);
      samples := sofar;
      if store != null { samples := samples + [SampleOf(pid, status, providerByPid, now)]; }
    }

    // One entry of the loop: emit it if it differs from the previous tick.
    method Report(next: seq<(int, RefinedStatus)>, i: nat, ghost start: seq<WsEvent>)
      requires bus.Valid() && i < |next|
      requires bus.log == start + SessionEvents(SessionDiff.Diff(prev, next[..i]))
      modifies bus`history, bus`log, bus.known
      ensures bus.Valid()
      ensures bus.log == start + SessionEvents(SessionDiff.Diff(prev, next[..i + 1]))
    {
      var (pid, status) := next[i];
      var previous := SessionDiff.Get(prev, pid);
      SessionDiff.DiffPrefix(prev, next, i);
      SessionEventsAppend(SessionDiff.Diff(prev, next[..i]), SessionDiff.Change(prev, pid, status));
      if previous != Some(status) {
        bus.Emit(SessionsUpdate(SessionDiff.Update(pid, status, previous)));
      }
    }

    ghost function Books(): Ledger
      requires store != null
      reads store, counter
    {
      Ledger(store.rows, store.nextId, store.pruned, store.closed, counter.written)
    }

    method RecordSamples(samples: seq<Sample>, writeFails: Option<nat>, pruneFails: Option<nat>)
      requires store != null && store.Valid() && samples != []
      modifies store, counter
      ensures store.Valid()
      ensures Recorded(old(Books()), Books(), store.maxRows, samples, writeFails, pruneFails)
    {
      var ok := store.WriteMany(samples, writeFails);
      if !ok { return; }
      CountAll(|samples|);
      var total, statements := store.Prune(pruneFails);
    }

    // One onSampleWritten for each sample.
    method CountAll(n: nat)
      modifies counter
      ensures counter.written == old(counter.written) + n
    {
      for k := 0 to n
        invariant counter.written == old(counter.written) + k
      {
        counter.Bump();
      }
    }
  }

  // The reminder loop with its module variables pollHandle and prevState.
  class ReminderPoller {
    const bus: WsBroadcaster<WsEvent>  // what onEvent forwards to
    var pollHandle: Option<nat>
    var prevState: seq<ReminderDiff.Todo>
    var nextTimer: nat
    ghost var liveTimers: set<nat>  // intervals created and not cleared
    ghost var inflight: nat
    ghost var emitted: seq<ReminderDiff.TodoEvent>

    ghost predicate Valid() reads this {
      liveTimers == if pollHandle == None then {} else {pollHandle.value}
    }

    ghost function State(): ReminderDiff.State reads this {
      ReminderDiff.State(pollHandle != None, prevState, inflight, emitted)
    }

    constructor (bus: WsBroadcaster<WsEvent>)
      ensures Valid() && this.bus == bus && State() == ReminderDiff.INITIAL
    {
      this.bus, pollHandle, prevState, nextTimer, liveTimers := bus, None, [], 0, {};
      inflight, emitted := 0, [];
    }

    // startReminderPolling: no second interval while one is running.
    method Start()
      requires Valid()
      modifies this
      ensures Valid() && State() == ReminderDiff.Do(old(State()), ReminderDiff.StartPolling)
      ensures pollHandle != None && (old(pollHandle) != None ==> pollHandle == old(pollHandle))
      ensures prevState == old(prevState) && inflight == old(inflight) + if old(pollHandle) == None then 1 else 0
    {
      if pollHandle != None { return; }
      pollHandle := Some(nextTimer);
      liveTimers := liveTimers + {nextTimer};
      nextTimer := nextTimer + 1;
      inflight := inflight + 1;
    }

    // stopReminderPolling: idempotent, clears the cache.
    method Stop()
      requires Valid()
      modifies this
      ensures Valid() && State() == ReminderDiff.Do(old(State()), ReminderDiff.StopPolling)
      ensures pollHandle == None && prevState == [] && inflight == old(inflight)
    {
      if pollHandle != None {
        liveTimers := liveTimers - {pollHandle.value};
        pollHandle := None;
      }
      prevState := [];
    }

    // The interval fires.
    method StartTick()
      requires Valid() && pollHandle != None
      modifies this`inflight
      ensures Valid() && State() == ReminderDiff.Do(old(State()), ReminderDiff.TickStarts)
    {
      inflight := inflight + 1;
    }

    // listTodos throws.
    method FailTick()
      requires Valid() && inflight > 0
      modifies this`inflight
      ensures Valid() && State() == ReminderDiff.Do(old(State()), ReminderDiff.TickFails)
    {
      inflight := inflight - 1;
    }

    // The part of tick after `await listTodos`; every event reaches onEvent.
    method CompleteTick(next: ReminderDiff.TodoList)
      requires Valid() && inflight > 0 && bus.Valid()
      modifies this`prevState, this`inflight, this`emitted, bus`history, bus`log, bus.known
      ensures Valid() && bus.Valid()
      ensures State() == ReminderDiff.Do(old(State()), ReminderDiff.TickCompletes(next))
      ensures prevState == next
      ensures bus.log == old(bus.log) + TodoEvents(ReminderDiff.Diff(ReminderDiff.ById(old(prevState)), next))
    {
      var events := ReminderDiff.DiffTodos(prevState, next);
      prevState := next;
      inflight := inflight - 1;
      emitted := emitted + events;
      ForwardAll(events);
    }

    // for (const e of events) opts.onEvent(e), where onEvent broadcasts.
    method ForwardAll(events: seq<ReminderDiff.TodoEvent>)
      requires bus.Valid()
      modifies bus`history, bus`log, bus.known
      ensures bus.Valid()
      ensures bus.log == old(bus.log) + TodoEvents(events)
    {
      for i := 0 to |events|
        invariant bus.Valid() && bus.log == old(bus.log) + TodoEvents(events[..i])
      {
        bus.Emit(TodoNews(events[i]));
        assert TodoEvents(events[..i + 1]) == TodoEvents(events[..i]) + [TodoNews(events[i])];
      }
      assert events[..|events|] == events;
    }
  }
}
