// Graceful shutdown: gracefulClose of src/http/server.ts, the wait for clients in close of
// src/http/ws.ts, and close of startDaemon in src/http/index.ts.
module Shutdown {
  import opened Common

  // ------------------------------------------- draining the responses in flight

  // What can happen to the HTTP server while gracefulClose waits: a request arrives on a
  // connection that is still open, a response emits `close`, the timer fires.
  datatype Event<R> = Arrive(res: R) | Finish(res: R) | Deadline

  datatype Outcome = Waiting | Resolved(drained: bool)

  // `watched` are the responses that were given a check listener; `outcome` is what the
  // promise was resolved with.
  datatype Drain<R> = Drain(inflight: set<R>, watched: set<R>, outcome: Outcome)

  // The executor of the promise.
  function Begin<R>(inflight: set<R>): Drain<R> {
    Drain(inflight, inflight, if inflight == {} then Resolved(true) else Waiting)
  }

  function Step<R>(d: Drain<R>, e: Event<R>): Drain<R> {
    match e
    case Arrive(res) => d.(inflight := d.inflight + {res})
    case Finish(res) =>
      if res !in d.inflight then d else
      var left := d.inflight - {res};
      Drain(left, d.watched - {res},
            if d.outcome == Waiting && res in d.watched && left == {} then Resolved(true) else d.outcome)
    case Deadline => if d.outcome == Waiting then d.(outcome := Resolved(false)) else d
  }

  function Run<R>(d: Drain<R>, events: seq<Event<R>>): Drain<R> {
    if events == [] then d else Step(Run(d, events[..|events| - 1]), events[|events| - 1])
  }

  // An original response that has not closed yet.
  ghost predicate Pending<R>(start: set<R>, events: seq<Event<R>>, res: R) {
    res in start && Finish(res) !in events
  }

  // Event j is an arrival that has not closed since.
  ghost predicate Stays<R>(events: seq<Event<R>>, j: nat, res: R) {
    j < |events| && events[j] == Arrive(res) && Finish(res) !in events[j + 1..]
  }

  // In flight after these events: pending, or arrived and not closed since.
  ghost predicate Live<R>(start: set<R>, events: seq<Event<R>>, res: R) {
    Pending(start, events, res) || exists j: nat :: Stays(events, j, res)
  }

  // At position k, before any deadline, the last original closes and nothing is in flight.
  ghost predicate ClearsAt<R(!new)>(start: set<R>, events: seq<Event<R>>, k: nat) {
    && k < |events|
    && Deadline !in events[..k]
    && (exists res :: Pending(start, events[..k], res))
    && NothingLive(start, events[..k + 1])
  }

  ghost predicate NothingLive<R(!new)>(start: set<R>, events: seq<Event<R>>) {
    forall res {:trigger Live(start, events, res)} :: !Live(start, events, res)
  }

  lemma LiveAfter<R>(start: set<R>, events: seq<Event<R>>, e: Event<R>, res: R)
    ensures Pending(start, events + [e], res) <==> Pending(start, events, res) && e != Finish(res)
    ensures Live(start, events + [e], res) <==> e == Arrive(res) || (Live(start, events, res) && e != Finish(res))
  {
    var more := events + [e];
    assert more[|events| + 1..] == [];
    assert e == Arrive(res) <==> Stays(more, |events|, res);
    forall j: nat | j < |events| ensures Stays(more, j, res) <==> Stays(events, j, res) && e != Finish(res) {
      assert more[j + 1..] == events[j + 1..] + [e];
    }
  }

  // The two sets are what the event log says, whatever the order of events.
  lemma {:induction false} DrainTracksLog<R(!new)>(start: set<R>, events: seq<Event<R>>)
    ensures forall res :: res in Run(Begin(start), events).inflight <==> Live(start, events, res)
    ensures forall res :: res in Run(Begin(start), events).watched <==> Pending(start, events, res)
    decreases |events|
  {
    if events != [] {
      var before, e := events[..|events| - 1], events[|events| - 1];
      assert events == before + [e];
      DrainTracksLog(start, before);
      forall res
        ensures res in Run(Begin(start), events).inflight <==> Live(start, events, res)
        ensures res in Run(Begin(start), events).watched <==> Pending(start, events, res)
      {
        LiveAfter(start, before, e, res);
      }
    }
  }

  lemma ClearsEarlier<R(!new)>(start: set<R>, before: seq<Event<R>>, e: Event<R>, k: nat)
    requires k < |before|
    ensures ClearsAt(start, before + [e], k) <==> ClearsAt(start, before, k)
  {
    assert (before + [e])[..k] == before[..k] && (before + [e])[..k + 1] == before[..k + 1];
  }

  ghost predicate Cleared<R(!new)>(start: set<R>, events: seq<Event<R>>) {
    exists k: nat :: ClearsAt(start, events, k)
  }

  // The event that clears: the last original closes, and nothing else is in flight.
  ghost predicate Clears<R>(d: Drain<R>, e: Event<R>) {
    e.Finish? && e.res in d.watched && e.res in d.inflight && d.inflight - {e.res} == {}
  }

  lemma ClearsNow<R(!new)>(start: set<R>, before: seq<Event<R>>, e: Event<R>)
    ensures ClearsAt(start, before + [e], |before|) <==> Deadline !in before && Clears(Run(Begin(start), before), e)
  {
    var d, events := Run(Begin(start), before), before + [e];
    DrainTracksLog(start, before);
    DrainTracksLog(start, events);
    assert events[..|before|] == before && events[..|before| + 1] == events;
    var after := Step(d, e);
    assert Run(Begin(start), events) == after;
    assert NothingLive(start, events) <==> after.inflight == {};
    assert (exists res :: Pending(start, before, res)) <==> d.watched != {};
    forall res ensures Pending(start, before, res) ==> Live(start, before, res) {}
    assert d.watched <= d.inflight;
    assert forall res :: Pending(start, events, res) ==> Live(start, events, res);
  }

  lemma ClearedAfter<R(!new)>(start: set<R>, before: seq<Event<R>>, e: Event<R>)
    ensures Cleared(start, before + [e]) <==>
      Cleared(start, before) || (Deadline !in before && Clears(Run(Begin(start), before), e))
  {
    ClearsNow(start, before, e);
    forall k: nat | k < |before| ensures ClearsAt(start, before + [e], k) <==> ClearsAt(start, before, k) {
      ClearsEarlier(start, before, e, k);
    }
  }

  // The promise resolves with true exactly if nothing was in flight to begin with, or the
  // last original response closed before the deadline at a moment when no later arrival was
  // in flight; with false exactly if the deadline passed without that.
  lemma {:induction false} DrainedExactlyWhen<R(!new)>(start: set<R>, events: seq<Event<R>>)
    ensures Run(Begin(start), events).outcome == Resolved(true) <==> start == {} || Cleared(start, events)
    ensures Run(Begin(start), events).outcome == Resolved(false) <==>
      start != {} && Deadline in events && !Cleared(start, events)
    decreases |events|
  {
    if events != [] {
      var before, e := events[..|events| - 1], events[|events| - 1];
      assert events == before + [e];
      DrainedExactlyWhen(start, before);
      ClearedAfter(start, before, e);
      var d := Run(Begin(start), before);
      assert Run(Begin(start), events) == Step(d, e);
      assert Deadline in events <==> Deadline in before || e == Deadline;
    } else {
      assert !Cleared(start, events);
    }
  }

  // Every original response has closed by position k, before any deadline.
  ghost predicate AllClosedBy<R(!new)>(start: set<R>, events: seq<Event<R>>, k: nat) {
    k <= |events| && Deadline !in events[..k] && forall res :: res in start ==> Finish(res) in events[..k]
  }

  ghost predicate ClosedInTime<R(!new)>(start: set<R>, events: seq<Event<R>>) {
    exists k: nat :: AllClosedBy(start, events, k)
  }

  lemma ClosedInTimeAfter<R(!new)>(start: set<R>, before: seq<Event<R>>, e: Event<R>)
    ensures ClosedInTime(start, before + [e]) <==>
      ClosedInTime(start, before) || AllClosedBy(start, before + [e], |before| + 1)
  {
    forall k: nat | k <= |before| ensures AllClosedBy(start, before + [e], k) <==> AllClosedBy(start, before, k) {
      assert (before + [e])[..k] == before[..k];
    }
  }

  lemma AllClosedNow<R(!new)>(start: set<R>, events: seq<Event<R>>)
    ensures AllClosedBy(start, events, |events|) <==> Deadline !in events && Run(Begin(start), events).watched == {}
  {
    DrainTracksLog(start, events);
    assert events[..|events|] == events;
    var watched := Run(Begin(start), events).watched;
    if watched == {} {
      forall res | res in start ensures Finish(res) in events {
        assert res !in watched;
        assert !Pending(start, events, res);
      }
    } else {
      var res :| res in watched;
      assert Pending(start, events, res);
    }
  }

  // If no request arrives during shutdown, drained means what it says: everything in flight
  // at the start closed before the deadline.
  lemma {:induction false} WithoutArrivals<R(!new)>(start: set<R>, events: seq<Event<R>>)
    requires forall i :: 0 <= i < |events| ==> !events[i].Arrive?
    ensures Run(Begin(start), events).inflight == Run(Begin(start), events).watched
    ensures Run(Begin(start), events).outcome == Resolved(true) <==> ClosedInTime(start, events)
    decreases |events|
  {
    DrainTracksLog(start, events);
    if events == [] {
      if start == {} {
        assert AllClosedBy(start, events, 0);
      }
    } else {
      var before, e := events[..|events| - 1], events[|events| - 1];
      assert events == before + [e];
      var d := Run(Begin(start), before);
      assert Run(Begin(start), events) == Step(d, e);
      WithoutArrivals(start, before);
      DrainedExactlyWhen(start, before);
      ClosedInTimeAfter(start, before, e);
      AllClosedNow(start, events);
      AllClosedNow(start, before);
    }
  }

  // With arrivals it does not: the listeners sit on the originals only, so a late request
  // that overlaps the last of them hides a drain that was complete before the deadline.
  lemma ArrivalHidesTheDrain()
    ensures var events := [Arrive(2), Finish(1), Finish(2), Deadline];
      ClosedInTime({1}, events) && Run(Begin({1}), events).inflight == {}
      && Run(Begin({1}), events).outcome == Resolved(false)
  {
    var events := [Arrive(2), Finish(1), Finish(2), Deadline];
    var d := Begin({1});
    assert events[..3] == [Arrive(2), Finish(1), Finish(2)];
    assert events[..2] == [Arrive(2), Finish(1)];
    assert events[..1] == [Arrive(2)];
    assert AllClosedBy({1}, events, 3);
    assert Run(d, events[..1]) == Step(d, Arrive(2)) by { assert events[..1][..0] == []; }
    assert Run(d, events[..2]) == Step(Run(d, events[..1]), Finish(1)) by { assert events[..2][..1] == events[..1]; }
    assert Run(d, events[..3]) == Step(Run(d, events[..2]), Finish(2)) by { assert events[..3][..2] == events[..2]; }
    assert Run(d, events) == Step(Run(d, events[..3]), Deadline);
  }

  datatype DrainReport = DrainReport(drained: bool, inflightAtStart: nat, inflightAtEnd: nat)

  // What a second call answers at once, and what the first one reports in the end.
  function SecondAnswer<R>(now: Drain<R>): DrainReport { DrainReport(true, |now.inflight|, 0) }

  function FirstReport<R>(start: set<R>, end: Drain<R>): DrainReport
    requires end.outcome != Waiting
  {
    DrainReport(end.outcome.drained, |start|, |end.inflight|)
  }

  lemma {:induction false} RunConcat<R>(d: Drain<R>, a: seq<Event<R>>, b: seq<Event<R>>)
    ensures Run(d, a + b) == Run(Run(d, a), b)
    decreases |b|
  {
    if b == [] {
      assert a + b == a;
    } else {
      RunConcat(d, a, b[..|b| - 1]);
      assert (a + b)[..|a + b| - 1] == a + b[..|b| - 1];
    }
  }

  lemma {:induction false} ResolvedStays<R>(d: Drain<R>, events: seq<Event<R>>)
    requires d.outcome != Waiting
    ensures Run(d, events).outcome == d.outcome
    decreases |events|
  {
    if events != [] { ResolvedStays(d, events[..|events| - 1]); }
  }

  // The first call has not reported an undrained server.
  ghost predicate NotContradicted<R>(start: set<R>, before: seq<Event<R>>, more: seq<Event<R>>) {
    Run(Begin(start), before + more).outcome != Resolved(false)
  }

  // A second call claims a drained server. Whatever happens next, the first call will not
  // contradict it exactly when the wait has already ended with a drain.
  lemma SecondCallIsRightExactlyWhen<R(!new)>(start: set<R>, before: seq<Event<R>>)
    ensures (forall more :: NotContradicted(start, before, more)) <==> start == {} || Cleared(start, before)
  {
    var d := Run(Begin(start), before);
    DrainedExactlyWhen(start, before);
    if d.outcome == Resolved(true) {
      forall more ensures NotContradicted(start, before, more) {
        RunConcat(Begin(start), before, more);
        ResolvedStays(d, more);
      }
    } else {
      var late: seq<Event<R>> := [Deadline];
      RunConcat(Begin(start), before, late);
      assert Run(d, late) == Step(d, Deadline) by { assert late[..0] == []; }
      assert !NotContradicted(start, before, late);
    }
  }

  // The two reports are the same exactly when the first call drained, ends with nothing in
  // flight, and as many responses were in flight at the second call as at the first.
  lemma SecondReportAgreesExactlyWhen<R(!new)>(start: set<R>, before: seq<Event<R>>, more: seq<Event<R>>)
    requires Run(Begin(start), before + more).outcome != Waiting
    ensures SecondAnswer(Run(Begin(start), before)) == FirstReport(start, Run(Begin(start), before + more)) <==>
      && (start == {} || Cleared(start, before + more))
      && NothingLive(start, before + more)
      && |Run(Begin(start), before).inflight| == |start|
  {
    var end := Run(Begin(start), before + more);
    DrainedExactlyWhen(start, before + more);
    DrainTracksLog(start, before + more);
    assert NothingLive(start, before + more) <==> end.inflight == {};
    assert end.outcome.drained <==> end.outcome == Resolved(true);
  }

  // The variables of startHttpServer and of the one gracefulClose that waits.
  class HttpServer<R(==, !new)> {
    var inflight: set<R>
    var watched: set<R>
    var outcome: Outcome
    var closed: bool
    var inflightAtStart: nat
    ghost var start: set<R>  // what was in flight at the first gracefulClose
    ghost var events: seq<Event<R>>  // what has happened since

    function State(): Drain<R> reads this { Drain(inflight, watched, outcome) }

    ghost predicate Valid() reads this {
      && (!closed ==> watched == {} && outcome == Waiting && events == [])
      && (closed ==> State() == Run(Begin(start), events) && inflightAtStart == |start|)
    }

    constructor ()
      ensures Valid() && State() == Drain({}, {}, Waiting) && !closed
    {
      inflight, watched, outcome, closed, inflightAtStart := {}, {}, Waiting, false, 0;
      start, events := {}, [];
    }

    ghost method Log(e: Event<R>)
      modifies this`events
      ensures events == if closed then old(events) + [e] else old(events)
      ensures closed ==> Run(Begin(start), events) == Step(Run(Begin(start), old(events)), e)
    {
      if closed {
        assert (events + [e])[..|events|] == events;
        events := events + [e];
      }
    }

    method Request(res: R)
      requires Valid()
      modifies this`inflight, this`events
      ensures Valid() && State() == Step(old(State()), Arrive(res))
      ensures events == if closed then old(events) + [Arrive(res)] else old(events)
    {
      inflight := inflight + {res};
      Log(Arrive(res));
    }

    // The `close` listeners of one response, in the order they were attached.
    method ResponseCloses(res: R)
      requires Valid() && res in inflight
      modifies this`inflight, this`watched, this`outcome, this`events
      ensures Valid() && State() == Step(old(State()), Finish(res))
      ensures events == if closed then old(events) + [Finish(res)] else old(events)
    {
      inflight := inflight - {res};
      if res in watched {
        if |inflight| == 0 && outcome == Waiting {
          outcome := Resolved(true);
        }
      }
      watched := watched - {res};
      Log(Finish(res));
    }

    method DeadlinePasses()
      requires Valid() && closed
      modifies this`outcome, this`events
      ensures Valid() && State() == Step(old(State()), Deadline) && events == old(events) + [Deadline]
    {
      if outcome == Waiting {
        outcome := Resolved(false);
      }
      Log(Deadline);
    }

    // None: the caller waits. A second call answers at once, whatever is still in flight.
    method GracefulClose() returns (answer: Option<DrainReport>)
      requires Valid()
      modifies this
      ensures Valid() && closed && inflight == old(inflight)
      ensures old(closed) ==> answer == Some(SecondAnswer(State()))
      ensures old(closed) ==> State() == old(State()) && start == old(start) && events == old(events)
      ensures !old(closed) ==> answer == None && start == old(inflight) && events == []
    {
      var atStart := |inflight|;
      if closed {
        return Some(DrainReport(true, atStart, 0));
      }
      closed := true;
      inflightAtStart := atStart;
      start := inflight;
      if |inflight| == 0 {
        outcome := Resolved(true);
      } else {
        watched := inflight;
      }
      answer := None;
    }

    // The server's own close callback has fired after the wait. What happened since the first
    // call decides its report, and whether connections were cut.
    method Settle() returns (report: DrainReport, cut: bool)
      requires Valid() && closed && outcome != Waiting
      ensures report.drained <==> start == {} || Cleared(start, events)
      ensures cut <==> start != {} && Deadline in events && !Cleared(start, events)
      ensures report.inflightAtStart == |start| && report.inflightAtEnd == |inflight|
      ensures forall res :: res in inflight <==> Live(start, events, res)
      ensures report == FirstReport(start, Run(Begin(start), events))
    {
      DrainedExactlyWhen(start, events);
      DrainTracksLog(start, events);
      return DrainReport(outcome.drained, inflightAtStart, |inflight|), !outcome.drained;
    }
  }

  // ------------------------------------------------ waiting for the WebSockets

  datatype WsEvent<C> = ClientCloses(client: C) | TimerFires

  datatype Wait<C> = Wait(open: set<C>, remaining: int, resolved: bool, terminated: set<C>)

  // After the loop over the clients; `throws` are those whose close() threw.
  function BeginWait<C>(clients: set<C>, throws: set<C>): Wait<C> {
    Wait(clients, |clients| - |throws|, |clients| <= |throws|, {})
  }

  function WaitStep<C>(w: Wait<C>, e: WsEvent<C>): Wait<C> {
    match e
    case ClientCloses(c) =>
      if c !in w.open then w else
      Wait(w.open - {c}, w.remaining - 1, w.resolved || w.remaining - 1 <= 0, w.terminated)
    case TimerFires => w.(resolved := true, terminated := w.terminated + w.open)
  }

  function WaitRun<C>(w: Wait<C>, events: seq<WsEvent<C>>): Wait<C> {
    if events == [] then w else WaitStep(WaitRun(w, events[..|events| - 1]), events[|events| - 1])
  }

  // The clients that have not closed after these events.
  function StillOpen<C(!new)>(clients: set<C>, events: seq<WsEvent<C>>): set<C> {
    set c | c in clients && ClientCloses(c) !in events
  }

  // The wait ends with the timer, or when no more clients are open than had close() throw.
  lemma {:induction false} WaitEndsExactlyWhen<C(!new)>(clients: set<C>, throws: set<C>, events: seq<WsEvent<C>>)
    ensures var w := WaitRun(BeginWait(clients, throws), events);
      && w.open == StillOpen(clients, events)
      && w.remaining == |w.open| - |throws|
      && (w.resolved <==> TimerFires in events || |StillOpen(clients, events)| <= |throws|)
    decreases |events|
  {
    if events == [] {
      assert StillOpen(clients, events) == clients;
    } else {
      var before, e := events[..|events| - 1], events[|events| - 1];
      assert events == before + [e];
      WaitEndsExactlyWhen(clients, throws, before);
      var left := StillOpen(clients, before);
      assert StillOpen(clients, events) == if e.ClientCloses? then left - {e.client} else left;
    }
  }

  // Event k is the timer, and the client has not closed before it.
  ghost predicate CutAt<C>(clients: set<C>, events: seq<WsEvent<C>>, c: C, k: nat) {
    k < |events| && events[k] == TimerFires && c in clients && ClientCloses(c) !in events[..k]
  }

  ghost predicate IsCut<C>(clients: set<C>, events: seq<WsEvent<C>>, c: C) {
    exists k: nat :: CutAt(clients, events, c, k)
  }

  lemma CutNext<C>(clients: set<C>, before: seq<WsEvent<C>>, e: WsEvent<C>, c: C)
    ensures IsCut(clients, before + [e], c) <==>
            IsCut(clients, before, c) || (e == TimerFires && c in clients && ClientCloses(c) !in before)
  {
    var events, n := before + [e], |before|;
    assert events[..n] == before && events[n] == e;
    forall k: nat | k < n ensures CutAt(clients, events, c, k) <==> CutAt(clients, before, c, k) {
      assert events[..k] == before[..k];
    }
    if k: nat :| CutAt(clients, before, c, k) { assert CutAt(clients, events, c, k); }
    assert CutAt(clients, events, c, n) <==> e == TimerFires && c in clients && ClientCloses(c) !in before;
  }

  // The hard stop terminates exactly the clients that have not closed when the timer fires.
  lemma {:induction false} TerminatedExactlyWhen<C(!new)>(
    clients: set<C>, throws: set<C>, events: seq<WsEvent<C>>, c: C)
    ensures c in WaitRun(BeginWait(clients, throws), events).terminated <==> IsCut(clients, events, c)
    decreases |events|
  {
    if events != [] {
      var before, e := events[..|events| - 1], events[|events| - 1];
      assert events == before + [e];
      TerminatedExactlyWhen(clients, throws, before, c);
      WaitEndsExactlyWhen(clients, throws, before);
      CutNext(clients, before, e, c);
    }
  }

  ghost function CloseAll<C(!new)>(clients: set<C>): (events: seq<WsEvent<C>>)
    ensures TimerFires !in events
    ensures forall c :: ClientCloses(c) in events <==> c in clients
  {
    if clients == {} then [] else
    var c :| c in clients;
    CloseAll(clients - {c}) + [ClientCloses(c)]
  }

  // While the timer has not fired, the wait is over exactly when everybody has closed.
  ghost predicate WaitsForAll<C(!new)>(clients: set<C>, throws: set<C>, events: seq<WsEvent<C>>) {
    WaitRun(BeginWait(clients, throws), events).resolved <==> StillOpen(clients, events) == {}
  }

  // So the wait is for all clients, whatever they do, exactly when no close() throws: each
  // throw is counted once by the catch and may be counted again by a close event.
  lemma WaitIsForAllExactlyWhen<C(!new)>(clients: set<C>, throws: set<C>)
    requires throws <= clients
    ensures throws == {} <==>
      forall events {:trigger WaitsForAll(clients, throws, events)} :: TimerFires !in events ==>
          WaitsForAll(clients, throws, events)
  {
    if throws == {} {
      forall events: seq<WsEvent<C>> | TimerFires !in events ensures WaitsForAll(clients, throws, events) {
        WaitEndsExactlyWhen(clients, throws, events);
      }
    } else {
      var c :| c in throws;
      var events := CloseAll(clients - {c});
      WaitEndsExactlyWhen(clients, throws, events);
      assert StillOpen(clients, events) == {c};
      assert |throws| >= 1;
      assert !WaitsForAll(clients, throws, events);
    }
  }

  // How many of these clients' close() throws.
  function ThrowsAmong<C(==)>(clients: seq<C>, throws: set<C>): nat {
    if clients == [] then 0 else
    ThrowsAmong(clients[..|clients| - 1], throws) + if clients[|clients| - 1] in throws then 1 else 0
  }

  lemma OneMore<C>(clients: seq<C>, throws: set<C>, i: nat)
    requires i < |clients|
    ensures ThrowsAmong(clients[..i + 1], throws) ==
            ThrowsAmong(clients[..i], throws) + if clients[i] in throws then 1 else 0
  {
    assert clients[..i + 1][..i] == clients[..i];
  }

  lemma {:induction false} ThrowsAmongIs<C(!new)>(clients: seq<C>, throws: set<C>)
    requires Distinct(clients)
    ensures ThrowsAmong(clients, throws) == |throws * Elements(clients)|
  {
    if clients != [] {
      var before, c := clients[..|clients| - 1], clients[|clients| - 1];
      assert clients == before + [c];
      ThrowsAmongIs(before, throws);
      assert c !in before;
      var counted := throws * Elements(before);
      assert throws * Elements(clients) == if c in throws then counted + {c} else counted;
    }
  }

  lemma AllThrowsCounted<C(!new)>(clients: seq<C>, throws: set<C>)
    requires Distinct(clients) && throws <= Elements(clients)
    ensures clients[..|clients|] == clients && ThrowsAmong(clients, throws) == |throws|
    ensures |Elements(clients)| == |clients|
  {
    ThrowsAmongIs(clients, throws);
    DistinctByCount(clients);
    assert throws * Elements(clients) == throws;
    assert clients[..|clients|] == clients;
  }

  // The variables of one close() of attachWebSocket.
  class ClosingClients<C(==, !new)> {
    var open: set<C>
    var remaining: int
    var resolved: bool
    var terminated: set<C>

    function State(): Wait<C> reads this { Wait(open, remaining, resolved, terminated) }

    // Close every client; an exception counts as done.
    constructor (clients: seq<C>, throws: set<C>)
      requires Distinct(clients) && throws <= Elements(clients)
      ensures State() == BeginWait(Elements(clients), throws)
    {
      open, remaining, resolved, terminated := Elements(clients), |clients|, |clients| == 0, {};
      new;
      var i := 0;
      while i < |clients|
        invariant 0 <= i <= |clients|
        invariant open == Elements(clients) && terminated == {}
        invariant remaining == |clients| - ThrowsAmong(clients[..i], throws)
        invariant resolved <==> remaining <= 0
      {
        OneMore(clients, throws, i);
        if clients[i] in throws {
          Done();
        }
        i := i + 1;
      }
      AllThrowsCounted(clients, throws);
    }

    method Done()
      modifies this`remaining, this`resolved
      ensures remaining == old(remaining) - 1 && (resolved <==> old(resolved) || remaining <= 0)
    {
      remaining := remaining - 1;
      if remaining <= 0 {
        resolved := true;
      }
    }

    method ClientCloses(c: C)
      requires c in open
      modifies this`open, this`remaining, this`resolved
      ensures State() == WaitStep(old(State()), WsEvent.ClientCloses(c))
    {
      open := open - {c};
      Done();
    }

    // The hard stop.
    method TimerFires()
      modifies this`resolved, this`terminated
      ensures State() == WaitStep(old(State()), WsEvent.TimerFires)
    {
      terminated := terminated + open;
      resolved := true;
    }
  }
}
