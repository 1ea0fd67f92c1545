// src/http/index.ts, startDaemon: one shutdown in order, answered the same ever after.
module Daemon {
  import opened Common
  import opened Shutdown
  import Pollers
  import Timeseries

  datatype Report = Report(
    httpDrained: bool, inflightAtStart: nat, wsClientsClosed: nat, elapsedMs: int, samplesWritten: nat)

  datatype Phase = Serving | ClosingWs | Draining | Finished

  // What the daemon has asked its parts to do, with the time each may take.
  datatype Effect = CloseWs(budgetMs: int) | CloseHttp(budgetMs: int) | CloseStore

  // The variables of startDaemon and of the first close(), which stands at one of its awaits;
  // `books` are the store and the counter writtenCount, `cap` is the store's maxRows.
  datatype State = State(
    phase: Phase, ws: Wait<nat>, http: Drain<nat>, inflightAtStart: nat, wsClients: nat,
    startedAt: int, half: int, cap: int, books: Pollers.Ledger, cached: Option<Report>, effects: seq<Effect>)

  // Over a database file that may already hold rows.
  function Boot(books: Pollers.Ledger, cap: int): State {
    State(Serving, Wait({}, 0, false, {}), Drain({}, {}, Waiting), 0, 0, 0, 0, cap, books, None, [])
  }

  // A store just opened, and a counter that starts at zero.
  predicate Opened(books: Pollers.Ledger) { !books.closed && books.written == 0 && books.pruned == 0 }

  datatype DaemonEvent =
    | CallClose(timeoutMs: int, now: int, listening: bool, clients: set<nat>, throws: set<nat>)
    | Ws(ws: WsEvent<nat>)
    | WsServerClosed
    | Http(http: Event<nat>)
    | HttpServerClosed(now: int)
    | StoreTick(batch: seq<Timeseries.Sample>, writeFails: Option<nat>, pruneFails: Option<nat>, after: Pollers.Ledger)

  // Math.max(100, Math.floor(timeoutMs / 2))
  function Half(timeoutMs: int): int {
    if timeoutMs / 2 < 100 then 100 else timeoutMs / 2
  }

  // A poller's tick that leaves store and counter as they are after it.
  ghost predicate Ticks(s: State, e: DaemonEvent) {
    e.StoreTick? && Pollers.Recorded(s.books, e.after, s.cap, e.batch, e.writeFails, e.pruneFails)
  }

  ghost function Do(s: State, e: DaemonEvent): State {
    match e
    case CallClose(timeoutMs, now, listening, clients, throws) =>
      if s.phase != Serving then s
      else s.(phase := ClosingWs, ws := BeginWait(clients, throws), wsClients := if listening then |clients| else 0,
              startedAt := now, half := Half(timeoutMs), effects := s.effects + [CloseWs(Half(timeoutMs))])
    case Ws(e) => if s.phase == Serving then s else s.(ws := WaitStep(s.ws, e))
    case WsServerClosed =>
      if s.phase != ClosingWs || !s.ws.resolved then s
      else s.(phase := Draining, http := Begin(s.http.inflight), inflightAtStart := |s.http.inflight|,
              effects := s.effects + [CloseHttp(s.half)])
    case Http(e) => if e == Deadline && s.phase != Draining then s else s.(http := Step(s.http, e))
    case HttpServerClosed(now) =>
      if s.phase != Draining || s.http.outcome == Waiting then s
      else s.(phase := Finished, books := s.books.(closed := true), effects := s.effects + [CloseStore],
              cached := Some(Report(s.http.outcome.drained, s.inflightAtStart, s.wsClients, now - s.startedAt,
                                    s.books.written)))
    case StoreTick(_, _, _, after) => if Ticks(s, e) then s.(books := after) else s
  }

  // What a call of close() made now is answered with at once; None if it waits.
  function Answer(s: State): Option<Report> {
    if s.phase == Serving then None
    else if s.cached != None then s.cached
    else Some(Report(true, 0, 0, 0, s.books.written))
  }

  ghost function RunAll(s: State, events: seq<DaemonEvent>): State {
    if events == [] then s else Do(RunAll(s, events[..|events| - 1]), events[|events| - 1])
  }

  ghost predicate InOrder(s: State) {
    s.effects == match s.phase
                 case Serving => []
                 case ClosingWs => [CloseWs(s.half)]
                 case Draining => [CloseWs(s.half), CloseHttp(s.half)]
                 case Finished => [CloseWs(s.half), CloseHttp(s.half), CloseStore]
  }

  // The store outlives every response that a drained shutdown waited for, and the report
  // is and stays the truth.
  ghost predicate Sound(s: State) {
    && InOrder(s)
    && (s.books.closed <==> s.phase == Finished)
    && (s.cached != None <==> s.phase == Finished)
    && s.http.watched <= s.http.inflight
    && (s.phase == Serving || s.phase == ClosingWs ==> s.http.watched == {} && s.http.outcome == Waiting)
    && (s.http.outcome == Resolved(true) ==> s.http.watched == {})
    && ((s.phase == Draining || s.phase == Finished) && s.inflightAtStart == 0 ==> s.http.outcome == Resolved(true))
    && (s.phase == Finished ==> ReportIsTrue(s, s.cached.value))
  }

  ghost predicate ReportIsTrue(s: State, r: Report) {
    && Resolved(r.httpDrained) == s.http.outcome
    && r.samplesWritten == s.books.written && r.inflightAtStart == s.inflightAtStart && r.wsClientsClosed == s.wsClients
    && (!r.httpDrained ==> r.inflightAtStart > 0)
  }

  lemma StepKeepsSound(s: State, e: DaemonEvent)
    requires Sound(s)
    ensures Sound(Do(s, e))
  {
  }

  // In every reachable state: the WebSocket part is closed first, then HTTP, then the store,
  // each once however often close() is called; and a shutdown that reports drained closed
  // the store only after the last response it found in flight.
  lemma {:induction false} ShutsDownInOrder(books: Pollers.Ledger, cap: int, events: seq<DaemonEvent>)
    requires Opened(books)
    ensures Sound(RunAll(Boot(books, cap), events))
    ensures var s := RunAll(Boot(books, cap), events);
      s.books.closed && s.cached.value.httpDrained ==> s.http.watched == {}
  {
    if events != [] {
      ShutsDownInOrder(books, cap, events[..|events| - 1]);
      StepKeepsSound(RunAll(Boot(books, cap), events[..|events| - 1]), events[|events| - 1]);
    }
  }

  // The samples a run of the daemon gets written.
  ghost function AcceptedBy(s: State, e: DaemonEvent): nat {
    if Ticks(s, e) && !Pollers.Refused(s.books, e.batch, e.writeFails) then |e.batch| else 0
  }

  ghost function AcceptedIn(s: State, events: seq<DaemonEvent>): nat {
    if events == [] then 0 else
    var init := events[..|events| - 1];
    AcceptedIn(s, init) + AcceptedBy(RunAll(s, init), events[|events| - 1])
  }

  // In every reachable state of the daemon the books balance: rows are the rows at open plus
  // the samples counted minus the rows pruned, the counter is what ticks got accepted, and
  // that is what a call of close() is answered with, during shutdown and in the end.
  lemma {:induction false} ReportCountsTheBooks(books: Pollers.Ledger, cap: int, events: seq<DaemonEvent>)
    requires Opened(books)
    ensures var t := RunAll(Boot(books, cap), events);
      && |t.books.rows| + t.books.pruned == |books.rows| + t.books.written
      && t.books.written == AcceptedIn(Boot(books, cap), events)
      && (Answer(t) != None ==> Answer(t).value.samplesWritten == AcceptedIn(Boot(books, cap), events))
  {
    ShutsDownInOrder(books, cap, events);
    if events != [] {
      ReportCountsTheBooks(books, cap, events[..|events| - 1]);
      StepBalances(RunAll(Boot(books, cap), events[..|events| - 1]), events[|events| - 1]);
    }
  }

  lemma StepBalances(s: State, e: DaemonEvent)
    ensures Do(s, e).books.written == s.books.written + AcceptedBy(s, e)
    ensures |Do(s, e).books.rows| + Do(s, e).books.pruned == |s.books.rows| + s.books.pruned + AcceptedBy(s, e)
  {
  }

  // After completion nothing that happens changes the answer, and asking changes nothing.
  lemma {:induction false} RepeatedCloseIsIdempotent(s: State, events: seq<DaemonEvent>)
    requires Sound(s) && s.phase == Finished
    ensures var t := RunAll(s, events);
      && Answer(t) == Answer(s) == s.cached
      && t.phase == Finished && t.books == s.books && t.effects == s.effects
    ensures forall e: DaemonEvent :: e.CallClose? ==> Do(RunAll(s, events), e) == RunAll(s, events)
  {
    if events != [] {
      RepeatedCloseIsIdempotent(s, events[..|events| - 1]);
    }
  }

  // Before that it may change: the answer of a repeated call is the answer of every later
  // one exactly when shutdown has completed.
  lemma AnswerIsFinalExactlyWhen(s: State)
    requires Sound(s) && s.phase != Serving
    ensures (forall events :: Answer(RunAll(s, events)) == Answer(s)) <==> s.phase == Finished
    ensures s.phase != Finished ==> Answer(s) == Some(Report(true, 0, 0, 0, s.books.written))
  {
    if s.phase == Finished {
      forall events ensures Answer(RunAll(s, events)) == Answer(s) { RepeatedCloseIsIdempotent(s, events); }
    } else {
      var events, report := TimesOut(s);
      assert Answer(RunAll(s, events)) == Some(report);
    }
  }

  lemma RunAllNext(s: State, events: seq<DaemonEvent>, e: DaemonEvent)
    ensures RunAll(s, events + [e]) == Do(RunAll(s, events), e)
  {
    assert (events + [e])[..|events|] == events;
  }

  // Some run leads from s to t.
  ghost predicate Reaches(s: State, t: State) { exists events :: RunAll(s, events) == t }

  lemma ReachesItself(s: State)
    ensures Reaches(s, s)
  {
    assert RunAll(s, []) == s;
  }

  lemma ReachesNext(s: State, t: State, e: DaemonEvent)
    requires Reaches(s, t)
    ensures Reaches(s, Do(t, e))
  {
    var events :| RunAll(s, events) == t;
    RunAllNext(s, events, e);
  }

  // From the end of the WebSockets on: the deadline passes, then the server closes.
  lemma DrainEnds(s: State, t: State, now: int) returns (u: State)
    requires Reaches(s, t) && Sound(t) && t.phase == Draining
    ensures Reaches(s, u) && u.phase == Finished && u.cached != None && u.cached.value.elapsedMs == now - t.startedAt
    ensures t.http.outcome != Resolved(true) ==> !u.cached.value.httpDrained
  {
    ReachesNext(s, t, Http(Deadline));
    ReachesNext(s, Do(t, Http(Deadline)), HttpServerClosed(now));
    u := Do(Do(t, Http(Deadline)), HttpServerClosed(now));
  }

  // While the WebSockets close: the timer fires, then their server closes.
  lemma WsEnds(s: State, t: State) returns (u: State)
    requires Reaches(s, t) && Sound(t) && t.phase == ClosingWs
    ensures Reaches(s, u) && Sound(u) && u.phase == Draining && u.startedAt == t.startedAt
    ensures u.http == Begin(t.http.inflight)
  {
    ReachesNext(s, t, Ws(TimerFires));
    ReachesNext(s, Do(t, Ws(TimerFires)), WsServerClosed);
    StepKeepsSound(t, Ws(TimerFires));
    StepKeepsSound(Do(t, Ws(TimerFires)), WsServerClosed);
    u := Do(Do(t, Ws(TimerFires)), WsServerClosed);
  }

  // From wherever shutdown stands it can complete, after a millisecond.
  lemma TimesOut(s: State) returns (events: seq<DaemonEvent>, report: Report)
    requires Sound(s) && s.phase != Serving && s.phase != Finished
    ensures RunAll(s, events).phase == Finished
    ensures RunAll(s, events).cached == Some(report) && report.elapsedMs == 1
    ensures s.http.outcome != Resolved(true) && s.phase == Draining ==> !report.httpDrained
  {
    ReachesItself(s);
    var t := s;
    if s.phase == ClosingWs { t := WsEnds(s, s); }
    var u := DrainEnds(s, t, s.startedAt + 1);
    events :| RunAll(s, events) == u;
    report := u.cached.value;
  }

  // Shutdown has not completed with an undrained server.
  ghost predicate NeverUndrained(s: State, events: seq<DaemonEvent>) {
    var t := RunAll(s, events);
    t.cached != None ==> t.cached.value.httpDrained
  }

  // Its claim of a drained server is right, whatever happens next, exactly when the drain
  // has already ended well.
  lemma DrainClaimHoldsExactlyWhen(s: State)
    requires Sound(s) && s.phase != Serving
    ensures (forall events :: NeverUndrained(s, events)) <==> s.http.outcome == Resolved(true)
  {
    if s.http.outcome == Resolved(true) {
      forall events ensures NeverUndrained(s, events) { DrainedStays(s, events); }
    } else if s.phase == Finished {
      assert !NeverUndrained(s, []);
    } else if s.phase == Draining {
      var events, report := TimesOut(s);
      assert !NeverUndrained(s, events);
    } else {
      var events := LateRequest(s);
      assert !NeverUndrained(s, events);
    }
  }

  lemma {:induction false} DrainedStays(s: State, events: seq<DaemonEvent>)
    requires Sound(s) && s.http.outcome == Resolved(true)
    ensures Sound(RunAll(s, events)) && RunAll(s, events).http.outcome == Resolved(true) && NeverUndrained(s, events)
  {
    if events != [] {
      DrainedStays(s, events[..|events| - 1]);
      StepKeepsSound(RunAll(s, events[..|events| - 1]), events[|events| - 1]);
    }
  }

  // A request that arrives while the WebSockets close can outlast the drain.
  lemma LateRequest(s: State) returns (events: seq<DaemonEvent>)
    requires Sound(s) && s.phase == ClosingWs
    ensures !NeverUndrained(s, events)
  {
    ReachesItself(s);
    ReachesNext(s, s, Http(Arrive(0)));
    StepKeepsSound(s, Http(Arrive(0)));
    var t := WsEnds(s, Do(s, Http(Arrive(0))));
    assert 0 in t.http.inflight;
    var u := DrainEnds(s, t, 0);
    events :| RunAll(s, events) == u;
  }

  // The run below, state by state.
  ghost function ShutdownBegun(books: Pollers.Ledger, cap: int): State {
    State(ClosingWs, BeginWait({}, {}), Drain({1}, {}, Waiting), 0, 0, 0, 1000, cap, books, None, [CloseWs(1000)])
  }

  ghost function DrainBegun(books: Pollers.Ledger, cap: int): State {
    State(Draining, BeginWait({}, {}), Begin({1}), 1, 0, 0, 1000, cap, books, None, [CloseWs(1000), CloseHttp(1000)])
  }

  lemma ShutdownBegins(books: Pollers.Ledger, cap: int)
    ensures RunAll(Boot(books, cap), [Http(Arrive(1)), CallClose(2000, 0, true, {}, {})])
         == ShutdownBegun(books, cap)
  {
    RunAllNext(Boot(books, cap), [], Http(Arrive(1)));
    RunAllNext(Boot(books, cap), [Http(Arrive(1))], CallClose(2000, 0, true, {}, {}));
    assert [] + [Http(Arrive(1))] == [Http(Arrive(1))];
    assert [Http(Arrive(1))] + [CallClose(2000, 0, true, {}, {})]
        == [Http(Arrive(1)), CallClose(2000, 0, true, {}, {})];
  }

  lemma DrainBegins(books: Pollers.Ledger, cap: int)
    ensures Do(ShutdownBegun(books, cap), WsServerClosed) == DrainBegun(books, cap)
  {
    assert |{1}| == 1;
  }

  lemma DrainIsCut(books: Pollers.Ledger, cap: int)
    ensures var cut := Do(DrainBegun(books, cap), Http(Deadline));
            cut == DrainBegun(books, cap).(http := Drain({1}, {1}, Resolved(false)))
  {
  }

  // A run in which a repeated call claims an empty, drained shutdown and is wrong.
  lemma EarlyRepeatMisreports(books: Pollers.Ledger, cap: int)
    requires Opened(books)
    ensures var busy := [Http(Arrive(1)), CallClose(2000, 0, true, {}, {})] + [WsServerClosed];
      && Answer(RunAll(Boot(books, cap), busy)) == Some(Report(true, 0, 0, 0, 0))
      && Answer(RunAll(Boot(books, cap), busy + [Http(Deadline)] + [HttpServerClosed(1000)]))
         == Some(Report(false, 1, 0, 1000, 0))
  {
    var begun := [Http(Arrive(1)), CallClose(2000, 0, true, {}, {})];
    ShutdownBegins(books, cap);
    DrainBegins(books, cap);
    DrainIsCut(books, cap);
    RunAllNext(Boot(books, cap), begun, WsServerClosed);
    RunAllNext(Boot(books, cap), begun + [WsServerClosed], Http(Deadline));
    RunAllNext(Boot(books, cap), begun + [WsServerClosed] + [Http(Deadline)], HttpServerClosed(1000));
  }

  // The time granted to the waits.
  function Granted(effects: seq<Effect>): int {
    if effects == [] then 0 else
    var last := effects[|effects| - 1];
    Granted(effects[..|effects| - 1]) + if last.CloseStore? then 0 else last.budgetMs
  }

  // Only the first call's arguments matter, however many calls follow. The time granted by the
  // end is its timeout, to the even millisecond, but never less than 200; so it fits the
  // timeout exactly from 200 ms on.
  lemma FirstCallDecides(s: State, call: DaemonEvent, events: seq<DaemonEvent>)
    requires Sound(s) && s.phase == Serving && call.CallClose?
    ensures var t := RunAll(Do(s, call), events);
      && t.phase != Serving && t.half == Half(call.timeoutMs) && t.startedAt == call.now
      && t.wsClients == (if call.listening then |call.clients| else 0)
      && (t.phase == Finished ==>
            Granted(t.effects) == if call.timeoutMs < 200 then 200 else call.timeoutMs - call.timeoutMs % 2)
      && (t.phase == Finished ==> (Granted(t.effects) <= call.timeoutMs <==> call.timeoutMs >= 200))
  {
    StepKeepsSound(s, call);
    ArgumentsStay(Do(s, call), events);
    GrantedInOrder(Half(call.timeoutMs));
  }

  lemma {:induction false} ArgumentsStay(s: State, events: seq<DaemonEvent>)
    requires Sound(s) && s.phase != Serving
    ensures var t := RunAll(s, events);
      && Sound(t) && t.phase != Serving && t.half == s.half && t.startedAt == s.startedAt && t.wsClients == s.wsClients
  {
    if events != [] {
      ArgumentsStay(s, events[..|events| - 1]);
      StepKeepsArguments(RunAll(s, events[..|events| - 1]), events[|events| - 1]);
    }
  }

  lemma StepKeepsArguments(s: State, e: DaemonEvent)
    requires Sound(s) && s.phase != Serving
    ensures var t := Do(s, e);
      && Sound(t) && t.phase != Serving && t.half == s.half && t.startedAt == s.startedAt && t.wsClients == s.wsClients
  {
    StepKeepsSound(s, e);
  }

  lemma GrantedInOrder(half: int)
    ensures Granted([CloseWs(half), CloseHttp(half), CloseStore]) == half + half
  {
    var all := [CloseWs(half), CloseHttp(half), CloseStore];
    assert all[..2] == [CloseWs(half), CloseHttp(half)] && all[..2][..1] == [CloseWs(half)] && all[..2][..1][..0] == [];
    assert Granted(all[..2][..1]) == half;
    assert Granted(all[..2]) == half + half;
  }

  lemma TickTaken(s: State, batch: seq<Timeseries.Sample>, writeFails: Option<nat>, pruneFails: Option<nat>,
      after: Pollers.Ledger)
    requires Sound(s) && Pollers.Recorded(s.books, after, s.cap, batch, writeFails, pruneFails)
    ensures Do(s, StoreTick(batch, writeFails, pruneFails, after)) == s.(books := after)
    ensures Sound(s.(books := after))
  {
    StepKeepsSound(s, StoreTick(batch, writeFails, pruneFails, after));
  }

  // The closure of startDaemon. `spec` is the whole daemon it stands for, with the parts it
  // only waits for.
  class StartedDaemon {
    const store: Timeseries.TimeseriesStore?
    const counter: Pollers.Counter  // writtenCount, with its hook onSampleWritten
    var closed: bool
    var cachedReport: Option<Report>
    var wsClientsAtStart: nat
    var t0: int
    var half: int
    ghost var spec: State

    ghost predicate Valid() reads this, store, counter {
      && Sound(spec)
      && (closed <==> spec.phase != Serving)
      && cachedReport == spec.cached && counter.written == spec.books.written
      && (closed ==> wsClientsAtStart == spec.wsClients && t0 == spec.startedAt && half == spec.half)
      && (store != null ==> store.Valid() && store.maxRows == spec.cap && Books() == spec.books)
    }

    ghost function Books(): Pollers.Ledger
      requires store != null
      reads this, store, counter
    {
      Pollers.Ledger(store.rows, store.nextId, store.pruned, store.closed, counter.written)
    }

    // Without a store the books stay empty.
    constructor (store: Timeseries.TimeseriesStore?, counter: Pollers.Counter)
      requires counter.written == 0
      requires store != null ==> store.Valid() && !store.closed && store.pruned == 0
      ensures Valid() && this.store == store && this.counter == counter
      ensures Opened(spec.books) && spec == Boot(spec.books, spec.cap)
    {
      this.store, this.counter := store, counter;
      closed, cachedReport, wsClientsAtStart, t0, half := false, None, 0, 0, 0;
      spec := if store == null then Boot(Pollers.Ledger([], 0, 0, false, 0), 0)
              else Boot(Pollers.Ledger(store.rows, store.nextId, 0, false, 0), store.maxRows);
    }

    // Up to the first await; None if there is more to wait for.
    method Close(timeoutMs: int, now: int, listening: bool, clients: set<nat>, ghost throws: set<nat>)
      returns (answer: Option<Report>)
      requires Valid()
      modifies this
      ensures Valid()
      ensures spec == Do(old(spec), CallClose(timeoutMs, now, listening, clients, throws))
      ensures answer == Answer(old(spec))
    {
      spec := Do(spec, CallClose(timeoutMs, now, listening, clients, throws));
      if closed {
        return if cachedReport != None then cachedReport else Some(Report(true, 0, 0, 0, counter.written));
      }
      closed := true;
      t0 := now;
      wsClientsAtStart := if listening then |clients| else 0;
      half := timeoutMs / 2;
      if half < 100 {
        half := 100;
      }
      answer := None;
    }

    // `await ws.close(half)` is over.
    method AfterWsClose() returns (budget: int)
      requires Valid() && spec.phase == ClosingWs && spec.ws.resolved
      modifies this`spec
      ensures Valid() && spec == Do(old(spec), WsServerClosed)
      ensures spec.effects == old(spec.effects) + [CloseHttp(budget)]
    {
      spec := Do(spec, WsServerClosed);
      budget := half;
    }

    // `await http.gracefulClose(half)` is over, with this report.
    method AfterHttpClose(http: DrainReport, now: int) returns (report: Report)
      requires Valid() && spec.phase == Draining
      requires spec.http.outcome == Resolved(http.drained) && http.inflightAtStart == spec.inflightAtStart
      modifies this
      modifies if store == null then {} else {store}
      ensures Valid() && spec == Do(old(spec), HttpServerClosed(now))
      ensures cachedReport == Some(report) == Answer(spec)
      ensures store != null ==> store.closed
    {
      spec := Do(spec, HttpServerClosed(now));
      if store != null {
        store.Close();
      }
      report := Report(http.drained, http.inflightAtStart, wsClientsAtStart, now - t0, counter.written);
      cachedReport := Some(report);
    }

    // A session poller of this daemon records the samples of a tick.
    method RecordTick(poller: Pollers.SessionsDiffPoller, samples: seq<Timeseries.Sample>,
                      writeFails: Option<nat>, pruneFails: Option<nat>)
      requires Valid() && store != null && poller.store == store && poller.counter == counter && samples != []
      modifies this`spec, store, counter
      ensures Valid()
      ensures spec == Do(old(spec), StoreTick(samples, writeFails, pruneFails, Books()))
    {
      assert poller.Books() == spec.books;
      poller.RecordSamples(samples, writeFails, pruneFails);
      ghost var before := spec;
      TickTaken(before, samples, writeFails, pruneFails, Books());
      spec := before.(books := Books());
    }
  }
}
