// src/http/ws.ts, attachWebSocket: the pollers start and stop with the connected clients.
module Lifecycle {
  import opened Common
  import opened Broadcast
  import Timeseries
  import opened Pollers
  import SessionDiff
  import ReminderDiff

  // ------------------------------------------------------------ specification

  // The variables of attachWebSocket, for clients named by C. `started` counts the session
  // pollers ever created; the last one is the one stopSessions refers to.
  datatype Control<C> = Control(clients: set<C>, reminders: bool, sessions: bool, started: nat, accepting: bool)

  function EnsureRunning<C>(c: Control<C>): Control<C> {
    if c.clients == {} then c
    else c.(reminders := true, sessions := true, started := if c.sessions then c.started else c.started + 1)
  }

  function MaybeStop<C>(c: Control<C>): Control<C> {
    if c.clients != {} then c else c.(reminders := false, sessions := false)
  }

  // A connection; impossible once the upgrade handler is detached.
  function OnConnect<C>(c: Control<C>, who: C): Control<C> {
    if c.accepting then EnsureRunning(c.(clients := c.clients + {who})) else c
  }

  function OnDisconnect<C>(c: Control<C>, who: C): Control<C> {
    MaybeStop(c.(clients := c.clients - {who}))
  }

  function OnClose<C>(c: Control<C>): Control<C> {
    c.(accepting := false, reminders := false, sessions := false)
  }

  // Before close both loops run exactly while somebody is connected; after close neither.
  ghost predicate RunsOnDemand<C>(c: Control<C>) {
    && (c.reminders <==> c.accepting && c.clients != {})
    && (c.sessions <==> c.accepting && c.clients != {})
    && (c.sessions ==> c.started > 0)
  }

  // ------------------------------------------------- the daemon as one system

  datatype System<C> = System(control: Control<C>, sessions: SessionDiff.World, reminders: ReminderDiff.State)

  datatype Event<C> =
    | Connect(who: C)
    | Disconnect(who: C)
    | Close
    | SessionTickStarts(poller: nat)
    | SessionTickFails(poller: nat)
    | SessionTickCompletes(poller: nat, statuses: SessionDiff.StatusMap)
    | ReminderTickStarts
    | ReminderTickFails
    | ReminderTickCompletes(todos: ReminderDiff.TodoList)

  // What a change of control does to the pollers and to the reminder loop.
  function SwitchedPollers<C>(pollers: seq<SessionDiff.Poller>, before: Control<C>, after: Control<C>)
    : seq<SessionDiff.Poller>
  {
    var g := before.started - 1;
    if after.started > before.started then pollers + [SessionDiff.STARTED]
    else if before.sessions && !after.sessions && 0 <= g < |pollers| then pollers[g := SessionDiff.Stopped(pollers[g])]
    else pollers
  }

  function SwitchedReminders<C>(r: ReminderDiff.State, before: Control<C>, after: Control<C>): ReminderDiff.State {
    if after.reminders && !before.reminders then ReminderDiff.Do(r, ReminderDiff.StartPolling)
    else if before.reminders && !after.reminders then ReminderDiff.Do(r, ReminderDiff.StopPolling)
    else r
  }

  function Switched<C>(s: System<C>, c: Control<C>): System<C> {
    System(c, s.sessions.(pollers := SwitchedPollers(s.sessions.pollers, s.control, c)),
           SwitchedReminders(s.reminders, s.control, c))
  }

  function Do<C>(s: System<C>, e: Event<C>): System<C> {
    match e
    case Connect(who) => Switched(s, OnConnect(s.control, who))
    case Disconnect(who) => Switched(s, OnDisconnect(s.control, who))
    case Close => Switched(s, OnClose(s.control))
    case SessionTickStarts(g) => s.(sessions := SessionDiff.Do(s.sessions, SessionDiff.TickStarts(g)))
    case SessionTickFails(g) => s.(sessions := SessionDiff.Do(s.sessions, SessionDiff.TickFails(g)))
    case SessionTickCompletes(g, statuses) =>
      s.(sessions := SessionDiff.Do(s.sessions, SessionDiff.TickCompletes(g, statuses)))
    case ReminderTickStarts => s.(reminders := ReminderDiff.Do(s.reminders, ReminderDiff.TickStarts))
    case ReminderTickFails => s.(reminders := ReminderDiff.Do(s.reminders, ReminderDiff.TickFails))
    case ReminderTickCompletes(todos) =>
      s.(reminders := ReminderDiff.Do(s.reminders, ReminderDiff.TickCompletes(todos)))
  }

  function Boot<C>(): System<C> {
    System(Control({}, false, false, 0, true), SessionDiff.EMPTY, ReminderDiff.INITIAL)
  }

  function Run<C>(s: System<C>, events: seq<Event<C>>): System<C> {
    if events == [] then s else Do(Run(s, events[..|events| - 1]), events[|events| - 1])
  }

  // At most one interval of each kind is alive, and it is the one control refers to.
  ghost predicate OneOfEach<C>(s: System<C>) {
    && |s.sessions.pollers| == s.control.started
    && (forall g :: 0 <= g < |s.sessions.pollers| ==>
          (!s.sessions.pollers[g].stopped <==> s.control.sessions && g == s.control.started - 1))
    && (s.reminders.polling <==> s.control.reminders)
  }

  lemma StepKeepsInvariant<C>(s: System<C>, e: Event<C>)
    requires RunsOnDemand(s.control) && OneOfEach(s)
    ensures RunsOnDemand(Do(s, e).control) && OneOfEach(Do(s, e))
  {
  }

  // In every reachable state of the daemon: the pollers run on demand, and never two of a kind.
  lemma {:induction false} PollersRunOnDemand<C>(events: seq<Event<C>>)
    ensures RunsOnDemand(Run(Boot(), events).control) && OneOfEach(Run(Boot(), events))
  {
    if events != [] {
      PollersRunOnDemand(events[..|events| - 1]);
      StepKeepsInvariant(Run(Boot(), events[..|events| - 1]), events[|events| - 1]);
    }
  }

  // t has no poller s did not have, none of them runs, and none has more ticks in flight.
  ghost predicate WindsDown<C>(s: System<C>, t: System<C>) {
    && OneOfEach(t) && !t.control.accepting && !t.control.reminders && !t.control.sessions
    && |t.sessions.pollers| == |s.sessions.pollers|
    && t.reminders.inflight <= s.reminders.inflight
    && (forall g :: 0 <= g < |t.sessions.pollers| ==>
          t.sessions.pollers[g].stopped && t.sessions.pollers[g].inflight <= s.sessions.pollers[g].inflight)
  }

  lemma StepWindsDown<C>(s: System<C>, t: System<C>, e: Event<C>)
    requires WindsDown(s, t)
    ensures WindsDown(s, Do(t, e))
  {
  }

  // After close nothing runs again, whatever close events and late ticks still arrive.
  lemma {:induction false} NothingRunsAfterClose<C>(before: seq<Event<C>>, after: seq<Event<C>>)
    ensures WindsDown(Do(Run(Boot(), before), Close), Run(Do(Run(Boot(), before), Close), after))
  {
    var s := Do(Run(Boot(), before), Close);
    if after == [] {
      PollersRunOnDemand(before);
      StepKeepsInvariant(Run(Boot(), before), Close);
    } else {
      NothingRunsAfterClose(before, after[..|after| - 1]);
      StepWindsDown(s, Run(s, after[..|after| - 1]), after[|after| - 1]);
    }
  }

  // The system only ever takes steps of the two loops, so their theorems hold of it.
  lemma {:induction false} LoopsOfSystem<C>(events: seq<Event<C>>)
    returns (sessionSteps: seq<SessionDiff.Step>, reminderSteps: seq<ReminderDiff.Step>)
    ensures Run(Boot(), events).sessions == SessionDiff.Run(SessionDiff.EMPTY, sessionSteps)
    ensures Run(Boot(), events).reminders == ReminderDiff.Run(ReminderDiff.INITIAL, reminderSteps)
  {
    if events == [] {
      sessionSteps, reminderSteps := [], [];
    } else {
      sessionSteps, reminderSteps := LoopsOfSystem(events[..|events| - 1]);
      var more, moreTodos := LoopsOfStep(Run(Boot(), events[..|events| - 1]), events[|events| - 1]);
      SessionDiff.RunMore(SessionDiff.EMPTY, sessionSteps, more);
      ReminderDiff.RunMore(ReminderDiff.INITIAL, reminderSteps, moreTodos);
      sessionSteps, reminderSteps := sessionSteps + more, reminderSteps + moreTodos;
    }
  }

  lemma LoopsOfStep<C>(s: System<C>, e: Event<C>)
    returns (more: seq<SessionDiff.Step>, moreTodos: seq<ReminderDiff.Step>)
    ensures |more| <= 1 && |moreTodos| <= 1
    ensures more != [] && more[0].TickCompletes? ==> e.SessionTickCompletes?
    ensures Do(s, e).sessions == if more == [] then s.sessions else SessionDiff.Do(s.sessions, more[0])
    ensures Do(s, e).reminders == if moreTodos == [] then s.reminders else ReminderDiff.Do(s.reminders, moreTodos[0])
  {
    more, moreTodos := [], [];
    var c := Do(s, e).control;
    match e
    case SessionTickStarts(g) => more := [SessionDiff.TickStarts(g)];
    case SessionTickFails(g) => more := [SessionDiff.TickFails(g)];
    case SessionTickCompletes(g, statuses) => more := [SessionDiff.TickCompletes(g, statuses)];
    case ReminderTickStarts => moreTodos := [ReminderDiff.TickStarts];
    case ReminderTickFails => moreTodos := [ReminderDiff.TickFails];
    case ReminderTickCompletes(todos) => moreTodos := [ReminderDiff.TickCompletes(todos)];
    case _ =>
      if c.started > s.control.started { more := [SessionDiff.Start]; }
      else if s.control.sessions && !c.sessions && s.control.started > 0 {
        more := [SessionDiff.Stop(s.control.started - 1)];
      }
      if c.reminders && !s.control.reminders { moreTodos := [ReminderDiff.StartPolling]; }
      else if s.control.reminders && !c.reminders { moreTodos := [ReminderDiff.StopPolling]; }
  }

  // Whatever clients do, each session poller's own events fold to its map, and the todo
  // stream, which has one source only, mirrors the cached list.
  lemma LoopsStayFaithful<C>(events: seq<Event<C>>)
    ensures var s := Run(Boot(), events);
            && (forall g :: 0 <= g < |s.sessions.pollers| ==> SessionDiff.GenerationFaithful(s.sessions, g))
            && ReminderDiff.Mirrors(ReminderDiff.Fold(s.reminders.log), ReminderDiff.ById(s.reminders.prevState))
  {
    var sessionSteps, reminderSteps := LoopsOfSystem(events);
    SessionDiff.EveryGenerationIsFaithful(sessionSteps);
    ReminderDiff.StreamMirrorsPolledList(reminderSteps);
  }

  // The event is no late session tick, or a harmless one.
  ghost predicate HarmlessEvent<C>(s: System<C>, e: Event<C>) {
    e.SessionTickCompletes? ==> SessionDiff.HarmlessStep(s.sessions, SessionDiff.TickCompletes(e.poller, e.statuses))
  }

  lemma EventKeepsStreamExactlyWhen<C>(s: System<C>, e: Event<C>)
    requires SessionDiff.StreamFaithful(s.sessions)
    ensures SessionDiff.StreamFaithful(Do(s, e).sessions) <==> HarmlessEvent(s, e)
  {
    var more, _ := LoopsOfStep(s, e);
    if e.SessionTickCompletes? {
      SessionDiff.StepKeepsStreamExactlyWhen(s.sessions, SessionDiff.TickCompletes(e.poller, e.statuses));
    } else if more != [] {
      assert !more[0].TickCompletes?;
      SessionDiff.StepKeepsStreamExactlyWhen(s.sessions, more[0]);
    }
  }

  ghost predicate FaithfulAfter<C>(events: seq<Event<C>>) { SessionDiff.StreamFaithful(Run(Boot(), events).sessions) }

  ghost predicate HarmlessEnd<C>(events: seq<Event<C>>) {
    events != [] ==> HarmlessEvent(Run(Boot(), events[..|events| - 1]), events[|events| - 1])
  }

  // What clients do receive is one stream of session events. However they come and go, it
  // mirrors the newest poller at every moment exactly when every late tick is harmless at
  // its own moment.
  lemma {:induction false} SharedStreamIsFaithfulExactlyWhen<C>(events: seq<Event<C>>)
    ensures AtEvery(FaithfulAfter, events) <==> AtEvery(HarmlessEnd, events)
  {
    if events == [] {
      assert FaithfulAfter(events) && HarmlessEnd(events);
    } else {
      var init, e := events[..|events| - 1], events[|events| - 1];
      assert events == init + [e];
      SharedStreamIsFaithfulExactlyWhen(init);
      AtEveryNext(FaithfulAfter, init, e);
      AtEveryNext(HarmlessEnd, init, e);
      if AtEvery(FaithfulAfter, init) {
        AtEveryEnd(FaithfulAfter, init);
        EventKeepsStreamExactlyWhen(Run(Boot(), init), e);
      }
    }
  }

  ghost predicate TruthfulEvent<C>(s: System<C>, e: Event<C>) {
    e.SessionTickCompletes? ==> SessionDiff.TruthfulStep(s.sessions, SessionDiff.TickCompletes(e.poller, e.statuses))
  }

  lemma EventReportsExactlyWhen<C>(s: System<C>, e: Event<C>)
    requires SessionDiff.WellReported(SessionDiff.Updates(s.sessions.log))
    ensures SessionDiff.WellReported(SessionDiff.Updates(Do(s, e).sessions.log)) <==> TruthfulEvent(s, e)
  {
    var more, _ := LoopsOfStep(s, e);
    if e.SessionTickCompletes? {
      SessionDiff.StepReportsExactlyWhen(s.sessions, SessionDiff.TickCompletes(e.poller, e.statuses));
    } else if more != [] {
      SessionDiff.StepReportsExactlyWhen(s.sessions, more[0]);
    }
  }

  ghost predicate ReportedAfter<C>(events: seq<Event<C>>) {
    SessionDiff.WellReported(SessionDiff.Updates(Run(Boot(), events).sessions.log))
  }

  ghost predicate TruthfulEnd<C>(events: seq<Event<C>>) {
    events != [] ==> TruthfulEvent(Run(Boot(), events[..|events| - 1]), events[|events| - 1])
  }

  // And each event of that stream reports a real change from what clients show exactly when
  // every completed tick was truthful at its moment.
  lemma {:induction false} SharedStreamIsWellReportedExactlyWhen<C>(events: seq<Event<C>>)
    ensures AtEvery(ReportedAfter, events) <==> AtEvery(TruthfulEnd, events)
  {
    if events == [] {
      assert ReportedAfter(events) && TruthfulEnd(events);
    } else {
      var init, e := events[..|events| - 1], events[|events| - 1];
      assert events == init + [e];
      SharedStreamIsWellReportedExactlyWhen(init);
      AtEveryNext(ReportedAfter, init, e);
      AtEveryNext(TruthfulEnd, init, e);
      if AtEvery(ReportedAfter, init) {
        AtEveryEnd(ReportedAfter, init);
        EventReportsExactlyWhen(Run(Boot(), init), e);
      }
    }
  }

  lemma EventKeepsClientExactlyWhen<C>(s: System<C>, e: Event<C>, from: nat)
    requires SessionDiff.AgreesSince(s.sessions, from)
    ensures SessionDiff.AgreesSince(Do(s, e).sessions, from) <==> HarmlessEvent(s, e)
  {
    var more, _ := LoopsOfStep(s, e);
    if e.SessionTickCompletes? {
      SessionDiff.StepKeepsClientExactlyWhen(s.sessions, SessionDiff.TickCompletes(e.poller, e.statuses), from);
    } else if more != [] {
      assert !more[0].TickCompletes?;
      SessionDiff.StepKeepsClientExactlyWhen(s.sessions, more[0], from);
    }
  }

  // A client that joined at s shows nothing wrong after these events.
  ghost function RightSince<C>(s: System<C>): seq<Event<C>> -> bool {
    (more: seq<Event<C>>) => SessionDiff.AgreesSince(Run(s, more).sessions, |s.sessions.log|)
  }

  ghost function HarmlessSince<C>(s: System<C>): seq<Event<C>> -> bool {
    (more: seq<Event<C>>) => more != [] ==> HarmlessEvent(Run(s, more[..|more| - 1]), more[|more| - 1])
  }

  // Only the late ticks since it joined matter to a client: at every moment since, whatever
  // it shows of the newest poller's sessions is as the poller has it, exactly when each of
  // them is harmless at its own moment.
  lemma {:induction false} ClientIsRightExactlyWhen<C>(s: System<C>, more: seq<Event<C>>)
    ensures AtEvery(RightSince(s), more) <==> AtEvery(HarmlessSince(s), more)
  {
    if more == [] {
      assert SessionDiff.Updates(s.sessions.log)[|s.sessions.log|..] == [];
      assert RightSince(s)(more) && HarmlessSince(s)(more);
    } else {
      var init, e := more[..|more| - 1], more[|more| - 1];
      assert more == init + [e];
      ClientIsRightExactlyWhen(s, init);
      AtEveryNext(RightSince(s), init, e);
      AtEveryNext(HarmlessSince(s), init, e);
      if AtEvery(RightSince(s), init) {
        AtEveryEnd(RightSince(s), init);
        EventKeepsClientExactlyWhen(Run(s, init), e, |s.sessions.log|);
      }
    }
  }

  // One client leaves, another comes, and the first poller's tick lands last.
  lemma HandoverSpoilsTheStream()
    ensures var events: seq<Event<nat>> := [
              Connect(1), Disconnect(1), Connect(2),
              SessionTickCompletes(1, [(7, Working)]), SessionTickCompletes(0, [(7, Idle)])];
            && SessionDiff.Misled(Run(Boot(), events).sessions)
            && !SessionDiff.StreamFaithful(Run(Boot(), events).sessions)
  {
    var meet: seq<Event<nat>> := [Connect(1), Disconnect(1), Connect(2)];
    var first := meet + [SessionTickCompletes(1, [(7, Working)])];
    HandoverHappens();
    RunNext(Boot(), meet, SessionTickCompletes(1, [(7, Working)]));
    RunNext(Boot(), first, SessionTickCompletes(0, [(7, Idle)]));
    SessionDiff.HandoverMisleads();
    assert first + [SessionTickCompletes(0, [(7, Idle)])]
        == [Connect(1), Disconnect(1), Connect(2), SessionTickCompletes(1, [(7, Working)]),
            SessionTickCompletes(0, [(7, Idle)])];
  }

  lemma HandoverHappens()
    ensures var events: seq<Event<nat>> := [Connect(1), Disconnect(1), Connect(2)];
            Run(Boot(), events).sessions == SessionDiff.HANDOVER
  {
    var one: seq<Event<nat>> := [Connect(1)];
    var two := one + [Disconnect(1)];
    RunNext(Boot(), [], Connect(1));
    assert [] + [Connect(1)] == one;
    RunNext(Boot(), one, Disconnect(1));
    RunNext(Boot(), two, Connect(2));
    assert two + [Connect(2)] == [Connect(1), Disconnect(1), Connect(2)];
    assert {1} - {1} == {};
  }

  lemma RunNext<C>(s: System<C>, events: seq<Event<C>>, e: Event<C>)
    ensures Run(s, events + [e]) == Do(Run(s, events), e)
  {
    assert (events + [e])[..|events|] == events;
  }

  lemma {:induction false} RunConcat<C>(s: System<C>, a: seq<Event<C>>, b: seq<Event<C>>)
    ensures Run(s, a + b) == Run(Run(s, a), b)
  {
    if b == [] {
      assert a + b == a;
    } else {
      RunConcat(s, a, b[..|b| - 1]);
      RunLast(s, a, b);
    }
  }

  lemma RunLast<C>(s: System<C>, a: seq<Event<C>>, b: seq<Event<C>>)
    requires b != []
    ensures Run(s, a + b) == Do(Run(s, a + b[..|b| - 1]), b[|b| - 1])
  {
    RunNext(s, a + b[..|b| - 1], b[|b| - 1]);
    EndsWith(a, b);
  }

  // Who is connected does not matter to the loops, only what it makes control do.
  lemma ClientsDoNotSwitch<C>(
    pollers: seq<SessionDiff.Poller>, r: ReminderDiff.State, before: Control<C>, between: Control<C>, after: Control<C>)
    requires between == before.(clients := between.clients)
    ensures SwitchedPollers(pollers, between, after) == SwitchedPollers(pollers, before, after)
    ensures SwitchedReminders(r, between, after) == SwitchedReminders(r, before, after)
  {
  }

  // The log holds exactly what the two loops emitted, each in its own order.
  ghost predicate Carried<C>(s: System<C>, log: seq<WsEvent>) {
    Flat(UpdateOf, log) == SessionDiff.Updates(s.sessions.log) && Flat(NewsOf, log) == s.reminders.log
  }

  lemma CarriesUpdates<C>(s: System<C>, log: seq<WsEvent>, g: nat, next: SessionDiff.StatusMap)
    requires Carried(s, log) && g < |s.sessions.pollers| && s.sessions.pollers[g].inflight > 0
    ensures Carried(Do(s, SessionTickCompletes(g, next)),
                    log + SessionEvents(SessionDiff.Diff(s.sessions.pollers[g].prev, next)))
  {
    var updates := SessionDiff.Diff(s.sessions.pollers[g].prev, next);
    SessionEventsAreUpdates(updates);
    FlatConcat(UpdateOf, log, SessionEvents(updates));
    FlatConcat(NewsOf, log, SessionEvents(updates));
    SessionDiff.UpdatesAppend(s.sessions.log, g, updates);
  }

  lemma CompletionMoves<C>(s: System<C>, g: nat, next: SessionDiff.StatusMap)
    requires g < |s.sessions.pollers| && s.sessions.pollers[g].inflight > 0
    ensures var t := Do(s, SessionTickCompletes(g, next));
            && t.control == s.control && t.reminders == s.reminders
            && t.sessions.pollers == s.sessions.pollers[g := SessionDiff.Completed(s.sessions.pollers[g], next)]
  {
  }

  lemma CarriesNews<C>(s: System<C>, log: seq<WsEvent>, todos: ReminderDiff.TodoList)
    requires Carried(s, log) && s.reminders.inflight > 0
    ensures Carried(Do(s, ReminderTickCompletes(todos)),
                    log + TodoEvents(ReminderDiff.Diff(ReminderDiff.ById(s.reminders.prevState), todos)))
  {
    var events := ReminderDiff.Diff(ReminderDiff.ById(s.reminders.prevState), todos);
    TodoEventsAreNews(events);
    FlatConcat(NewsOf, log, TodoEvents(events));
    FlatConcat(UpdateOf, log, TodoEvents(events));
  }

  // ------------------------------------------------------------------- object

  class AttachedWs {
    const bus: WsBroadcaster<WsEvent>
    const reminders: ReminderPoller
    const store: Timeseries.TimeseriesStore?
    const counter: Counter
    var stopReminders: bool
    var stopSessions: SessionsDiffPoller?
    var accepting: bool
    ghost var started: seq<SessionsDiffPoller>

    ghost predicate Valid() reads this, bus, bus.known, reminders, started {
      && bus.Valid() && reminders.Valid() && reminders.bus == bus
      && (stopReminders <==> reminders.pollHandle != None)
      && (stopSessions != null ==> |started| > 0 && stopSessions == started[|started| - 1])
      && (forall i, j :: 0 <= i < j < |started| ==> started[i] != started[j])
      && (forall i :: 0 <= i < |started| ==> (!started[i].stopped <==> stopSessions == started[i]))
      && (forall i :: 0 <= i < |started| ==>
            started[i].bus == bus && started[i].store == store && started[i].counter == counter)
    }

    ghost function State(): Control<Subscriber<WsEvent>> reads this, bus {
      Control((set s | s in bus.subscribers), stopReminders, stopSessions != null, |started|, accepting)
    }

    // The pollers ever started stand where these do.
    ghost predicate Stands(pollers: seq<SessionDiff.Poller>) reads this, started {
      && |pollers| == |started|
      && (forall i :: 0 <= i < |started| ==>
            pollers[i] == SessionDiff.Poller(started[i].stopped, started[i].prev, started[i].inflight))
    }

    constructor (
      bus: WsBroadcaster<WsEvent>, reminders: ReminderPoller, store: Timeseries.TimeseriesStore?, counter: Counter)
      requires bus.Valid() && bus.subscribers == []
      requires reminders.Valid() && reminders.bus == bus && reminders.pollHandle == None
      requires bus.log == [] && reminders.State() == ReminderDiff.INITIAL
      ensures this.bus == bus && this.reminders == reminders && this.store == store && this.counter == counter
      ensures Valid() && Matches(Boot())
    {
      this.bus, this.reminders, this.store, this.counter := bus, reminders, store, counter;
      stopReminders, stopSessions, accepting, started := false, null, true, [];
    }

    method EnsurePollersRunning(ghost pollers: seq<SessionDiff.Poller>)
      requires Valid() && Stands(pollers)
      modifies this`stopReminders, this`stopSessions, this`started, reminders
      ensures Valid() && State() == EnsureRunning(old(State()))
      ensures Stands(SwitchedPollers(pollers, old(State()), State()))
      ensures reminders.State() == SwitchedReminders(old(reminders.State()), old(State()), State())
    {
      assert |bus.subscribers| > 0 ==> bus.subscribers[0] in State().clients;
      if bus.Size() == 0 { return; }
      if !stopReminders {
        StartReminders(pollers);
      }
      if stopSessions == null {
        StartSessions(pollers);
      }
    }

    method StartReminders(ghost pollers: seq<SessionDiff.Poller>)
      requires Valid() && Stands(pollers) && !stopReminders
      modifies this`stopReminders, reminders
      ensures Valid() && Stands(pollers) && State() == old(State()).(reminders := true)
      ensures reminders.State() == ReminderDiff.Do(old(reminders.State()), ReminderDiff.StartPolling)
    {
      reminders.Start();
      stopReminders := true;
    }

    method StartSessions(ghost pollers: seq<SessionDiff.Poller>)
      requires Valid() && Stands(pollers) && stopSessions == null
      modifies this`stopSessions, this`started
      ensures Valid() && Stands(pollers + [SessionDiff.STARTED])
      ensures State() == old(State()).(sessions := true, started := old(State()).started + 1)
      ensures reminders.State() == old(reminders.State())
    {
      stopSessions := new SessionsDiffPoller(bus, store, counter);
      started := started + [stopSessions];
    }

    method MaybeStopPollers(ghost pollers: seq<SessionDiff.Poller>)
      requires Valid() && Stands(pollers)
      modifies this`stopReminders, this`stopSessions, reminders
      modifies if stopSessions == null then {} else {stopSessions}
      ensures Valid() && State() == MaybeStop(old(State()))
      ensures Stands(SwitchedPollers(pollers, old(State()), State()))
      ensures reminders.State() == SwitchedReminders(old(reminders.State()), old(State()), State())
    {
      assert |bus.subscribers| > 0 ==> bus.subscribers[0] in State().clients;
      if bus.Size() > 0 { return; }
      StopBoth(pollers);
    }

    method StopBoth(ghost pollers: seq<SessionDiff.Poller>)
      requires Valid() && Stands(pollers)
      modifies this`stopReminders, this`stopSessions, reminders
      modifies if stopSessions == null then {} else {stopSessions}
      ensures Valid() && State() == old(State()).(reminders := false, sessions := false)
      ensures Stands(SwitchedPollers(pollers, old(State()), State()))
      ensures reminders.State() == SwitchedReminders(old(reminders.State()), old(State()), State())
    {
      if stopReminders {
        StopReminders(pollers);
      }
      if stopSessions != null {
        StopSessions(pollers);
      }
    }

    method StopReminders(ghost pollers: seq<SessionDiff.Poller>)
      requires Valid() && Stands(pollers) && stopReminders
      modifies this`stopReminders, reminders
      ensures Valid() && Stands(pollers) && State() == old(State()).(reminders := false)
      ensures reminders.State() == ReminderDiff.Do(old(reminders.State()), ReminderDiff.StopPolling)
    {
      reminders.Stop();
      stopReminders := false;
    }

    method StopSessions(ghost pollers: seq<SessionDiff.Poller>)
      requires Valid() && Stands(pollers) && stopSessions != null
      modifies this`stopSessions, stopSessions
      ensures Valid() && State() == old(State()).(sessions := false)
      ensures Stands(pollers[|pollers| - 1 := SessionDiff.Stopped(pollers[|pollers| - 1])])
      ensures reminders.State() == old(reminders.State())
    {
      stopSessions.Stop();
      stopSessions := null;
    }

    // The body of the connection handler.
    method HandleConnection(sendJson: Subscriber<WsEvent>, ghost pollers: seq<SessionDiff.Poller>)
      requires Valid() && Stands(pollers) && accepting && sendJson !in bus.known && sendJson.received == []
      modifies this`stopReminders, this`stopSessions, this`started, bus, reminders
      ensures Valid() && State() == OnConnect(old(State()), sendJson)
      ensures Stands(SwitchedPollers(pollers, old(State()), State()))
      ensures reminders.State() == SwitchedReminders(old(reminders.State()), old(State()), State())
      ensures bus.history == old(bus.history) + [Subscribe(sendJson)] && bus.log == old(bus.log)
    {
      Join(sendJson, pollers);
      ghost var joined := State();
      EnsurePollersRunning(pollers);
      ClientsDoNotSwitch(pollers, old(reminders.State()), old(State()), joined, State());
    }

    method Join(sendJson: Subscriber<WsEvent>, ghost pollers: seq<SessionDiff.Poller>)
      requires Valid() && Stands(pollers) && sendJson !in bus.known && sendJson.received == []
      modifies bus
      ensures Valid() && State() == old(State()).(clients := old(State()).clients + {sendJson})
      ensures Stands(pollers)
      ensures reminders.State() == old(reminders.State())
      ensures bus.history == old(bus.history) + [Subscribe(sendJson)] && bus.log == old(bus.log)
    {
      bus.Subscribe(sendJson);
    }

    // The body of the socket's close handler.
    method HandleSocketClose(sendJson: Subscriber<WsEvent>, ghost pollers: seq<SessionDiff.Poller>)
      requires Valid() && Stands(pollers)
      modifies this`stopReminders, this`stopSessions, bus, reminders
      modifies if stopSessions == null then {} else {stopSessions}
      ensures Valid() && State() == OnDisconnect(old(State()), sendJson)
      ensures Stands(SwitchedPollers(pollers, old(State()), State()))
      ensures reminders.State() == SwitchedReminders(old(reminders.State()), old(State()), State())
      ensures bus.history == old(bus.history) + [Unsubscribe(sendJson)] && bus.log == old(bus.log)
    {
      Leave(sendJson, pollers);
      ghost var left := State();
      MaybeStopPollers(pollers);
      ClientsDoNotSwitch(pollers, old(reminders.State()), old(State()), left, State());
    }

    method Leave(sendJson: Subscriber<WsEvent>, ghost pollers: seq<SessionDiff.Poller>)
      requires Valid() && Stands(pollers)
      modifies bus
      ensures Valid() && State() == old(State()).(clients := old(State()).clients - {sendJson})
      ensures Stands(pollers)
      ensures reminders.State() == old(reminders.State())
      ensures bus.history == old(bus.history) + [Unsubscribe(sendJson)] && bus.log == old(bus.log)
    {
      bus.Unsubscribe(sendJson);
      assert State().clients == old(State().clients) - {sendJson};
      OnlyBusChanged(pollers);
    }

    twostate lemma OnlyBusChanged(pollers: seq<SessionDiff.Poller>)
      requires old(Valid()) && old(Stands(pollers)) && bus.Valid()
      requires unchanged(this) && unchanged(reminders)
      requires forall i :: 0 <= i < |started| ==> unchanged(started[i])
      ensures Valid() && Stands(pollers) && reminders.State() == old(reminders.State())
      ensures State() == old(State()).(clients := State().clients)
    {
    }

    // The body of close up to its first await.
    method StopServing(ghost pollers: seq<SessionDiff.Poller>)
      requires Valid() && Stands(pollers)
      modifies this`accepting, this`stopReminders, this`stopSessions, reminders
      modifies if stopSessions == null then {} else {stopSessions}
      ensures Valid() && State() == OnClose(old(State()))
      ensures Stands(SwitchedPollers(pollers, old(State()), State()))
      ensures reminders.State() == SwitchedReminders(old(reminders.State()), old(State()), State())
      ensures bus.history == old(bus.history)
    {
      Detach(pollers);
      StopBoth(pollers);
    }

    // http.off("upgrade", onUpgrade)
    method Detach(ghost pollers: seq<SessionDiff.Poller>)
      requires Valid() && Stands(pollers)
      modifies this`accepting
      ensures Valid() && Stands(pollers) && State() == old(State()).(accepting := false)
      ensures reminders.State() == old(reminders.State())
    {
      accepting := false;
    }

    // ------------------------------------------------- the object is the system

    // The object stands where the system s stands, and the broadcaster has carried exactly
    // the events its two loops emitted.
    ghost predicate Matches(s: System<Subscriber<WsEvent>>) reads this, bus, reminders, started {
      && State() == s.control && Stands(s.sessions.pollers) && reminders.State() == s.reminders
      && Carried(s, bus.log)
    }

    // The connection handler. The source cannot reach it once the upgrade handler is gone.
    method Connect(sendJson: Subscriber<WsEvent>, ghost s: System<Subscriber<WsEvent>>)
      requires Valid() && Matches(s) && accepting && sendJson !in bus.known && sendJson.received == []
      modifies this`stopReminders, this`stopSessions, this`started, bus, reminders
      ensures Valid() && Matches(Do(s, Event.Connect(sendJson)))
      ensures bus.history == old(bus.history) + [Subscribe(sendJson)]
    {
      HandleConnection(sendJson, s.sessions.pollers);
    }

    // The socket's close handler.
    method Disconnect(sendJson: Subscriber<WsEvent>, ghost s: System<Subscriber<WsEvent>>)
      requires Valid() && Matches(s)
      modifies this`stopReminders, this`stopSessions, bus, reminders
      modifies if stopSessions == null then {} else {stopSessions}
      ensures Valid() && Matches(Do(s, Event.Disconnect(sendJson)))
      ensures bus.history == old(bus.history) + [Unsubscribe(sendJson)]
    {
      HandleSocketClose(sendJson, s.sessions.pollers);
    }

    // The first, uninterrupted part of close.
    method BeginClose(ghost s: System<Subscriber<WsEvent>>)
      requires Valid() && Matches(s)
      modifies this`accepting, this`stopReminders, this`stopSessions, reminders
      modifies if stopSessions == null then {} else {stopSessions}
      ensures Valid() && Matches(Do(s, Event.Close))
      ensures bus.history == old(bus.history)
    {
      StopServing(s.sessions.pollers);
    }

    // The interval of a poller fires, also one that has been stopped meanwhile.
    method SessionTickStarts(poller: SessionsDiffPoller, ghost g: nat, ghost s: System<Subscriber<WsEvent>>)
      returns (proceeds: bool)
      requires Valid() && Matches(s) && g < |started| && poller == started[g]
      modifies poller
      ensures Valid() && Matches(Do(s, Event.SessionTickStarts(g)))
      ensures proceeds <==> !poller.stopped
    {
      proceeds := poller.StartTick();
    }

    method SessionTickFails(poller: SessionsDiffPoller, ghost g: nat, ghost s: System<Subscriber<WsEvent>>)
      requires Valid() && Matches(s) && g < |started| && poller == started[g]
      modifies poller
      ensures Valid() && Matches(Do(s, Event.SessionTickFails(g)))
    {
      poller.FailTick();
    }

    // The section of a tick after its last await.
    method SessionTickCompletes(
      poller: SessionsDiffPoller, ghost g: nat, next: SessionDiff.StatusMap, providerByPid: map<int, string>, now: int,
      writeFails: Option<nat>, pruneFails: Option<nat>, ghost s: System<Subscriber<WsEvent>>)
      requires Valid() && Matches(s) && g < |started| && poller == started[g] && poller.inflight > 0
      requires store != null ==> store.Valid()
      modifies poller, bus`history, bus`log, bus.known, counter
      modifies if store == null then {} else {store}
      ensures Valid() && Matches(Do(s, Event.SessionTickCompletes(g, next)))
      ensures store != null ==> store.Valid()
    {
      HandleTick(poller, g, next, providerByPid, now, writeFails, pruneFails, s.sessions.pollers);
      CarriesUpdates(s, old(bus.log), g, next);
      CompletionMoves(s, g, next);
    }

    method HandleTick(
      poller: SessionsDiffPoller, ghost g: nat, next: SessionDiff.StatusMap, providerByPid: map<int, string>, now: int,
      writeFails: Option<nat>, pruneFails: Option<nat>, ghost pollers: seq<SessionDiff.Poller>)
      requires Valid() && Stands(pollers) && g < |started| && poller == started[g] && poller.inflight > 0
      requires store != null ==> store.Valid()
      modifies poller`prev, poller`inflight, bus`history, bus`log, bus.known, counter
      modifies if store == null then {} else {store}
      ensures Valid() && State() == old(State())
      ensures Stands(pollers[g := SessionDiff.Completed(pollers[g], next)])
      ensures reminders.State() == old(reminders.State())
      ensures bus.log == old(bus.log) + SessionEvents(SessionDiff.Diff(pollers[g].prev, next))
      ensures store != null ==> store.Valid()
    {
      RunTick(poller, g, next, providerByPid, now, writeFails, pruneFails);
    }

    // What of a tick concerns the stream; the books are the poller's contract.
    method RunTick(
      poller: SessionsDiffPoller, ghost g: nat, next: SessionDiff.StatusMap, providerByPid: map<int, string>, now: int,
      writeFails: Option<nat>, pruneFails: Option<nat>)
      requires Valid() && g < |started| && poller == started[g] && poller.inflight > 0
      requires store != null ==> store.Valid()
      modifies poller`prev, poller`inflight, bus`history, bus`log, bus.known, counter
      modifies if store == null then {} else {store}
      ensures poller.State() == SessionDiff.Completed(old(poller.State()), next)
      ensures Valid() && State() == old(State()) && (store != null ==> store.Valid())
      ensures bus.log == old(bus.log) + SessionEvents(SessionDiff.Diff(old(poller.prev), next))
    {
      CallTick(poller, next, providerByPid, now, writeFails, pruneFails);
    }

    method CallTick(
      poller: SessionsDiffPoller, next: SessionDiff.StatusMap, providerByPid: map<int, string>, now: int,
      writeFails: Option<nat>, pruneFails: Option<nat>)
      requires poller.bus == bus && poller.store == store && poller.counter == counter && poller.inflight > 0
      requires bus.Valid() && reminders.Valid() && (store != null ==> store.Valid())
      modifies poller`prev, poller`inflight, bus`history, bus`log, bus.known, counter
      modifies if store == null then {} else {store}
      ensures poller.State() == SessionDiff.Completed(old(poller.State()), next)
      ensures bus.Valid() && reminders.Valid() && (store != null ==> store.Valid())
      ensures bus.log == old(bus.log) + SessionEvents(SessionDiff.Diff(old(poller.prev), next))
    {
      poller.CompleteTick(next, providerByPid, now, writeFails, pruneFails);
    }

    method ReminderTickStarts(ghost s: System<Subscriber<WsEvent>>)
      requires Valid() && Matches(s) && stopReminders
      modifies reminders
      ensures Valid() && Matches(Do(s, Event.ReminderTickStarts))
    {
      reminders.StartTick();
    }

    method ReminderTickFails(ghost s: System<Subscriber<WsEvent>>)
      requires Valid() && Matches(s) && reminders.inflight > 0
      modifies reminders
      ensures Valid() && Matches(Do(s, Event.ReminderTickFails))
    {
      reminders.FailTick();
    }

    method ReminderTickCompletes(todos: ReminderDiff.TodoList, ghost s: System<Subscriber<WsEvent>>)
      requires Valid() && Matches(s) && reminders.inflight > 0
      modifies reminders, bus`history, bus`log, bus.known
      ensures Valid() && Matches(Do(s, Event.ReminderTickCompletes(todos)))
    {
      reminders.CompleteTick(todos);
      CarriesNews(s, old(bus.log), todos);
    }
  }
}
