// What one WebSocket client can show from the events it was sent, wherever in the stream it
// joined: src/http/ws.ts, the sendJson callback of a connection.
module Clients {
  import opened Common
  import opened Broadcast
  import opened Pollers
  import SessionDiff
  import ReminderDiff
  import Lifecycle

  // A callback that was never called before and subscribes after `a`, for good.
  ghost predicate JoinsAfter<S>(a: seq<Op<S, WsEvent>>, b: seq<Op<S, WsEvent>>, s: S) {
    !Member(a, s) && Received(a, s) == [] && Op.Unsubscribe(s) !in b
  }

  function Joined<S>(a: seq<Op<S, WsEvent>>, b: seq<Op<S, WsEvent>>, s: S): seq<Op<S, WsEvent>> {
    a + [Subscribe(s)] + b
  }

  lemma ReceivesTheRest<S>(a: seq<Op<S, WsEvent>>, b: seq<Op<S, WsEvent>>, s: S)
    requires JoinsAfter(a, b, s)
    ensures Received(Joined(a, b, s), s) == Log(b)
    ensures Log(Joined(a, b, s)) == Log(a) + Log(b)
  {
    Extend(a, Subscribe(s), s);
    ReceivedWhileSubscribed(a + [Subscribe(s)], b, s);
    LogAppend(a + [Subscribe(s)], b);
  }

  // The broadcaster has carried the daemon's events up to where s joined, and since.
  ghost predicate Carries<S>(
    before: seq<Lifecycle.Event<S>>, more: seq<Lifecycle.Event<S>>,
    a: seq<Op<S, WsEvent>>, b: seq<Op<S, WsEvent>>, s: S)
  {
    && Lifecycle.Carried(Lifecycle.Run(Lifecycle.Boot(), before), Log(a))
    && Lifecycle.Carried(After(before, more), Log(Joined(a, b, s)))
  }

  function After<S>(before: seq<Lifecycle.Event<S>>, more: seq<Lifecycle.Event<S>>): Lifecycle.System<S> {
    Lifecycle.Run(Lifecycle.Boot(), before + more)
  }

  // Of all sessions, a client shows exactly those with an event since it joined; others it
  // does not show at all, however long they have been known. What it shows of the newest
  // poller's sessions is right at every moment exactly when the late ticks since it joined
  // are harmless. For any run of the daemon.
  lemma LateClientShowsExactly<S>(
    before: seq<Lifecycle.Event<S>>, more: seq<Lifecycle.Event<S>>,
    a: seq<Op<S, WsEvent>>, b: seq<Op<S, WsEvent>>, s: S)
    requires JoinsAfter(a, b, s) && Carries(before, more, a, b, s)
    ensures var shown := SessionDiff.Fold(Flat(UpdateOf, Received(Joined(a, b, s), s)));
            && (forall pid :: pid in shown <==> SessionDiff.Mentions(Flat(UpdateOf, Log(b)), pid))
            && (RightNow(After(before, more).sessions, shown) <==>
                  Lifecycle.RightSince(Lifecycle.Run(Lifecycle.Boot(), before))(more))
    ensures AtEvery(Lifecycle.RightSince(Lifecycle.Run(Lifecycle.Boot(), before)), more) <==>
            AtEvery(Lifecycle.HarmlessSince(Lifecycle.Run(Lifecycle.Boot(), before)), more)
  {
    ReceivesTheRest(a, b, s);
    SeenSince(before, more, a, b, s);
    forall pid
      ensures pid in SessionDiff.Fold(Flat(UpdateOf, Log(b))) <==> SessionDiff.Mentions(Flat(UpdateOf, Log(b)), pid)
    {
      SessionDiff.FoldShowsMentioned(Flat(UpdateOf, Log(b)), pid);
    }
    Lifecycle.RunConcat(Lifecycle.Boot(), before, more);
    Lifecycle.ClientIsRightExactlyWhen(Lifecycle.Run(Lifecycle.Boot(), before), more);
  }

  // What is shown of the newest poller's sessions is as the poller has it.
  ghost predicate RightNow(w: SessionDiff.World, shown: map<int, RefinedStatus>) {
    w.pollers != [] ==> SessionDiff.AgreesWith(shown, w.pollers[|w.pollers| - 1].prev)
  }

  // The session events the client got are those of the system since it joined.
  lemma SeenSince<S>(
    before: seq<Lifecycle.Event<S>>, more: seq<Lifecycle.Event<S>>,
    a: seq<Op<S, WsEvent>>, b: seq<Op<S, WsEvent>>, s: S)
    requires JoinsAfter(a, b, s) && Carries(before, more, a, b, s)
    ensures var from := |Lifecycle.Run(Lifecycle.Boot(), before).sessions.log|;
            && from <= |After(before, more).sessions.log|
            && SessionDiff.Updates(After(before, more).sessions.log)[from..] == Flat(UpdateOf, Log(b))
  {
    ReceivesTheRest(a, b, s);
    FlatConcat(UpdateOf, Log(a), Log(b));
    assert |SessionDiff.Updates(Lifecycle.Run(Lifecycle.Boot(), before).sessions.log)|
        == |Lifecycle.Run(Lifecycle.Boot(), before).sessions.log|;
  }

  ghost predicate Announces(news: seq<ReminderDiff.TodoEvent>, id: ReminderDiff.Uuid) {
    exists i :: 0 <= i < |news| && news[i].todo.id == id
  }

  lemma {:induction false} FoldShowsAnnounced(
    before: seq<ReminderDiff.TodoEvent>, since: seq<ReminderDiff.TodoEvent>, id: ReminderDiff.Uuid)
    ensures id in ReminderDiff.Fold(since) <==> Announces(since, id)
    ensures id in ReminderDiff.Fold(since) ==>
              ReminderDiff.Get(ReminderDiff.Fold(before + since), id) == Some(ReminderDiff.Fold(since)[id])
    decreases |since|
  {
    if since != [] {
      var init := since[..|since| - 1];
      FoldShowsAnnounced(before, init, id);
      assert (before + since)[..|before + since| - 1] == before + init;
      if i :| 0 <= i < |init| && init[i].todo.id == id { assert since[i].todo.id == id; }
      if i :| 0 <= i < |since| && since[i].todo.id == id { assert i < |init| ==> init[i].todo.id == id; }
    }
  }

  // The same for todos, in any run at all: of the cached list a client shows exactly the
  // todos announced since it joined, with the cached texts and never open when completed.
  lemma LateClientShowsTodosExactly<S>(
    events: seq<Lifecycle.Event<S>>, a: seq<Op<S, WsEvent>>, b: seq<Op<S, WsEvent>>, s: S)
    requires JoinsAfter(a, b, s)
    requires Lifecycle.Carried(Lifecycle.Run(Lifecycle.Boot(), events), Log(Joined(a, b, s)))
    ensures var cached := ReminderDiff.ById(Lifecycle.Run(Lifecycle.Boot(), events).reminders.prevState);
            var shown := ReminderDiff.Fold(Flat(NewsOf, Received(Joined(a, b, s), s)));
            && (forall id :: id in shown <==> Announces(Flat(NewsOf, Log(b)), id))
            && (forall id :: id in cached && id in shown ==> ReminderDiff.ShowsTodo(shown, cached[id], id))
  {
    Lifecycle.LoopsStayFaithful(events);
    ReceivesTheRest(a, b, s);
    FlatConcat(NewsOf, Log(a), Log(b));
    var cached := ReminderDiff.ById(Lifecycle.Run(Lifecycle.Boot(), events).reminders.prevState);
    var shown := ReminderDiff.Fold(Flat(NewsOf, Log(b)));
    forall id ensures id in shown <==> Announces(Flat(NewsOf, Log(b)), id)
              ensures id in cached && id in shown ==> ReminderDiff.ShowsTodo(shown, cached[id], id) {
      FoldShowsAnnounced(Flat(NewsOf, Log(a)), Flat(NewsOf, Log(b)), id);
    }
  }

  type Client = Subscriber<WsEvent>

  // The object stands where the system stands after these events, and s joined like this: with
  // the log at Log(a), when the system stood where it does after `before`.
  ghost predicate Connected(
    ws: Lifecycle.AttachedWs, before: seq<Lifecycle.Event<Client>>, more: seq<Lifecycle.Event<Client>>,
    a: seq<Op<Client, WsEvent>>, b: seq<Op<Client, WsEvent>>, s: Client)
    reads ws, ws.bus, ws.bus.known, ws.reminders, ws.started
  {
    && ws.Valid() && ws.Matches(After(before, more))
    && s in ws.bus.known && ws.bus.history == Joined(a, b, s) && JoinsAfter(a, b, s)
    && Lifecycle.Carried(Lifecycle.Run(Lifecycle.Boot(), before), Log(a))
  }

  lemma ConnectedReceived(
    ws: Lifecycle.AttachedWs, before: seq<Lifecycle.Event<Client>>, more: seq<Lifecycle.Event<Client>>,
    a: seq<Op<Client, WsEvent>>, b: seq<Op<Client, WsEvent>>, s: Client)
    requires Connected(ws, before, more, a, b, s)
    ensures s.received == Received(Joined(a, b, s), s)
    ensures Carries(before, more, a, b, s)
  {
    assert s.received == Received(ws.bus.history, s) && ws.bus.log == Log(ws.bus.history);
  }

  // The same for the object itself: wherever the handlers have taken it, this is what the
  // client behind a callback can show from the events the callback was called with.
  lemma ConnectedClientShowsSessions(
    ws: Lifecycle.AttachedWs, before: seq<Lifecycle.Event<Client>>, more: seq<Lifecycle.Event<Client>>,
    a: seq<Op<Client, WsEvent>>, b: seq<Op<Client, WsEvent>>, s: Client)
    requires Connected(ws, before, more, a, b, s)
    ensures var shown := SessionDiff.Fold(Flat(UpdateOf, s.received));
            && (forall pid :: pid in shown <==> SessionDiff.Mentions(Flat(UpdateOf, Log(b)), pid))
            && (AtEvery(Lifecycle.HarmlessSince(Lifecycle.Run(Lifecycle.Boot(), before)), more) && ws.started != [] ==>
                  SessionDiff.AgreesWith(shown, ws.started[|ws.started| - 1].prev))
  {
    ConnectedReceived(ws, before, more, a, b, s);
    LateClientShowsExactly(before, more, a, b, s);
    if AtEvery(Lifecycle.HarmlessSince(Lifecycle.Run(Lifecycle.Boot(), before)), more) {
      AtEveryEnd(Lifecycle.RightSince(Lifecycle.Run(Lifecycle.Boot(), before)), more);
    }
  }

  lemma ConnectedClientShowsTodos(
    ws: Lifecycle.AttachedWs, before: seq<Lifecycle.Event<Client>>, more: seq<Lifecycle.Event<Client>>,
    a: seq<Op<Client, WsEvent>>, b: seq<Op<Client, WsEvent>>, s: Client)
    requires Connected(ws, before, more, a, b, s)
    ensures var shown := ReminderDiff.Fold(Flat(NewsOf, s.received));
            var cached := ReminderDiff.ById(ws.reminders.prevState);
            && (forall id :: id in shown <==> Announces(Flat(NewsOf, Log(b)), id))
            && (forall id :: id in cached && id in shown ==> ReminderDiff.ShowsTodo(shown, cached[id], id))
  {
    ConnectedReceived(ws, before, more, a, b, s);
    LateClientShowsTodosExactly(before + more, a, b, s);
  }
}
