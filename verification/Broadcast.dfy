// src/http/ws.ts, WsBroadcaster: events fan out to every subscribed callback.
module Broadcast {
  import opened Common

  // What happened to a broadcaster, for callbacks named by S and events E.
  datatype Op<S, E> = Subscribe(who: S) | Unsubscribe(who: S) | Emit(event: E)

  // The global event log of a history.
  function Log<S, E>(history: seq<Op<S, E>>): seq<E> {
    if history == [] then [] else
    var last := history[|history| - 1];
    Log(history[..|history| - 1]) + if last.Emit? then [last.event] else []
  }

  // Who is subscribed after a history.
  ghost predicate Member<S, E>(history: seq<Op<S, E>>, s: S) {
    history != [] &&
    match history[|history| - 1]
    case Subscribe(w) => w == s || Member(history[..|history| - 1], s)
    case Unsubscribe(w) => w != s && Member(history[..|history| - 1], s)
    case Emit(_) => Member(history[..|history| - 1], s)
  }

  // The events a callback has been called with, in order.
  ghost function Received<S, E>(history: seq<Op<S, E>>, s: S): seq<E> {
    if history == [] then [] else
    var before, last := history[..|history| - 1], history[|history| - 1];
    Received(before, s) + if last.Emit? && Member(before, s) then [last.event] else []
  }

  // One more operation.
  lemma Extend<S, E>(h: seq<Op<S, E>>, op: Op<S, E>, s: S)
    ensures Log(h + [op]) == Log(h) + if op.Emit? then [op.event] else []
    ensures Member(h + [op], s) <==>
            if op.Emit? then Member(h, s) else if op.who == s then op.Subscribe? else Member(h, s)
    ensures Received(h + [op], s) == Received(h, s) + if op.Emit? && Member(h, s) then [op.event] else []
  {
    assert (h + [op])[..|h|] == h;
  }

  lemma {:induction false} LogAppend<S, E>(a: seq<Op<S, E>>, b: seq<Op<S, E>>)
    ensures Log(a + b) == Log(a) + Log(b)
  {
    if b == [] {
      assert a + b == a;
    } else {
      var init := b[..|b| - 1];
      LogAppend(a, init);
      assert (a + b)[..|a + b| - 1] == a + init;
    }
  }

  // While s stays subscribed it is called with every event, in order.
  lemma {:induction false} ReceivedWhileSubscribed<S, E>(a: seq<Op<S, E>>, b: seq<Op<S, E>>, s: S)
    requires Member(a, s) && Op.Unsubscribe(s) !in b
    ensures Member(a + b, s) && Received(a + b, s) == Received(a, s) + Log(b)
  {
    if b == [] {
      assert a + b == a;
    } else {
      var init, last := b[..|b| - 1], b[|b| - 1];
      ReceivedWhileSubscribed(a, init, s);
      Extend(a + init, last, s);
      assert a + b == a + init + [last];
    }
  }

  // While s stays unsubscribed it is never called.
  lemma {:induction false} NothingWhileUnsubscribed<S, E>(a: seq<Op<S, E>>, b: seq<Op<S, E>>, s: S)
    requires !Member(a, s) && Op.Subscribe(s) !in b
    ensures !Member(a + b, s) && Received(a + b, s) == Received(a, s)
  {
    if b == [] {
      assert a + b == a;
    } else {
      var init, last := b[..|b| - 1], b[|b| - 1];
      NothingWhileUnsubscribed(a, init, s);
      Extend(a + init, last, s);
      assert a + b == a + init + [last];
    }
  }

  lemma NeverSubscribed<S, E>(h: seq<Op<S, E>>, s: S)
    requires Op.Subscribe(s) !in h
    ensures !Member(h, s) && Received(h, s) == []
  {
    assert [] + h == h;
    NothingWhileUnsubscribed([], h, s);
  }

  // A subscription adds exactly the contiguous slice of the log between its subscribe and
  // its unsubscribe, whatever other callbacks come, go or throw meanwhile.
  lemma SubscriptionReceivesItsSlice<S, E>(
    a: seq<Op<S, E>>, b: seq<Op<S, E>>, c: seq<Op<S, E>>, s: S)
    requires !Member(a, s)
    requires Op.Unsubscribe(s) !in b
    requires Op.Subscribe(s) !in c
    ensures var h := a + [Subscribe(s)] + b + [Unsubscribe(s)] + c;
            var from, to := |Log(a)|, |Log(a)| + |Log(b)|;
            to <= |Log(h)| && Received(h, s) == Received(a, s) + Log(h)[from..to]
  {
    var a1 := a + [Op.Subscribe(s)];
    Extend(a, Op.Subscribe(s), s);
    ReceivedWhileSubscribed(a1, b, s);
    var a2 := a1 + b + [Op.Unsubscribe(s)];
    Extend(a1 + b, Op.Unsubscribe(s), s);
    NothingWhileUnsubscribed(a2, c, s);
    LogAppend(a1, b);
    LogAppend(a2, c);
  }

  // A callback. It is called with each event; whether it then throws is its own affair.
  class Subscriber<E> {
    var received: seq<E>

    constructor ()
      ensures received == []
    {
      received := [];
    }

    method Call(e: E) returns (threw: bool)
      modifies this
      ensures received == old(received) + [e]
    {
      received := received + [e];
      threw := *;
    }
  }

  class WsBroadcaster<E> {
    // A JavaScript Set iterates in insertion order.
    var subscribers: seq<Subscriber<E>>
    ghost var history: seq<Op<Subscriber<E>, E>>
    ghost var log: seq<E>
    ghost var known: set<Subscriber<E>>

    ghost predicate Valid() reads this, known {
      && Distinct(subscribers) && log == Log(history)
      && (forall s :: s in subscribers ==> s in known)
      && (forall s :: s in known ==> (s in subscribers <==> Member(history, s)))
      && (forall s :: s in known ==> s.received == Received(history, s))
      && (forall i :: 0 <= i < |history| && history[i].Subscribe? ==> history[i].who in known)
    }

    constructor ()
      ensures Valid() && fresh(this) && known == {} && history == [] && log == [] && subscribers == []
    {
      subscribers, history, log, known := [], [], [], {};
    }

    method Subscribe(fn: Subscriber<E>)
      requires Valid() && (fn in known || fn.received == [])
      modifies this
      ensures Valid() && known == old(known) + {fn}
      ensures forall s :: s in subscribers <==> s in old(subscribers) || s == fn
      ensures history == old(history) + [Op.Subscribe(fn)] && log == old(log)
    {
      Know(fn);
      Add(fn);
      Record(Op.Subscribe(fn));
    }

    // A callback joins the history's cast.
    ghost method Know(fn: Subscriber<E>)
      requires Valid() && (fn in known || fn.received == [])
      modifies this`known
      ensures Valid() && known == old(known) + {fn}
    {
      if fn !in known { NeverSubscribed(history, fn); }
      known := known + {fn};
    }

    // Set.add
    method Add(fn: Subscriber<E>)
      requires Distinct(subscribers)
      modifies this`subscribers
      ensures Distinct(subscribers)
      ensures forall s :: s in subscribers <==> s in old(subscribers) || s == fn
    {
      if fn !in subscribers { subscribers := subscribers + [fn]; }
    }

    method Unsubscribe(fn: Subscriber<E>)
      requires Valid()
      modifies this
      ensures Valid() && known == old(known)
      ensures forall s :: s in subscribers <==> s in old(subscribers) && s != fn
      ensures history == old(history) + [Op.Unsubscribe(fn)] && log == old(log)
    {
      if k :| 0 <= k < |subscribers| && subscribers[k] == fn {
        subscribers := subscribers[..k] + subscribers[k + 1..];
        assert forall s :: s in subscribers <==> s in old(subscribers) && s != fn;
      }
      Record(Op.Unsubscribe(fn));
    }

    function Size(): nat reads this { |subscribers| }

    // Every subscriber is called exactly once, even after an earlier one threw.
    method Emit(e: E)
      requires Valid()
      modifies this`history, this`log, known
      ensures Valid() && history == old(history) + [Op.Emit(e)] && log == old(log) + [e]
    {
      var i := 0;
      while i < |subscribers|
        invariant 0 <= i <= |subscribers| && history == old(history) && log == old(log)
        invariant forall s :: s in known ==>
          s.received == old(s.received) + if s in subscribers[..i] then [e] else []
      {
        assert subscribers[..i + 1] == subscribers[..i] + [subscribers[i]];
        var threw := subscribers[i].Call(e);
        i := i + 1;
      }
      assert subscribers[..i] == subscribers;
      Record(Op.Emit(e));
    }

    // Extends the specification's history.
    ghost method Record(op: Op<Subscriber<E>, E>)
      modifies this`history, this`log
      requires log == Log(history)
      ensures history == old(history) + [op] && log == Log(history)
      ensures log == old(log) + if op.Emit? then [op.event] else []
      ensures forall s :: s in known ==>
                (Member(history, s) <==>
                 if op.Emit? then Member(old(history), s)
                 else if op.who == s then op.Subscribe? else Member(old(history), s))
      ensures forall s :: s in known ==>
                Received(history, s) ==
                Received(old(history), s) + if op.Emit? && Member(old(history), s) then [op.event] else []
    {
      forall s | s in known { Extend(history, op, s); }
      assert (history + [op])[..|history|] == history;
      history, log := history + [op], log + if op.Emit? then [op.event] else [];
    }
  }
}
