// src/reminders/poll.ts: what the stream of todo events lets a client reconstruct.
module ReminderDiff {
  import opened Common

  // EventKit identifiers are only ever compared for equality.
  type Uuid = nat

  datatype Todo = Todo(
    id: Uuid, title: string, list: string, notes: Option<string>, due: Option<string>,
    priority: int, completed: bool)

  datatype TodoEvent =
    | Added(todo: Todo)
    | Completed(todo: Todo)
    | Updated(todo: Todo, previous: Todo)

  // What listTodos returns: reminders with different ids.
  type TodoList = todos: seq<Todo> | UniqueIds(todos) witness []

  predicate UniqueIds(todos: seq<Todo>) {
    forall i, j :: 0 <= i < j < |todos| ==> todos[i].id != todos[j].id
  }

  // new Map(prev.map(t => [t.id, t])): a later entry replaces an earlier one.
  function ById(todos: seq<Todo>): map<Uuid, Todo> {
    if todos == [] then map[] else
    var last := todos[|todos| - 1];
    ById(todos[..|todos| - 1])[last.id := last]
  }

  predicate SameText(a: Todo, b: Todo) {
    a.title == b.title && a.notes == b.notes && a.due == b.due
  }

  // The events one todo of `next` gives rise to: at most one.
  function EventsFor(prev: map<Uuid, Todo>, t: Todo): seq<TodoEvent> {
    if t.id !in prev then [Added(t)]
    else if !prev[t.id].completed && t.completed then [Completed(t)]
    else if !SameText(prev[t.id], t) then [Updated(t, prev[t.id])]
    else []
  }

  function Diff(prev: map<Uuid, Todo>, next: seq<Todo>): seq<TodoEvent> {
    if next == [] then [] else
    Diff(prev, next[..|next| - 1]) + EventsFor(prev, next[|next| - 1])
  }

  // diffTodos itself.
  method DiffTodos(prev: seq<Todo>, next: seq<Todo>) returns (events: seq<TodoEvent>)
    ensures events == Diff(ById(prev), next)
    ensures UniqueIds(prev) && UniqueIds(next) ==> forall e :: e in events <==> CalledFor(prev, next, e)
  {
    if UniqueIds(prev) && UniqueIds(next) {
      forall e ensures e in Diff(ById(prev), next) <==> CalledFor(prev, next, e) { DiffMeans(prev, next, e); }
    }
    events := [];
    var prevMap: map<Uuid, Todo> := map[];
    for k := 0 to |prev|
      invariant prevMap == ById(prev[..k])
    {
      assert prev[..k + 1][..k] == prev[..k];
      prevMap := prevMap[prev[k].id := prev[k]];
    }
    assert prev[..|prev|] == prev;
    var i := 0;
    while i < |next|
      invariant 0 <= i <= |next| && events == Diff(prevMap, next[..i])
    {
      var t := next[i];
      assert next[..i + 1][..i] == next[..i];
      i := i + 1;
      if t.id !in prevMap {
        events := events + [Added(t)];
        continue;
      }
      var before := prevMap[t.id];
      if !before.completed && t.completed {
        events := events + [Completed(t)];
        continue;
      }
      if before.title != t.title || before.notes != t.notes || before.due != t.due {
        events := events + [Updated(t, before)];
      }
    }
    assert next[..|next|] == next;
  }

  // The event is called for by these two lists: a todo is added if its id is new, completed
  // if it was open under that id, and otherwise updated if its title, notes or due date
  // changed, with the todo it was before.
  ghost predicate CalledFor(prev: seq<Todo>, next: seq<Todo>, e: TodoEvent) {
    && e.todo in next
    && match e
       case Added(t) => forall p :: p in prev ==> p.id != t.id
       case Completed(t) => t.completed && exists p :: p in prev && p.id == t.id && !p.completed
       case Updated(t, p) =>
         && p in prev && p.id == t.id && (p.completed || !t.completed)
         && (p.title != t.title || p.notes != t.notes || p.due != t.due)
  }

  function Todos(events: seq<TodoEvent>): (r: seq<Todo>)
    ensures |r| == |events|
  {
    seq(|events|, i requires 0 <= i < |events| => events[i].todo)
  }

  lemma EventForMeans(prev: TodoList, t: Todo, e: TodoEvent)
    ensures e in EventsFor(ById(prev), t) <==> e.todo == t && CalledFor(prev, [t], e)
  {
    ByIdIds(prev);
    if t.id in ById(prev) { assert ById(prev)[t.id] in prev; }
    assert forall p :: p in prev ==> ById(prev)[p.id] == p;
  }

  // A tick emits an event exactly if the two lists call for it, one at most for each todo, in
  // the order of the list.
  lemma {:induction false} DiffMeans(prev: TodoList, next: TodoList, e: TodoEvent)
    ensures e in Diff(ById(prev), next) <==> CalledFor(prev, next, e)
  {
    if next != [] {
      var init, t := next[..|next| - 1], next[|next| - 1];
      DiffMeans(prev, init, e);
      EventForMeans(prev, t, e);
      assert next == init + [t];
    }
  }

  lemma {:induction false} DiffInOrder(prev: map<Uuid, Todo>, next: seq<Todo>) returns (at: seq<nat>)
    ensures Picks(next, Todos(Diff(prev, next)), at)
  {
    if next == [] {
      at := [];
    } else {
      var init, t := next[..|next| - 1], next[|next| - 1];
      at := DiffInOrder(prev, init);
      PicksNext(init, Todos(Diff(prev, init)), at, t);
      TodosNext(prev, init, t);
      assert init + [t] == next;
      if EventsFor(prev, t) != [] { at := at + [|init|]; }
    }
  }

  lemma TodosNext(prev: map<Uuid, Todo>, init: seq<Todo>, t: Todo)
    ensures Todos(Diff(prev, init + [t])) ==
            if EventsFor(prev, t) == [] then Todos(Diff(prev, init)) else Todos(Diff(prev, init)) + [t]
  {
    assert (init + [t])[..|init|] == init;
  }

  // A client's mirror: the last todo it was told about, per id.
  function Fold(log: seq<TodoEvent>): map<Uuid, Todo> {
    if log == [] then map[] else
    var last := log[|log| - 1];
    Fold(log[..|log| - 1])[last.todo.id := last.todo]
  }

  // The mirror has the poller's texts, and no todo open that the poller has completed.
  ghost predicate Mirrors(mirror: map<Uuid, Todo>, state: map<Uuid, Todo>) {
    forall id :: id in state ==> ShowsTodo(mirror, state[id], id)
  }

  ghost predicate ShowsTodo(mirror: map<Uuid, Todo>, t: Todo, id: Uuid) {
    id in mirror && SameText(mirror[id], t) && (t.completed ==> mirror[id].completed)
  }

  // The mirror also has every todo open that the poller has open.
  ghost predicate ShowsOpen(mirror: map<Uuid, Todo>, state: map<Uuid, Todo>) {
    forall id :: id in state && id in mirror ==> (mirror[id].completed ==> state[id].completed)
  }

  // ----------------------------------------------------------------- one tick

  lemma FoldAppend(log: seq<TodoEvent>, events: seq<TodoEvent>)
    requires |events| <= 1
    ensures Fold(log + events) == if events == [] then Fold(log) else Fold(log)[events[0].todo.id := events[0].todo]
  {
    if events == [] {
      assert log + events == log;
    } else {
      assert log + events == log + [events[0]];
      assert (log + events)[..|log|] == log;
    }
  }

  lemma {:induction false} ByIdIds(todos: seq<Todo>)
    ensures forall id :: id in ById(todos) <==> exists i :: 0 <= i < |todos| && todos[i].id == id
    ensures forall id :: id in ById(todos) ==> ById(todos)[id].id == id
    ensures UniqueIds(todos) ==> forall i :: 0 <= i < |todos| ==> ById(todos)[todos[i].id] == todos[i]
  {
    if todos != [] {
      ByIdIds(todos[..|todos| - 1]);
    }
  }

  lemma NewIdIsLast(todos: seq<Todo>)
    requires todos != [] && UniqueIds(todos)
    ensures todos[|todos| - 1].id !in ById(todos[..|todos| - 1])
  {
    ByIdIds(todos[..|todos| - 1]);
  }

  function Get(m: map<Uuid, Todo>, id: Uuid): Option<Todo> {
    if id in m then Some(m[id]) else None
  }

  // The id's todo is one this tick reports.
  predicate Reports(prev: map<Uuid, Todo>, next: map<Uuid, Todo>, id: Uuid) {
    id in next && EventsFor(prev, next[id]) != []
  }

  // One todo's events, seen from one id.
  lemma FoldOfOne(log: seq<TodoEvent>, events: seq<TodoEvent>, prev: map<Uuid, Todo>, t: Todo, id: Uuid)
    ensures var more := EventsFor(prev, t);
            Get(Fold(log + (events + more)), id) ==
            if more != [] && t.id == id then Some(t) else Get(Fold(log + events), id)
  {
    var more := EventsFor(prev, t);
    FoldAppend(log + events, more);
    assert log + (events + more) == log + events + more;
  }

  // What the mirror shows for one id after a tick's events.
  lemma {:induction false} FoldOfDiff(log: seq<TodoEvent>, prev: map<Uuid, Todo>, next: seq<Todo>, id: Uuid)
    requires UniqueIds(next)
    ensures Get(Fold(log + Diff(prev, next)), id) ==
            if Reports(prev, ById(next), id) then Get(ById(next), id) else Get(Fold(log), id)
  {
    if next == [] {
      assert log + Diff(prev, next) == log;
    } else {
      var init, t := next[..|next| - 1], next[|next| - 1];
      FoldOfDiff(log, prev, init, id);
      FoldOfOne(log, Diff(prev, init), prev, t, id);
      NewIdIsLast(next);
      var all := ById(init)[t.id := t];
      assert Reports(prev, all, id) <==> if t.id == id then EventsFor(prev, t) != [] else Reports(prev, ById(init), id);
    }
  }

  lemma TickAdvancesMirror(log: seq<TodoEvent>, prev: map<Uuid, Todo>, next: TodoList)
    requires Mirrors(Fold(log), prev)
    ensures Mirrors(Fold(log + Diff(prev, next)), ById(next))
  {
    ByIdIds(next);
    forall id | id in ById(next) ensures ShowsTodo(Fold(log + Diff(prev, next)), ById(next)[id], id) {
      FoldOfDiff(log, prev, next, id);
      assert id in prev ==> ShowsTodo(Fold(log), prev[id], id);
      assert id in Fold(log + Diff(prev, next)) <==> Get(Fold(log + Diff(prev, next)), id) != None;
    }
  }

  // A reopened todo whose texts did not change is the one change no event reports.
  ghost predicate SilentlyReopened(prev: map<Uuid, Todo>, next: map<Uuid, Todo>, id: Uuid) {
    id in prev && id in next && prev[id].completed && !next[id].completed && SameText(prev[id], next[id])
  }

  // A mirror with the right open todos keeps them exactly when no todo is silently reopened.
  lemma OpenStaysRightExactlyWhen(log: seq<TodoEvent>, prev: map<Uuid, Todo>, next: TodoList)
    requires Mirrors(Fold(log), prev) && ShowsOpen(Fold(log), prev)
    ensures ShowsOpen(Fold(log + Diff(prev, next)), ById(next)) <==>
            forall id :: !SilentlyReopened(prev, ById(next), id)
  {
    ByIdIds(next);
    var after := Fold(log + Diff(prev, next));
    if id :| SilentlyReopened(prev, ById(next), id) {
      FoldOfDiff(log, prev, next, id);
      assert ShowsTodo(Fold(log), prev[id], id);
    } else {
      forall id | id in ById(next) && id in after ensures after[id].completed ==> ById(next)[id].completed {
        FoldOfDiff(log, prev, next, id);
        assert id in prev ==> ShowsTodo(Fold(log), prev[id], id);
        assert !SilentlyReopened(prev, ById(next), id);
      }
    }
  }

  // A tick announces its whole list as added exactly when no id was cached.
  lemma {:induction false} AnnouncesAllExactlyWhen(prev: map<Uuid, Todo>, next: seq<Todo>)
    ensures Diff(prev, next) == Announcements(next) <==> forall i :: 0 <= i < |next| ==> next[i].id !in prev
    ensures |Diff(prev, next)| <= |next|
  {
    if next != [] {
      var init, t := next[..|next| - 1], next[|next| - 1];
      AnnouncesAllExactlyWhen(prev, init);
      assert Announcements(next) == Announcements(init) + [Added(t)];
      SameParts(Diff(prev, init), EventsFor(prev, t), Announcements(init), [Added(t)]);
      assert forall i :: 0 <= i < |init| ==> init[i] == next[i];
    }
  }

  // Parts that are no longer than the other's.
  lemma SameParts<T>(a: seq<T>, x: seq<T>, b: seq<T>, y: seq<T>)
    requires |a| <= |b| && |x| <= |y|
    ensures a + x == b + y <==> a == b && x == y
  {
    if a + x == b + y {
      assert |a + x| == |b + y|;
      assert a == (a + x)[..|a|] && b == (b + y)[..|b|];
      assert x == (a + x)[|a|..] && y == (b + y)[|b|..];
    }
  }

  function Announcements(todos: seq<Todo>): (r: seq<TodoEvent>)
    ensures |r| == |todos|
  {
    seq(|todos|, i requires 0 <= i < |todos| => Added(todos[i]))
  }

  // --------------------------------------------------------------------- runs

  // The module's variables, the ticks in flight, and every event passed to onEvent.
  datatype State = State(polling: bool, prevState: seq<Todo>, inflight: nat, log: seq<TodoEvent>)

  datatype Step =
    | StartPolling
    | StopPolling
    | TickStarts                       // the interval fires
    | TickFails                        // listTodos throws
    | TickCompletes(next: TodoList)

  // A step that cannot happen changes nothing.
  function Do(s: State, step: Step): State {
    match step
    case StartPolling => if s.polling then s else s.(polling := true, inflight := s.inflight + 1)
    case StopPolling => s.(polling := false, prevState := [])
    case TickStarts => if s.polling then s.(inflight := s.inflight + 1) else s
    case TickFails => if s.inflight > 0 then s.(inflight := s.inflight - 1) else s
    case TickCompletes(next) =>
      if s.inflight > 0
      then s.(prevState := next, inflight := s.inflight - 1, log := s.log + Diff(ById(s.prevState), next))
      else s
  }

  function Run(s: State, steps: seq<Step>): State {
    if steps == [] then s else Do(Run(s, steps[..|steps| - 1]), steps[|steps| - 1])
  }

  lemma RunMore(s: State, steps: seq<Step>, more: seq<Step>)
    requires |more| <= 1
    ensures Run(s, steps + more) == if more == [] then Run(s, steps) else Do(Run(s, steps), more[0])
  {
    if more == [] {
      assert steps + more == steps;
    } else {
      assert (steps + more)[..|steps|] == steps;
    }
  }

  const INITIAL := State(false, [], 0, [])

  // Through failures, stops, restarts and ticks that land after a stop, the folded stream
  // stays a faithful mirror of the cached list.
  lemma {:induction false} StreamMirrorsPolledList(steps: seq<Step>)
    ensures var s := Run(INITIAL, steps); UniqueIds(s.prevState) && Mirrors(Fold(s.log), ById(s.prevState))
  {
    if steps != [] {
      StreamMirrorsPolledList(steps[..|steps| - 1]);
      var s, step := Run(INITIAL, steps[..|steps| - 1]), steps[|steps| - 1];
      if step.TickCompletes? && s.inflight > 0 {
        TickAdvancesMirror(s.log, ById(s.prevState), step.next);
      }
    }
  }

  // Step k sets the cache: a stop, or the completion of a tick.
  ghost predicate SetsCache(steps: seq<Step>, k: nat) {
    && k < |steps|
    && (steps[k].StopPolling? || (steps[k].TickCompletes? && Run(INITIAL, steps[..k]).inflight > 0))
  }

  ghost predicate LastSetsCache(steps: seq<Step>, k: nat) {
    SetsCache(steps, k) && forall j: nat :: k < j ==> !SetsCache(steps, j)
  }

  // Over any run the cache is the list of the last tick that completed, or empty if a stop
  // came after it or there was none; nothing else touches it.
  lemma {:induction false} CacheIsLastList(steps: seq<Step>)
    ensures (forall k: nat :: !SetsCache(steps, k)) ==> Run(INITIAL, steps).prevState == []
    ensures forall k: nat :: LastSetsCache(steps, k) ==> CacheIs(steps, k)
  {
    if steps != [] {
      var init, n := steps[..|steps| - 1], |steps| - 1;
      CacheIsLastList(init);
      SetsCacheBefore(steps, init);
      if SetsCache(steps, n) {
        assert CacheIs(steps, n);
        forall k: nat | LastSetsCache(steps, k) ensures k == n {}
      } else {
        assert Run(INITIAL, steps).prevState == Run(INITIAL, init).prevState;
        forall k: nat | LastSetsCache(steps, k) ensures CacheIs(steps, k) {
          assert k < n && LastSetsCache(init, k);
          assert CacheIs(init, k);
        }
      }
    }
  }

  // The cache is what step k made it.
  ghost predicate CacheIs(steps: seq<Step>, k: nat) {
    k < |steps| && match steps[k]
                   case StopPolling => Run(INITIAL, steps).prevState == []
                   case TickCompletes(next) => Run(INITIAL, steps).prevState == next
                   case _ => false
  }

  lemma SetsCacheBefore(steps: seq<Step>, init: seq<Step>)
    requires steps != [] && init == steps[..|steps| - 1]
    ensures forall k: nat :: SetsCache(init, k) <==> SetsCache(steps, k) && k < |init|
  {
    assert forall k: nat :: k < |init| ==> init[..k] == steps[..k];
  }

  ghost predicate OpenRight(steps: seq<Step>) {
    ShowsOpen(Fold(Run(INITIAL, steps).log), ById(Run(INITIAL, steps).prevState))
  }

  // The last step completes no tick that silently reopens a todo.
  ghost predicate ReopensNothing(steps: seq<Step>) {
    steps != [] ==> ReopensNone(Run(INITIAL, steps[..|steps| - 1]), steps[|steps| - 1])
  }

  ghost predicate ReopensNone(s: State, step: Step) {
    step.TickCompletes? && s.inflight > 0 ==>
      forall id :: !SilentlyReopened(ById(s.prevState), ById(step.next), id)
  }

  lemma StepKeepsOpenExactlyWhen(s: State, step: Step)
    requires Mirrors(Fold(s.log), ById(s.prevState)) && ShowsOpen(Fold(s.log), ById(s.prevState))
    ensures ShowsOpen(Fold(Do(s, step).log), ById(Do(s, step).prevState)) <==> ReopensNone(s, step)
  {
    if step.TickCompletes? && s.inflight > 0 {
      OpenStaysRightExactlyWhen(s.log, ById(s.prevState), step.next);
    }
  }

  // Over a whole run: clients show the right todos as open at every moment exactly when no
  // tick of the run silently reopens one.
  lemma {:induction false} OpenIsRightExactlyWhen(steps: seq<Step>)
    ensures AtEvery(OpenRight, steps) <==> AtEvery(ReopensNothing, steps)
  {
    if steps == [] {
      assert OpenRight(steps) && ReopensNothing(steps);
    } else {
      var init, step := steps[..|steps| - 1], steps[|steps| - 1];
      assert steps == init + [step];
      OpenIsRightExactlyWhen(init);
      AtEveryNext(OpenRight, init, step);
      AtEveryNext(ReopensNothing, init, step);
      if AtEvery(OpenRight, init) {
        AtEveryEnd(OpenRight, init);
        StreamMirrorsPolledList(init);
        StepKeepsOpenExactlyWhen(Run(INITIAL, init), step);
      }
    }
  }

  // Stop clears the cache, and it stays clear until some tick completes.
  lemma {:induction false} CacheStaysClear(s: State, steps: seq<Step>)
    requires s.prevState == [] && forall i :: 0 <= i < |steps| ==> !steps[i].TickCompletes?
    ensures Run(s, steps).prevState == [] && Run(s, steps).log == s.log
  {
    if steps != [] {
      CacheStaysClear(s, steps[..|steps| - 1]);
    }
  }

  ghost predicate ClearUnlessRestarted(s: State, steps: seq<Step>) {
    StartPolling !in steps ==> Run(s, steps).prevState == []
  }

  // Whatever happens until the next start, stop has cleared the cache exactly when no tick
  // was in flight.
  lemma StopClearsExactlyWhen(s: State)
    ensures (forall steps :: ClearUnlessRestarted(Do(s, StopPolling), steps)) <==> s.inflight == 0
  {
    if s.inflight == 0 {
      forall steps ensures ClearUnlessRestarted(Do(s, StopPolling), steps) {
        if StartPolling !in steps { NothingInFlight(Do(s, StopPolling), steps); }
      }
    } else {
      LateTickFills(Do(s, StopPolling), Todo(0, "", "", None, None, 0, false));
    }
  }

  lemma LateTickFills(s: State, t: Todo)
    requires s.inflight > 0
    ensures !ClearUnlessRestarted(s, [TickCompletes([t])])
  {
    var late: seq<Step> := [TickCompletes([t])];
    assert late[..0] == [];
    assert Run(s, late) == Do(s, TickCompletes([t]));
    assert Do(s, TickCompletes([t])).prevState == [t];
  }

  lemma {:induction false} NothingInFlight(s: State, steps: seq<Step>)
    requires !s.polling && s.inflight == 0 && s.prevState == [] && StartPolling !in steps
    ensures var t := Run(s, steps); !t.polling && t.inflight == 0 && t.prevState == []
  {
    if steps != [] {
      assert steps[|steps| - 1] in steps;
      NothingInFlight(s, steps[..|steps| - 1]);
    }
  }

  // So the first tick to complete after a stop announces everything it lists.
  lemma FirstTickAfterStopAnnouncesAll(s: State, steps: seq<Step>, next: TodoList)
    requires forall i :: 0 <= i < |steps| ==> !steps[i].TickCompletes?
    requires Run(Do(s, StopPolling), steps).inflight > 0
    ensures Do(Run(Do(s, StopPolling), steps), TickCompletes(next)).log == s.log + Announcements(next)
  {
    CacheStaysClear(Do(s, StopPolling), steps);
    ClearCacheAnnouncesAll(Run(Do(s, StopPolling), steps), next);
  }

  lemma ClearCacheAnnouncesAll(s: State, next: TodoList)
    requires s.inflight > 0 && s.prevState == []
    ensures Do(s, TickCompletes(next)).log == s.log + Announcements(next)
  {
    AnnouncesAllExactlyWhen(map[], next);
    assert Diff(map[], next) == Announcements(next);
  }

  // But that tick may be a late one of the stopped loop. It fills the cache that stop had
  // cleared, and the restarted loop then announces nothing to its new clients.
  lemma LateTickSwallowsAnnouncements(s: State, next: TodoList)
    requires s.polling && s.inflight > 0
    ensures var stopped := Do(Do(s, StopPolling), TickCompletes(next));
            var restarted := Do(stopped, StartPolling);
            && !stopped.polling && stopped.prevState == next
            && Do(restarted, TickCompletes(next)).log == restarted.log
  {
    NothingChangedNothingEmitted(next, |next|);
    assert next[..|next|] == next;
  }

  lemma {:induction false} NothingChangedNothingEmitted(todos: TodoList, n: nat)
    requires n <= |todos|
    ensures Diff(ById(todos), todos[..n]) == []
  {
    if n > 0 {
      NothingChangedNothingEmitted(todos, n - 1);
      ByIdIds(todos);
      assert todos[..n][..n - 1] == todos[..n - 1];
    }
  }

  // A completed todo is reopened: the poller has it open, no event says so, and clients show
  // it completed.
  lemma ReopenedTodoShowsCompleted(done: Todo)
    requires done.completed
    ensures var reopened := done.(completed := false);
            var s := Run(INITIAL, [StartPolling, TickCompletes([done]), TickStarts, TickCompletes([reopened])]);
            && s.prevState == [reopened] && Fold(s.log) == map[done.id := done]
            && SilentlyReopened(ById([done]), ById([reopened]), done.id)
            && !ShowsOpen(Fold(s.log), ById(s.prevState))
  {
    ReopenedRun(done);
    OneTodo(map[], done);
    OneTodo(map[], done.(completed := false));
    FoldAppend([], [Added(done)]);
    assert [] + [Added(done)] == [Added(done)];
  }

  lemma ReopenedRun(done: Todo)
    requires done.completed
    ensures var reopened := done.(completed := false);
            Run(INITIAL, [StartPolling, TickCompletes([done]), TickStarts, TickCompletes([reopened])]) ==
            State(true, [reopened], 0, [Added(done)])
  {
    var reopened := done.(completed := false);
    FirstList(done);
    SecondList(done);
    var s1: seq<Step> := [StartPolling];
    assert s1[..0] == [];
    assert Run(INITIAL, s1) == State(true, [], 1, []);
    RunMore(INITIAL, s1, [TickCompletes([done])]);
    var s2 := s1 + [TickCompletes([done])];
    assert Run(INITIAL, s2) == State(true, [done], 0, [Added(done)]);
    RunMore(INITIAL, s2, [TickStarts]);
    var s3 := s2 + [TickStarts];
    assert Run(INITIAL, s3) == State(true, [done], 1, [Added(done)]);
    RunMore(INITIAL, s3, [TickCompletes([reopened])]);
    FourSteps(StartPolling, TickCompletes([done]), TickStarts, TickCompletes([reopened]));
  }

  lemma FourSteps<T>(a: T, b: T, c: T, d: T)
    ensures [a] + [b] + [c] + [d] == [a, b, c, d]
  {
  }

  lemma FirstList(done: Todo)
    ensures Do(State(true, [], 1, []), TickCompletes([done])) == State(true, [done], 0, [Added(done)])
  {
    OneTodo(map[], done);
    assert [] + [Added(done)] == [Added(done)];
  }

  lemma SecondList(done: Todo)
    requires done.completed
    ensures Do(State(true, [done], 1, [Added(done)]), TickCompletes([done.(completed := false)])) ==
            State(true, [done.(completed := false)], 0, [Added(done)])
  {
    OneTodo(map[], done);
    OneTodo(ById([done]), done.(completed := false));
    assert [Added(done)] + [] == [Added(done)];
  }

  lemma OneTodo(prev: map<Uuid, Todo>, t: Todo)
    ensures Diff(prev, [t]) == EventsFor(prev, t) && ById([t]) == map[t.id := t]
  {
    assert [t][..0] == [];
    assert [] + EventsFor(prev, t) == EventsFor(prev, t);
  }
}
