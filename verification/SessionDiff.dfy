// src/http/ws.ts, the sessions diff poller: what its events let a client reconstruct.
//
// A tick awaits discovery and then runs one section without interruption, so ticks of one
// poller may overlap and finish in any order, also after stop. A poller that was stopped
// may still have ticks in flight when the next poller is already running.
module SessionDiff {
  import opened Common

  datatype Update = Update(pid: int, status: RefinedStatus, previous: Option<RefinedStatus>)

  // A JavaScript Map from pid to status, in iteration order.
  type StatusMap = entries: seq<(int, RefinedStatus)> | DistinctPids(entries) witness []

  predicate DistinctPids(entries: seq<(int, RefinedStatus)>) {
    forall i, j :: 0 <= i < j < |entries| ==> entries[i].0 != entries[j].0
  }

  function Contents(entries: seq<(int, RefinedStatus)>): map<int, RefinedStatus> {
    if entries == [] then map[] else
    var last := entries[|entries| - 1];
    Contents(entries[..|entries| - 1])[last.0 := last.1]
  }

  // Map.get, with undefined read as null.
  function Get(m: map<int, RefinedStatus>, pid: int): Option<RefinedStatus> {
    if pid in m then Some(m[pid]) else None
  }

  // The event one entry gives rise to, if any.
  function Change(prev: map<int, RefinedStatus>, pid: int, status: RefinedStatus): seq<Update> {
    if Get(prev, pid) != Some(status) then [Update(pid, status, Get(prev, pid))] else []
  }

  // The events of one tick.
  function Diff(prev: map<int, RefinedStatus>, next: seq<(int, RefinedStatus)>): seq<Update> {
    if next == [] then [] else
    var (pid, status) := next[|next| - 1];
    Diff(prev, next[..|next| - 1]) + Change(prev, pid, status)
  }

  lemma DiffPrefix(prev: map<int, RefinedStatus>, next: seq<(int, RefinedStatus)>, i: nat)
    requires i < |next|
    ensures Diff(prev, next[..i + 1]) == Diff(prev, next[..i]) + Change(prev, next[i].0, next[i].1)
  {
    assert next[..i + 1][..i] == next[..i];
  }

  // A tick emits an event for a pid exactly if the map has the pid with that status and the
  // poller did not have it before; `previous` is what the poller had, null if nothing.
  lemma {:induction false} DiffMeans(prev: map<int, RefinedStatus>, next: seq<(int, RefinedStatus)>, u: Update)
    ensures u in Diff(prev, next) <==>
      && (u.pid, u.status) in next
      && (u.pid in prev ==> prev[u.pid] != u.status && u.previous == Some(prev[u.pid]))
      && (u.pid !in prev ==> u.previous == None)
  {
    if next != [] {
      DiffMeans(prev, next[..|next| - 1], u);
      ChangeMeans(prev, next[|next| - 1].0, next[|next| - 1].1, u);
      assert next == next[..|next| - 1] + [next[|next| - 1]];
    }
  }

  lemma ChangeMeans(prev: map<int, RefinedStatus>, pid: int, status: RefinedStatus, u: Update)
    ensures u in Change(prev, pid, status) <==>
      && u.pid == pid && u.status == status
      && (pid in prev ==> prev[pid] != status && u.previous == Some(prev[pid]))
      && (pid !in prev ==> u.previous == None)
  {
  }

  // A client's mirror: apply every event it received.
  function Fold(log: seq<Update>): map<int, RefinedStatus> {
    if log == [] then map[] else
    var last := log[|log| - 1];
    Fold(log[..|log| - 1])[last.pid := last.status]
  }

  // The mirror agrees with the poller on every pid the poller knows.
  ghost predicate Mirrors(mirror: map<int, RefinedStatus>, prev: map<int, RefinedStatus>) {
    forall pid :: pid in prev ==> pid in mirror && mirror[pid] == prev[pid]
  }

  // Every event reports a change, and its `previous` is null or what a mirror showed.
  ghost predicate WellReported(log: seq<Update>) {
    forall i :: 0 <= i < |log| ==> ReportedAt(log, i)
  }

  ghost predicate ReportedAt(log: seq<Update>, i: nat)
    requires i < |log|
  {
    && log[i].previous != Some(log[i].status)
    && (log[i].previous == None || Get(Fold(log[..i]), log[i].pid) == log[i].previous)
  }

  // ----------------------------------------------------------------- one tick

  lemma FoldAppend(log: seq<Update>, u: Update)
    ensures Fold(log + [u]) == Fold(log)[u.pid := u.status]
  {
    assert (log + [u])[..|log|] == log;
  }

  lemma ReportedAppend(log: seq<Update>, u: Update)
    requires WellReported(log) && u.previous != Some(u.status)
    requires u.previous == None || Get(Fold(log), u.pid) == u.previous
    ensures WellReported(log + [u])
  {
    forall i | 0 <= i < |log + [u]| ensures ReportedAt(log + [u], i) {
      assert (log + [u])[..i] == log[..i];
      assert i < |log| ==> ReportedAt(log, i);
      assert log[..|log|] == log;
    }
  }

  // After a tick's events the mirror shows `next`, and elsewhere what it showed before.
  lemma {:induction false} TickAdvancesMirror(log: seq<Update>, prev: map<int, RefinedStatus>,
      next: seq<(int, RefinedStatus)>)
    requires DistinctPids(next) && Mirrors(Fold(log), prev) && WellReported(log)
    ensures var after := Fold(log + Diff(prev, next));
            && Mirrors(after, Contents(next))
            && (forall pid :: pid !in Contents(next) ==> Get(after, pid) == Get(Fold(log), pid))
    ensures WellReported(log + Diff(prev, next))
  {
    if next == [] {
      assert log + Diff(prev, next) == log;
    } else {
      var init := next[..|next| - 1];
      var (pid, status) := next[|next| - 1];
      TickAdvancesMirror(log, prev, init);
      NewPidIsLast(next);
      ChangeAdvancesMirror(log + Diff(prev, init), Contents(init), prev, pid, status);
      assert log + Diff(prev, next) == log + Diff(prev, init) + Change(prev, pid, status);
      assert Contents(next) == Contents(init)[pid := status];
    }
  }

  // One entry of a tick, for a pid the tick has not reported yet.
  lemma ChangeAdvancesMirror(log: seq<Update>, done: map<int, RefinedStatus>, prev: map<int, RefinedStatus>, pid: int,
      status: RefinedStatus)
    requires WellReported(log) && Mirrors(Fold(log), done) && pid !in done
    requires pid in prev ==> Get(Fold(log), pid) == Some(prev[pid])
    ensures var after := log + Change(prev, pid, status);
            && WellReported(after) && Mirrors(Fold(after), done[pid := status])
            && forall q :: q != pid ==> Get(Fold(after), q) == Get(Fold(log), q)
  {
    if Get(prev, pid) != Some(status) {
      var u := Update(pid, status, Get(prev, pid));
      FoldAppend(log, u);
      ReportedAppend(log, u);
    } else {
      assert log + Change(prev, pid, status) == log;
    }
  }

  lemma {:induction false} ContentsPids(entries: seq<(int, RefinedStatus)>)
    ensures forall pid :: pid in Contents(entries) <==> exists i :: 0 <= i < |entries| && entries[i].0 == pid
    ensures DistinctPids(entries) ==> forall i :: 0 <= i < |entries| ==>
        Get(Contents(entries), entries[i].0) == Some(entries[i].1)
  {
    if entries != [] {
      ContentsPids(entries[..|entries| - 1]);
    }
  }

  // ------------------------------------------------- runs with many pollers

  datatype Poller = Poller(stopped: bool, prev: map<int, RefinedStatus>, inflight: nat)

  datatype Entry = Entry(generation: nat, update: Update)

  // Every poller ever started, and the log of the broadcaster they share.
  datatype World = World(pollers: seq<Poller>, log: seq<Entry>)

  datatype Step =
    | Start                                      // startSessionsDiffPoller, with its first tick
    | Stop(generation: nat)                      // the returned thunk
    | TickStarts(generation: nat)                // the interval fires
    | TickFails(generation: nat)                 // discovery or refinedStatusFor throws
    | TickCompletes(generation: nat, next: StatusMap)

  function Tagged(generation: nat, updates: seq<Update>): seq<Entry> {
    seq(|updates|, i requires 0 <= i < |updates| => Entry(generation, updates[i]))
  }

  // What one poller becomes; a step that cannot happen changes nothing.
  const STARTED := Poller(false, map[], 1)

  function Stopped(p: Poller): Poller { p.(stopped := true) }

  function Ticking(p: Poller): Poller { if p.stopped then p else p.(inflight := p.inflight + 1) }

  function Failed(p: Poller): Poller { if p.inflight == 0 then p else p.(inflight := p.inflight - 1) }

  function Completed(p: Poller, next: StatusMap): Poller {
    if p.inflight == 0 then p else p.(inflight := p.inflight - 1, prev := Contents(next))
  }

  function Do(w: World, step: Step): World {
    match step
    case Start => w.(pollers := w.pollers + [STARTED])
    case Stop(g) => if g < |w.pollers| then w.(pollers := w.pollers[g := Stopped(w.pollers[g])]) else w
    case TickStarts(g) => if g < |w.pollers| then w.(pollers := w.pollers[g := Ticking(w.pollers[g])]) else w
    case TickFails(g) => if g < |w.pollers| then w.(pollers := w.pollers[g := Failed(w.pollers[g])]) else w
    case TickCompletes(g, next) =>
      if g < |w.pollers| && w.pollers[g].inflight > 0
      then World(w.pollers[g := Completed(w.pollers[g], next)], w.log + Tagged(g, Diff(w.pollers[g].prev, next)))
      else w
  }

  function Run(w: World, steps: seq<Step>): World {
    if steps == [] then w else Do(Run(w, steps[..|steps| - 1]), steps[|steps| - 1])
  }

  const EMPTY := World([], [])

  // The events of one generation, and of all of them.
  function Own(log: seq<Entry>, g: nat): seq<Update> {
    if log == [] then [] else
    var last := log[|log| - 1];
    Own(log[..|log| - 1], g) + if last.generation == g then [last.update] else []
  }

  function Updates(log: seq<Entry>): (r: seq<Update>)
    ensures |r| == |log|
  {
    seq(|log|, i requires 0 <= i < |log| => log[i].update)
  }

  lemma {:induction false} OwnAppend(log: seq<Entry>, g: nat, h: nat, updates: seq<Update>)
    ensures Own(log + Tagged(g, updates), h) == if g == h then Own(log, h) + updates else Own(log, h)
  {
    if updates == [] {
      assert log + Tagged(g, updates) == log;
    } else {
      var init, last := updates[..|updates| - 1], updates[|updates| - 1];
      OwnAppend(log, g, h, init);
      var whole := log + Tagged(g, updates);
      assert whole[..|whole| - 1] == log + Tagged(g, init);
      assert init + [last] == updates;
    }
  }

  lemma UpdatesAppend(log: seq<Entry>, g: nat, updates: seq<Update>)
    ensures Updates(log + Tagged(g, updates)) == Updates(log) + updates
  {
  }

  // Whatever the interleaving, folding one generation's events reproduces that poller's map,
  // and each of its events reports a real change from what the fold showed.
  ghost predicate GenerationFaithful(w: World, g: nat)
    requires g < |w.pollers|
  {
    Mirrors(Fold(Own(w.log, g)), w.pollers[g].prev) && WellReported(Own(w.log, g))
  }

  // Generations not yet started own no events.
  ghost predicate OwnersStarted(w: World) {
    forall h :: h >= |w.pollers| ==> Own(w.log, h) == []
  }

  lemma {:induction false} EveryGenerationIsFaithful(steps: seq<Step>)
    ensures var w := Run(EMPTY, steps);
            OwnersStarted(w) && forall g :: 0 <= g < |w.pollers| ==> GenerationFaithful(w, g)
  {
    if steps != [] {
      EveryGenerationIsFaithful(steps[..|steps| - 1]);
      var w, step := Run(EMPTY, steps[..|steps| - 1]), steps[|steps| - 1];
      if step.TickCompletes? && step.generation < |w.pollers| && w.pollers[step.generation].inflight > 0 {
        CompletionKeepsFaithful(w, step.generation, step.next);
      } else {
        var v := Do(w, step);
        assert v.log == w.log;
        forall g: nat | g < |v.pollers| ensures GenerationFaithful(v, g) {
          if g < |w.pollers| { assert GenerationFaithful(w, g); }
        }
      }
    }
  }

  lemma CompletionKeepsFaithful(w: World, g: nat, next: StatusMap)
    requires OwnersStarted(w) && forall h :: 0 <= h < |w.pollers| ==> GenerationFaithful(w, h)
    requires g < |w.pollers| && w.pollers[g].inflight > 0
    ensures var v := Do(w, TickCompletes(g, next));
            OwnersStarted(v) && forall h :: 0 <= h < |v.pollers| ==> GenerationFaithful(v, h)
  {
    var updates := Diff(w.pollers[g].prev, next);
    var v := Do(w, TickCompletes(g, next));
    forall h: nat ensures h >= |v.pollers| ==> Own(v.log, h) == [] {
      OwnAppend(w.log, g, h, updates);
    }
    forall h: nat | h < |v.pollers| ensures GenerationFaithful(v, h) {
      OwnAppend(w.log, g, h, updates);
      assert GenerationFaithful(w, h);
      if h == g { TickAdvancesMirror(Own(w.log, g), w.pollers[g].prev, next); }
    }
  }

  // A stopped poller starts no tick; once its last tick in flight is over it is silent for good.
  lemma {:induction false} StoppedPollerFallsSilent(w: World, steps: seq<Step>, g: nat)
    requires g < |w.pollers| && w.pollers[g].stopped
    ensures var v := Run(w, steps);
            && g < |v.pollers| && v.pollers[g].stopped && v.pollers[g].inflight <= w.pollers[g].inflight
            && (w.pollers[g].inflight == 0 ==> v.pollers[g] == w.pollers[g] && Own(v.log, g) == Own(w.log, g))
  {
    if steps != [] {
      StoppedPollerFallsSilent(w, steps[..|steps| - 1], g);
      var v, step := Run(w, steps[..|steps| - 1]), steps[|steps| - 1];
      if step.TickCompletes? && step.generation < |v.pollers| && v.pollers[step.generation].inflight > 0 {
        OwnAppend(v.log, step.generation, g, Diff(v.pollers[step.generation].prev, step.next));
      }
    }
  }

  // -------------------------------------------------------- the shared stream

  // A client sees one stream. It mirrors the newest poller as long as no older poller
  // completes a late tick.
  ghost predicate StreamFaithful(w: World) {
    w.pollers != [] ==>
      Mirrors(Fold(Updates(w.log)), w.pollers[|w.pollers| - 1].prev)
  }

  ghost predicate IsLate(w: World, step: Step) {
    step.TickCompletes? && step.generation < |w.pollers| - 1 && w.pollers[step.generation].inflight > 0
  }

  ghost predicate NoLateTicks(steps: seq<Step>) {
    forall i :: 0 <= i < |steps| ==> !IsLate(Run(EMPTY, steps[..i]), steps[i])
  }

  lemma {:induction false} StreamMirrorsNewestPoller(steps: seq<Step>)
    requires NoLateTicks(steps)
    ensures StreamFaithful(Run(EMPTY, steps)) && WellReported(Updates(Run(EMPTY, steps).log))
  {
    if steps != [] {
      var init, step := steps[..|steps| - 1], steps[|steps| - 1];
      assert forall i :: 0 <= i < |init| ==> steps[..i] == init[..i];
      StreamMirrorsNewestPoller(init);
      assert steps[..|init|] == init;
      StepKeepsStream(Run(EMPTY, init), step);
    }
  }

  lemma StepKeepsStream(w: World, step: Step)
    requires StreamFaithful(w) && WellReported(Updates(w.log)) && !IsLate(w, step)
    ensures StreamFaithful(Do(w, step)) && WellReported(Updates(Do(w, step).log))
  {
    if step.TickCompletes? && step.generation < |w.pollers| && w.pollers[step.generation].inflight > 0 {
      var p := w.pollers[step.generation];
      UpdatesAppend(w.log, step.generation, Diff(p.prev, step.next));
      TickAdvancesMirror(Updates(w.log), p.prev, step.next);
    } else {
      assert Do(w, step).log == w.log;
    }
  }

  // When is a late tick harmless? Exactly when it changes no pid the newest poller knows to
  // a status other than the newest poller's.
  ghost predicate Harmless(late: map<int, RefinedStatus>, next: StatusMap, newest: map<int, RefinedStatus>) {
    forall i :: 0 <= i < |next| && Get(late, next[i].0) != Some(next[i].1) && next[i].0 in newest ==>
      newest[next[i].0] == next[i].1
  }

  lemma LateTickIsHarmlessExactlyWhen(w: World, g: nat, next: StatusMap)
    requires StreamFaithful(w) && IsLate(w, TickCompletes(g, next))
    ensures StreamFaithful(Do(w, TickCompletes(g, next))) <==>
            Harmless(w.pollers[g].prev, next, w.pollers[|w.pollers| - 1].prev)
  {
    var log, late, newest := Updates(w.log), w.pollers[g].prev, w.pollers[|w.pollers| - 1].prev;
    UpdatesAppend(w.log, g, Diff(late, next));
    var v := Do(w, TickCompletes(g, next));
    assert Updates(v.log) == log + Diff(late, next) && v.pollers[|v.pollers| - 1].prev == newest;
    MirrorAfterDiff(log, late, next, newest);
  }

  // The same for any mirror and any other poller's map.
  lemma MirrorAfterDiff(log: seq<Update>, late: map<int, RefinedStatus>, next: StatusMap,
      newest: map<int, RefinedStatus>)
    requires Mirrors(Fold(log), newest)
    ensures Mirrors(Fold(log + Diff(late, next)), newest) <==> Harmless(late, next, newest)
  {
    var after := Fold(log + Diff(late, next));
    ContentsPids(next);
    if i :| && 0 <= i < |next|
            && Get(late, next[i].0) != Some(next[i].1)
            && next[i].0 in newest && newest[next[i].0] != next[i].1 {
      FoldOfDiff(log, late, next, next[i].0);
      assert Get(after, next[i].0) == Some(next[i].1);
    } else {
      forall pid | pid in newest ensures Get(after, pid) == Some(newest[pid]) {
        FoldOfDiff(log, late, next, pid);
      }
    }
  }

  ghost predicate HarmlessStep(w: World, step: Step) {
    IsLate(w, step) ==> Harmless(w.pollers[step.generation].prev, step.next, w.pollers[|w.pollers| - 1].prev)
  }

  // Any step at all keeps a faithful stream faithful exactly when it is no harmful late tick.
  lemma StepKeepsStreamExactlyWhen(w: World, step: Step)
    requires StreamFaithful(w)
    ensures StreamFaithful(Do(w, step)) <==> HarmlessStep(w, step)
  {
    if IsLate(w, step) {
      LateTickIsHarmlessExactlyWhen(w, step.generation, step.next);
    } else if step.TickCompletes? && step.generation < |w.pollers| && w.pollers[step.generation].inflight > 0 {
      var prev := w.pollers[step.generation].prev;
      UpdatesAppend(w.log, step.generation, Diff(prev, step.next));
      DiffMirrorsNext(Updates(w.log), prev, step.next);
    } else {
      assert Do(w, step).log == w.log;
    }
  }

  lemma DiffMirrorsNext(log: seq<Update>, prev: map<int, RefinedStatus>, next: StatusMap)
    requires Mirrors(Fold(log), prev)
    ensures Mirrors(Fold(log + Diff(prev, next)), Contents(next))
  {
    forall pid | pid in Contents(next) ensures Get(Fold(log + Diff(prev, next)), pid) == Some(Contents(next)[pid]) {
      FoldOfDiff(log, prev, next, pid);
    }
  }

  ghost predicate FaithfulAfter(steps: seq<Step>) { StreamFaithful(Run(EMPTY, steps)) }

  // The last step was no harmful late tick at its moment.
  ghost predicate HarmlessEnd(steps: seq<Step>) {
    steps != [] ==> HarmlessStep(Run(EMPTY, steps[..|steps| - 1]), steps[|steps| - 1])
  }

  // Over a whole run: a client from the start mirrors the newest poller at every moment
  // exactly when every late tick in the run is harmless at its own moment.
  lemma {:induction false} StreamIsFaithfulExactlyWhen(steps: seq<Step>)
    ensures AtEvery(FaithfulAfter, steps) <==> AtEvery(HarmlessEnd, steps)
  {
    if steps == [] {
      assert FaithfulAfter([]) && HarmlessEnd([]);
    } else {
      var init, step := steps[..|steps| - 1], steps[|steps| - 1];
      assert steps == init + [step];
      StreamIsFaithfulExactlyWhen(init);
      AtEveryNext(FaithfulAfter, init, step);
      AtEveryNext(HarmlessEnd, init, step);
      if AtEvery(FaithfulAfter, init) {
        AtEveryEnd(FaithfulAfter, init);
        StepKeepsStreamExactlyWhen(Run(EMPTY, init), step);
      }
    }
  }

  // The pid is one whose status the tick reports.
  ghost predicate Reports(prev: map<int, RefinedStatus>, next: map<int, RefinedStatus>, pid: int) {
    pid in next && Get(prev, pid) != Some(next[pid])
  }

  lemma FoldOfOne(log: seq<Update>, updates: seq<Update>, prev: map<int, RefinedStatus>, p: int,
      status: RefinedStatus, pid: int)
    ensures Get(Fold(log + (updates + Change(prev, p, status))), pid) ==
            if p == pid && Get(prev, p) != Some(status) then Some(status) else Get(Fold(log + updates), pid)
  {
    if Get(prev, p) != Some(status) {
      assert log + (updates + Change(prev, p, status)) == log + updates + [Update(p, status, Get(prev, p))];
      FoldAppend(log + updates, Update(p, status, Get(prev, p)));
    } else {
      assert log + (updates + Change(prev, p, status)) == log + updates;
    }
  }

  // What a tick's events do to any mirror at all.
  lemma {:induction false} FoldOfDiff(log: seq<Update>, prev: map<int, RefinedStatus>,
      next: seq<(int, RefinedStatus)>, pid: int)
    requires DistinctPids(next)
    ensures Get(Fold(log + Diff(prev, next)), pid) ==
            if Reports(prev, Contents(next), pid) then Get(Contents(next), pid) else Get(Fold(log), pid)
  {
    if next == [] {
      assert log + Diff(prev, next) == log;
    } else {
      var init := next[..|next| - 1];
      var (p, status) := next[|next| - 1];
      FoldOfDiff(log, prev, init, pid);
      FoldOfOne(log, Diff(prev, init), prev, p, status, pid);
      NewPidIsLast(next);
      assert Contents(next) == Contents(init)[p := status];
    }
  }

  lemma NewPidIsLast(next: seq<(int, RefinedStatus)>)
    requires next != [] && DistinctPids(next)
    ensures next[|next| - 1].0 !in Contents(next[..|next| - 1])
  {
    ContentsPids(next[..|next| - 1]);
  }

  // ------------------------------------------- `previous` in the shared stream

  // Where a tick reports a change from a status it knew, that is what the stream showed.
  ghost predicate Truthful(log: seq<Update>, prev: map<int, RefinedStatus>, next: seq<(int, RefinedStatus)>) {
    forall i :: 0 <= i < |next| ==> TruthfulEntry(log, prev, next[i].0, next[i].1)
  }

  ghost predicate TruthfulEntry(log: seq<Update>, prev: map<int, RefinedStatus>, pid: int, status: RefinedStatus) {
    pid in prev && prev[pid] != status ==> Get(Fold(log), pid) == Some(prev[pid])
  }

  lemma ReportedNext(log: seq<Update>, u: Update)
    ensures WellReported(log + [u]) <==>
      WellReported(log) && u.previous != Some(u.status) && (u.previous == None || Get(Fold(log), u.pid) == u.previous)
  {
    var more := log + [u];
    assert more[..|log|] == log;
    forall i | 0 <= i < |log| ensures ReportedAt(more, i) <==> ReportedAt(log, i) {
      assert more[..i] == log[..i];
    }
    assert ReportedAt(more, |log|) <==>
        u.previous != Some(u.status) && (u.previous == None || Get(Fold(log), u.pid) == u.previous);
  }

  // A tick's events are well reported after any log exactly when it is truthful.
  lemma {:induction false} DiffReportedExactlyWhen(log: seq<Update>, prev: map<int, RefinedStatus>,
      next: seq<(int, RefinedStatus)>)
    requires DistinctPids(next) && WellReported(log)
    ensures WellReported(log + Diff(prev, next)) <==> Truthful(log, prev, next)
  {
    if next == [] {
      assert log + Diff(prev, next) == log;
    } else {
      var init := next[..|next| - 1];
      var (pid, status) := next[|next| - 1];
      DiffReportedExactlyWhen(log, prev, init);
      assert Truthful(log, prev, next) <==> Truthful(log, prev, init) && TruthfulEntry(log, prev, pid, status) by {
        assert next == init + [next[|next| - 1]];
      }
      NewPidIsLast(next);
      FoldOfDiff(log, prev, init, pid);
      EntryReported(log, Diff(prev, init), prev, pid, status);
    }
  }

  lemma EntryReported(log: seq<Update>, sofar: seq<Update>, prev: map<int, RefinedStatus>, pid: int,
      status: RefinedStatus)
    requires Get(Fold(log + sofar), pid) == Get(Fold(log), pid)
    ensures WellReported(log + (sofar + Change(prev, pid, status))) <==>
            WellReported(log + sofar) && TruthfulEntry(log, prev, pid, status)
  {
    if Get(prev, pid) != Some(status) {
      var u := Update(pid, status, Get(prev, pid));
      assert log + (sofar + Change(prev, pid, status)) == log + sofar + [u];
      ReportedNext(log + sofar, u);
    } else {
      assert log + (sofar + Change(prev, pid, status)) == log + sofar;
    }
  }

  ghost predicate TruthfulStep(w: World, step: Step) {
    step.TickCompletes? && step.generation < |w.pollers| && w.pollers[step.generation].inflight > 0 ==>
      Truthful(Updates(w.log), w.pollers[step.generation].prev, step.next)
  }

  lemma StepReportsExactlyWhen(w: World, step: Step)
    requires WellReported(Updates(w.log))
    ensures WellReported(Updates(Do(w, step).log)) <==> TruthfulStep(w, step)
  {
    if step.TickCompletes? && step.generation < |w.pollers| && w.pollers[step.generation].inflight > 0 {
      var prev := w.pollers[step.generation].prev;
      UpdatesAppend(w.log, step.generation, Diff(prev, step.next));
      DiffReportedExactlyWhen(Updates(w.log), prev, step.next);
    } else {
      assert Do(w, step).log == w.log;
    }
  }

  ghost predicate ReportedAfter(steps: seq<Step>) { WellReported(Updates(Run(EMPTY, steps).log)) }

  ghost predicate TruthfulEnd(steps: seq<Step>) {
    steps != [] ==> TruthfulStep(Run(EMPTY, steps[..|steps| - 1]), steps[|steps| - 1])
  }

  // Over a whole run: every event of the shared stream reports a real change from what a
  // client from the start shows exactly when every completed tick was truthful at its moment.
  lemma {:induction false} StreamIsWellReportedExactlyWhen(steps: seq<Step>)
    ensures AtEvery(ReportedAfter, steps) <==> AtEvery(TruthfulEnd, steps)
  {
    if steps == [] {
      assert ReportedAfter(steps) && TruthfulEnd(steps);
    } else {
      var init, step := steps[..|steps| - 1], steps[|steps| - 1];
      assert steps == init + [step];
      StreamIsWellReportedExactlyWhen(init);
      AtEveryNext(ReportedAfter, init, step);
      AtEveryNext(TruthfulEnd, init, step);
      if AtEvery(ReportedAfter, init) {
        AtEveryEnd(ReportedAfter, init);
        StepReportsExactlyWhen(Run(EMPTY, init), step);
      }
    }
  }

  // The last client leaves while a tick is in flight, another connects, the old tick lands
  // last: every client now shows session 7 idle, and no later tick that sees it working
  // will ever correct that.
  lemma {:induction false} LateTickMisleadsForever(repeats: nat)
    ensures Misled(Run(EMPTY, LateTickRun(repeats)))
  {
    if repeats == 0 {
      LateTickMisleads();
    } else {
      LateTickMisleadsForever(repeats - 1);
      MisledStays(EMPTY, LateTickRun(repeats - 1), TickStarts(1), TickCompletes(1, [(7, Working)]));
    }
  }

  lemma MisledStays(w: World, steps: seq<Step>, starts: Step, completes: Step)
    requires Misled(Run(w, steps)) && starts == TickStarts(1) && completes == TickCompletes(1, [(7, Working)])
    ensures Misled(Run(w, steps + [starts] + [completes]))
  {
    RunStep(w, steps, starts);
    RunStep(w, steps + [starts], completes);
    SteadyTickEmitsNothing(Run(w, steps));
  }

  // A connected client shows idle, the running poller has working.
  ghost predicate Misled(w: World) {
    |w.pollers| == 2 && !w.pollers[1].stopped && w.pollers[1].prev == map[7 := Working]
        && Get(Fold(Updates(w.log)), 7) == Some(Idle)
  }

  function LateTickRun(repeats: nat): seq<Step> {
    if repeats == 0
    then [Start, Stop(0), Start, TickCompletes(1, [(7, Working)]), TickCompletes(0, [(7, Idle)])]
    else LateTickRun(repeats - 1) + [TickStarts(1)] + [TickCompletes(1, [(7, Working)])]
  }

  lemma RunMore(w: World, steps: seq<Step>, more: seq<Step>)
    requires |more| <= 1
    ensures Run(w, steps + more) == if more == [] then Run(w, steps) else Do(Run(w, steps), more[0])
  {
    if more == [] {
      assert steps + more == steps;
    } else {
      RunStep(w, steps, more[0]);
      assert more == [more[0]];
    }
  }

  lemma RunStep(w: World, steps: seq<Step>, step: Step)
    ensures Run(w, steps + [step]) == Do(Run(w, steps), step)
  {
    assert (steps + [step])[..|steps|] == steps;
  }

  // The old poller is stopped, the new one runs, and both have their first tick in flight.
  const HANDOVER := World([Poller(true, map[], 1), Poller(false, map[], 1)], [])

  lemma LateTickMisleads()
    ensures Misled(Run(EMPTY, LateTickRun(0)))
  {
    var s3: seq<Step> := [Start, Stop(0), Start];
    var s4 := s3 + [TickCompletes(1, [(7, Working)])];
    HandoverReached();
    RunStep(EMPTY, s3, TickCompletes(1, [(7, Working)]));
    RunStep(EMPTY, s4, TickCompletes(0, [(7, Idle)]));
    assert LateTickRun(0) == s4 + [TickCompletes(0, [(7, Idle)])];
    HandoverMisleads();
  }

  lemma HandoverReached()
    ensures Run(EMPTY, [Start, Stop(0), Start]) == HANDOVER
  {
    var s1: seq<Step> := [Start];
    var s2 := s1 + [Stop(0)];
    RunStep(EMPTY, [], Start);
    assert [] + [Start] == s1;
    RunStep(EMPTY, s1, Stop(0));
    RunStep(EMPTY, s2, Start);
    assert s2 + [Start] == [Start, Stop(0), Start];
  }

  lemma HandoverMisleads()
    ensures Misled(Do(Do(HANDOVER, TickCompletes(1, [(7, Working)])), TickCompletes(0, [(7, Idle)])))
  {
    DiffOfOne(7, Working);
    var w := Do(HANDOVER, TickCompletes(1, [(7, Working)]));
    assert w.pollers == [Poller(true, map[], 1), Poller(false, map[7 := Working], 0)];
    DiffOfOne(7, Idle);
    UpdatesAppend(w.log, 0, [Update(7, Idle, None)]);
    FoldAppend(Updates(w.log), Update(7, Idle, None));
  }

  lemma SteadyTickEmitsNothing(w: World)
    requires Misled(w)
    ensures Misled(Do(Do(w, TickStarts(1)), TickCompletes(1, [(7, Working)])))
  {
    var working: StatusMap := [(7, Working)];
    assert Diff(w.pollers[1].prev, working) == [] && Contents(working) == map[7 := Working] by {
      assert working[..0] == [];
    }
    assert w.log + Tagged(1, []) == w.log;
  }

  lemma DiffOfOne(pid: int, status: RefinedStatus)
    ensures Diff(map[], [(pid, status)]) == [Update(pid, status, None)]
    ensures Contents([(pid, status)]) == map[pid := status]
  {
    assert [(pid, status)][..0] == [];
  }

  // ------------------------------------------------------------- late clients

  // Some event among these is about the pid.
  ghost predicate Mentions(updates: seq<Update>, pid: int) {
    exists i :: 0 <= i < |updates| && updates[i].pid == pid
  }

  lemma MentionsNext(updates: seq<Update>, u: Update, pid: int)
    ensures Mentions(updates + [u], pid) <==> Mentions(updates, pid) || u.pid == pid
  {
    assert (updates + [u])[|updates|] == u;
    if i :| 0 <= i < |updates| && updates[i].pid == pid { assert (updates + [u])[i].pid == pid; }
  }

  lemma {:induction false} FoldShowsMentioned(updates: seq<Update>, pid: int)
    ensures pid in Fold(updates) <==> Mentions(updates, pid)
  {
    if updates != [] {
      var init, last := updates[..|updates| - 1], updates[|updates| - 1];
      FoldShowsMentioned(init, pid);
      MentionsNext(init, last, pid);
      assert init + [last] == updates;
    }
  }

  // A client that connects in the middle of the stream shows exactly the pids with an event
  // since, and for each of them what a client connected from the start shows.
  lemma {:induction false} LateClientAgrees(log: seq<Update>, from: nat)
    requires from <= |log|
    ensures forall pid :: pid in Fold(log[from..]) <==> Mentions(log[from..], pid)
    ensures forall pid :: pid in Fold(log[from..]) ==> Get(Fold(log), pid) == Some(Fold(log[from..])[pid])
  {
    forall pid ensures pid in Fold(log[from..]) <==> Mentions(log[from..], pid) {
      FoldShowsMentioned(log[from..], pid);
    }
    if from < |log| {
      LateClientAgrees(log[..|log| - 1], from);
      assert log[from..][..|log| - from - 1] == log[..|log| - 1][from..];
    } else {
      assert log[from..] == [];
    }
  }

  // Whatever is shown of the poller's sessions is shown as the poller has it.
  ghost predicate AgreesWith(shown: map<int, RefinedStatus>, prev: map<int, RefinedStatus>) {
    forall pid :: pid in prev && pid in shown ==> shown[pid] == prev[pid]
  }

  // The client that has seen the events from position `from` on, and the newest poller.
  ghost predicate AgreesSince(w: World, from: nat) {
    from <= |w.log| && (w.pollers != [] ==> AgreesWith(Fold(Updates(w.log)[from..]), w.pollers[|w.pollers| - 1].prev))
  }

  lemma UpdatesSince(log: seq<Entry>, from: nat, g: nat, updates: seq<Update>)
    requires from <= |log|
    ensures Updates(log + Tagged(g, updates))[from..] == Updates(log)[from..] + updates
  {
    UpdatesAppend(log, g, updates);
  }

  // What a tick of the newest poller reports, or leaves out as unchanged, agrees with it.
  lemma OwnTickAgrees(seen: seq<Update>, prev: map<int, RefinedStatus>, next: StatusMap)
    requires AgreesWith(Fold(seen), prev)
    ensures AgreesWith(Fold(seen + Diff(prev, next)), Contents(next))
  {
    var after := Fold(seen + Diff(prev, next));
    forall pid | pid in Contents(next) && pid in after ensures after[pid] == Contents(next)[pid] {
      FoldOfDiff(seen, prev, next, pid);
    }
  }

  lemma OtherTickAgrees(seen: seq<Update>, late: map<int, RefinedStatus>, next: StatusMap,
      newest: map<int, RefinedStatus>)
    requires AgreesWith(Fold(seen), newest)
    ensures AgreesWith(Fold(seen + Diff(late, next)), newest) <==> Harmless(late, next, newest)
  {
    var after := Fold(seen + Diff(late, next));
    ContentsPids(next);
    if i :| && 0 <= i < |next|
            && Get(late, next[i].0) != Some(next[i].1)
            && next[i].0 in newest && newest[next[i].0] != next[i].1 {
      FoldOfDiff(seen, late, next, next[i].0);
      assert Get(after, next[i].0) == Some(next[i].1);
    } else {
      forall pid | pid in newest && pid in after ensures after[pid] == newest[pid] {
        FoldOfDiff(seen, late, next, pid);
      }
    }
  }

  // A client that shows nothing wrong goes on showing nothing wrong exactly when the step is
  // no harmful late tick, wherever it joined.
  lemma StepKeepsClientExactlyWhen(w: World, step: Step, from: nat)
    requires AgreesSince(w, from)
    ensures AgreesSince(Do(w, step), from) <==> HarmlessStep(w, step)
  {
    if IsLate(w, step) {
      LateTickKeepsClient(w, step.generation, step.next, from);
    } else if step.TickCompletes? && step.generation < |w.pollers| && w.pollers[step.generation].inflight > 0 {
      OwnTickKeepsClient(w, step.next, from);
    } else {
      assert Do(w, step).log == w.log;
    }
  }

  lemma LateTickKeepsClient(w: World, g: nat, next: StatusMap, from: nat)
    requires AgreesSince(w, from) && IsLate(w, TickCompletes(g, next))
    ensures AgreesSince(Do(w, TickCompletes(g, next)), from) <==>
            Harmless(w.pollers[g].prev, next, w.pollers[|w.pollers| - 1].prev)
  {
    UpdatesSince(w.log, from, g, Diff(w.pollers[g].prev, next));
    OtherTickAgrees(Updates(w.log)[from..], w.pollers[g].prev, next, w.pollers[|w.pollers| - 1].prev);
  }

  lemma OwnTickKeepsClient(w: World, next: StatusMap, from: nat)
    requires AgreesSince(w, from) && w.pollers != [] && w.pollers[|w.pollers| - 1].inflight > 0
    ensures AgreesSince(Do(w, TickCompletes(|w.pollers| - 1, next)), from)
  {
    UpdatesSince(w.log, from, |w.pollers| - 1, Diff(w.pollers[|w.pollers| - 1].prev, next));
    OwnTickAgrees(Updates(w.log)[from..], w.pollers[|w.pollers| - 1].prev, next);
  }
}
