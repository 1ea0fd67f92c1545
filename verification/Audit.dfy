// src/tmux/audit.ts: appends queued on a promise chain, each a small job of file operations
// that may fail, with rotation of a file that has grown too large.
//
// An append of one line is atomic and the directory is fixed. Text is a string of bytes.
module Audit {
  import opened Common

  const ROTATE_BYTES := 10 * 1024 * 1024

  // Where a job's next file operation is. A Queued job has not run at all.
  datatype Pc = Queued | AtStat | AtRename | AtAppend | Settled(written: bool)

  datatype Job = Job(line: string, pc: Pc)

  datatype Archive = Archive(stamp: nat, content: string)

  // The queue in call order, audit.jsonl if it exists, and the archives in rotation order.
  datatype State = State(jobs: seq<Job>, file: Option<string>, archives: seq<Archive>)

  datatype Event =
    | Call(line: string)                            // appendAudit
    | Step(job: nat, ok: bool, stamp: nat)          // a job's pending operation returns; Date.now() if it renames

  // .then runs a job's callback once the promise before it has settled, and .catch makes it
  // settle whatever happened.
  predicate Enabled(s: State, k: nat) {
    k < |s.jobs| && !s.jobs[k].pc.Settled? && (k == 0 || s.jobs[k - 1].pc.Settled?)
  }

  function Content(s: State): string {
    if s.file == None then "" else s.file.value
  }

  // fs.rename onto an archive of the same name replaces it.
  function Renamed(archives: seq<Archive>, stamp: nat, content: string): seq<Archive> {
    Without(archives, stamp) + [Archive(stamp, content)]
  }

  function Without(archives: seq<Archive>, stamp: nat): seq<Archive> {
    if archives == [] then [] else
    var last := archives[|archives| - 1];
    Without(archives[..|archives| - 1], stamp) + if last.stamp == stamp then [] else [last]
  }

  function At(s: State, k: nat, pc: Pc): State
    requires k < |s.jobs|
  {
    s.(jobs := s.jobs[k := s.jobs[k].(pc := pc)])
  }

  function StepOf(s: State, k: nat, ok: bool, stamp: nat): State
    requires k < |s.jobs|
  {
    match s.jobs[k].pc
    case Queued => At(s, k, if ok then AtStat else Settled(false))                       // mkdir
    case AtStat => At(s, k, if ok && s.file != None && |s.file.value| > ROTATE_BYTES then AtRename else AtAppend)
    case AtRename =>
      if ok && s.file != None
      then At(s, k, AtAppend).(file := None, archives := Renamed(s.archives, stamp, s.file.value))
      else At(s, k, AtAppend)
    case AtAppend =>
      if ok then At(s, k, Settled(true)).(file := Some(Content(s) + s.jobs[k].line)) else At(s, k, Settled(false))
    case Settled(_) => s
  }

  // An operation that is not pending cannot return.
  function Do(s: State, e: Event): State {
    match e
    case Call(line) => s.(jobs := s.jobs + [Job(line, Queued)])
    case Step(k, ok, stamp) => if Enabled(s, k) then StepOf(s, k, ok, stamp) else s
  }

  function Run(s: State, events: seq<Event>): State {
    if events == [] then s else Do(Run(s, events[..|events| - 1]), events[|events| - 1])
  }

  // A process that has just started, over the file an earlier one left.
  predicate Fresh(s: State) { s.jobs == [] && s.archives == [] }

  // ---------------------------------------------------- jobs never interleave

  // All jobs before the running one have settled, all after it have not started.
  ghost predicate OneAtATime(jobs: seq<Job>) {
    forall i, j :: 0 <= i < j < |jobs| && !jobs[i].pc.Settled? ==> jobs[j].pc == Queued
  }

  // What is known between operations: a job about to rename has seen an oversized file, and
  // every archive was oversized.
  ghost predicate Inv(s: State) {
    && OneAtATime(s.jobs)
    && (forall k :: 0 <= k < |s.jobs| && s.jobs[k].pc == AtRename ==> s.file != None && |s.file.value| > ROTATE_BYTES)
    && (forall a :: 0 <= a < |s.archives| ==> |s.archives[a].content| > ROTATE_BYTES)
  }

  lemma {:induction false} WithoutKeepsOversized(archives: seq<Archive>, stamp: nat)
    requires forall a :: 0 <= a < |archives| ==> |archives[a].content| > ROTATE_BYTES
    ensures forall a :: 0 <= a < |Without(archives, stamp)| ==> |Without(archives, stamp)[a].content| > ROTATE_BYTES
  {
    if archives != [] { WithoutKeepsOversized(archives[..|archives| - 1], stamp); }
  }

  // In an enabled step every other unsettled job is still queued.
  lemma EnabledIsTheRunningJob(s: State, k: nat)
    requires OneAtATime(s.jobs) && Enabled(s, k)
    ensures forall i :: 0 <= i < k ==> s.jobs[i].pc.Settled?
    ensures forall j :: k < j < |s.jobs| ==> s.jobs[j].pc == Queued
  {
    forall i | 0 <= i < k ensures s.jobs[i].pc.Settled? {
      assert s.jobs[k - 1].pc.Settled?;
    }
  }

  lemma StepKeepsInv(s: State, e: Event)
    requires Inv(s)
    ensures Inv(Do(s, e))
  {
    match e
    case Call(line) =>
    case Step(k, ok, stamp) =>
      if Enabled(s, k) {
        EnabledIsTheRunningJob(s, k);
        WithoutKeepsOversized(s.archives, stamp);
      }
  }

  lemma {:induction false} JobsNeverInterleave(s: State, events: seq<Event>)
    requires Fresh(s)
    ensures Inv(Run(s, events))
  {
    if events != [] {
      JobsNeverInterleave(s, events[..|events| - 1]);
      StepKeepsInv(Run(s, events[..|events| - 1]), events[|events| - 1]);
    }
  }

  // ------------------------------------------------------- nothing is lost

  function Archived(archives: seq<Archive>): string {
    if archives == [] then "" else Archived(archives[..|archives| - 1]) + archives[|archives| - 1].content
  }

  // The lines of the successful appends, in call order.
  function Written(jobs: seq<Job>): string {
    if jobs == [] then "" else
    var last := jobs[|jobs| - 1];
    Written(jobs[..|jobs| - 1]) + if last.pc == Settled(true) then last.line else ""
  }

  // Archives in rotation order, then the current file.
  function AllText(s: State): string {
    Archived(s.archives) + Content(s)
  }

  ghost predicate RenamesOnto(s: State, e: Event) {
    && e.Step? && Enabled(s, e.job) && s.jobs[e.job].pc == AtRename && e.ok
    && exists a :: 0 <= a < |s.archives| && s.archives[a].stamp == e.stamp
  }

  // The jobs behind the running one have written nothing.
  lemma {:induction false} WrittenBefore(jobs: seq<Job>, k: nat)
    requires k <= |jobs| && forall j :: k <= j < |jobs| ==> jobs[j].pc != Settled(true)
    ensures Written(jobs) == Written(jobs[..k])
  {
    if k < |jobs| {
      WrittenBefore(jobs[..|jobs| - 1], k);
      assert jobs[..|jobs| - 1][..k] == jobs[..k];
    } else {
      assert jobs[..k] == jobs;
    }
  }

  lemma WrittenAfterStep(s: State, k: nat, pc: Pc)
    requires OneAtATime(s.jobs) && Enabled(s, k)
    ensures Written(At(s, k, pc).jobs) ==
            if pc == Settled(true) then Written(s.jobs) + s.jobs[k].line else Written(s.jobs)
  {
    EnabledIsTheRunningJob(s, k);
    var before, after := s.jobs, At(s, k, pc).jobs;
    WrittenBefore(before, k);
    WrittenBefore(after, k + 1);
    assert after[..k + 1][..k] == before[..k];
  }

  lemma {:induction false} WithoutFresh(archives: seq<Archive>, stamp: nat)
    requires forall a :: 0 <= a < |archives| ==> archives[a].stamp != stamp
    ensures Without(archives, stamp) == archives
  {
    if archives != [] {
      WithoutFresh(archives[..|archives| - 1], stamp);
      assert archives == archives[..|archives| - 1] + [archives[|archives| - 1]];
    }
  }

  lemma RenameMovesText(archives: seq<Archive>, stamp: nat, content: string)
    requires forall a :: 0 <= a < |archives| ==> archives[a].stamp != stamp
    ensures Archived(Renamed(archives, stamp, content)) == Archived(archives) + content
  {
    WithoutFresh(archives, stamp);
    assert (archives + [Archive(stamp, content)])[..|archives|] == archives;
  }

  // One event appends to the recorded text exactly what it makes a job have written.
  lemma StepConserves(s: State, e: Event, initial: string)
    requires Inv(s) && !RenamesOnto(s, e)
    requires AllText(s) == initial + Written(s.jobs)
    ensures AllText(Do(s, e)) == initial + Written(Do(s, e).jobs)
  {
    match e
    case Call(line) =>
      assert Do(s, e).jobs[..|s.jobs|] == s.jobs;
    case Step(k, ok, stamp) =>
      if Enabled(s, k) {
        TextOfStep(s, k, ok, stamp);
        WrittenAfterStep(s, k, StepOf(s, k, ok, stamp).jobs[k].pc);
        if Appends(s, k, ok) {
          ConcatAssoc(initial, Written(s.jobs), s.jobs[k].line);
        }
      }
  }

  predicate Appends(s: State, k: nat, ok: bool)
    requires k < |s.jobs|
  {
    s.jobs[k].pc == AtAppend && ok
  }

  // Only a successful append changes the recorded text.
  lemma TextOfStep(s: State, k: nat, ok: bool, stamp: nat)
    requires Inv(s) && Enabled(s, k) && !RenamesOnto(s, Step(k, ok, stamp))
    ensures StepOf(s, k, ok, stamp).jobs == At(s, k, StepOf(s, k, ok, stamp).jobs[k].pc).jobs
    ensures StepOf(s, k, ok, stamp).jobs[k].pc == Settled(true) <==> Appends(s, k, ok)
    ensures AllText(StepOf(s, k, ok, stamp)) == if Appends(s, k, ok) then AllText(s) + s.jobs[k].line else AllText(s)
  {
    if s.jobs[k].pc == AtRename && ok {
      TextOfRename(s, k, stamp);
    } else if Appends(s, k, ok) {
      ConcatAssoc(Archived(s.archives), Content(s), s.jobs[k].line);
    }
  }

  lemma TextOfRename(s: State, k: nat, stamp: nat)
    requires Inv(s) && Enabled(s, k) && s.jobs[k].pc == AtRename && !RenamesOnto(s, Step(k, true, stamp))
    ensures AllText(StepOf(s, k, true, stamp)) == AllText(s)
  {
    RenameMovesText(s.archives, stamp, s.file.value);
    assert Archived(s.archives) + s.file.value + "" == Archived(s.archives) + s.file.value;
  }

  ghost predicate StampsDiffer(s: State, events: seq<Event>) {
    forall n :: 0 <= n < |events| ==> !RenamesOnto(Run(s, events[..n]), events[n])
  }

  // Whatever fails, the archives in order and then the file are always the text at the start
  // followed by the lines of exactly the successful appends, in call order.
  lemma {:induction false} EveryLineIsKept(s: State, events: seq<Event>)
    requires Fresh(s) && StampsDiffer(s, events)
    ensures AllText(Run(s, events)) == Content(s) + Written(Run(s, events).jobs)
  {
    if events == [] {
      assert "" + Content(s) == Content(s) + "";
    } else {
      var init := events[..|events| - 1];
      assert forall n :: 0 <= n < |init| ==> events[..n] == init[..n];
      EveryLineIsKept(s, init);
      JobsNeverInterleave(s, init);
      StepConserves(Run(s, init), events[|events| - 1], Content(s));
    }
  }

  lemma {:induction false} WithoutLoses(archives: seq<Archive>, stamp: nat)
    requires forall a :: 0 <= a < |archives| ==> |archives[a].content| > ROTATE_BYTES
    ensures |Archived(Without(archives, stamp))| <= |Archived(archives)|
    ensures (exists a :: 0 <= a < |archives| && archives[a].stamp == stamp) ==>
              |Archived(Without(archives, stamp))| < |Archived(archives)| - ROTATE_BYTES
  {
    if archives != [] {
      var init, last := archives[..|archives| - 1], archives[|archives| - 1];
      WithoutLoses(init, stamp);
      if a :| 0 <= a < |archives| && archives[a].stamp == stamp {
        assert a < |init| ==> init[a].stamp == stamp;
      }
      if last.stamp == stamp {
        assert Without(archives, stamp) == Without(init, stamp);
      } else {
        assert (Without(init, stamp) + [last])[..|Without(init, stamp)|] == Without(init, stamp);
      }
    }
  }

  // A rotation keeps the recorded text exactly when no archive has its timestamp: an archive
  // of the same name is replaced, and more than ten megabytes of log are gone.
  lemma RotationKeepsTextExactlyWhen(s: State, k: nat, stamp: nat)
    requires Inv(s) && Enabled(s, k) && s.jobs[k].pc == AtRename
    ensures AllText(Do(s, Step(k, true, stamp))) == AllText(s) <==>
        forall a :: 0 <= a < |s.archives| ==> s.archives[a].stamp != stamp
    ensures (exists a :: 0 <= a < |s.archives| && s.archives[a].stamp == stamp) ==>
              |AllText(Do(s, Step(k, true, stamp)))| < |AllText(s)| - 10_485_760
  {
    var content := s.file.value;
    var kept := Without(s.archives, stamp);
    var after := Renamed(s.archives, stamp, content);
    assert after[..|kept|] == kept;
    assert Archived(after) == Archived(kept) + content;
    assert AllText(Do(s, Step(k, true, stamp))) == Archived(after) + "" == Archived(after);
    WithoutLoses(s.archives, stamp);
    if forall a :: 0 <= a < |s.archives| ==> s.archives[a].stamp != stamp {
      WithoutFresh(s.archives, stamp);
    }
  }

  // ----------------------------------------------------------- bounded growth

  // The recorded text is the text at the start and the lines of the successful appends.
  ghost predicate Kept(s: State, events: seq<Event>) {
    AllText(Run(s, events)) == Content(s) + Written(Run(s, events).jobs)
  }

  ghost function KeptFrom(s: State): seq<Event> -> bool { events => Kept(s, events) }

  lemma StampsDifferNext(s: State, events: seq<Event>, e: Event)
    ensures StampsDiffer(s, events + [e]) <==> StampsDiffer(s, events) && !RenamesOnto(Run(s, events), e)
  {
    var more := events + [e];
    assert more[..|events|] == events && more[|events|] == e;
    assert forall n: nat :: n < |events| ==> more[..n] == events[..n] && more[n] == events[n];
  }

  lemma ClashLosesText(s: State, e: Event, initial: string)
    requires Inv(s) && RenamesOnto(s, e) && AllText(s) == initial + Written(s.jobs)
    ensures AllText(Do(s, e)) != initial + Written(Do(s, e).jobs)
  {
    RotationKeepsTextExactlyWhen(s, e.job, e.stamp);
    WrittenAfterStep(s, e.job, AtAppend);
    assert Do(s, e).jobs == At(s, e.job, AtAppend).jobs;
  }

  // Over a whole run of a process: the text is kept at every moment exactly when no rotation
  // hits the name of an archive.
  lemma {:induction false} TextIsKeptExactlyWhen(s: State, events: seq<Event>)
    requires Fresh(s)
    ensures AtEvery(KeptFrom(s), events) <==> StampsDiffer(s, events)
  {
    if events == [] {
      assert KeptFrom(s)([]) by { assert "" + Content(s) == Content(s) + ""; }
    } else {
      var init, e := events[..|events| - 1], events[|events| - 1];
      assert events == init + [e];
      TextIsKeptExactlyWhen(s, init);
      AtEveryNext(KeptFrom(s), init, e);
      StampsDifferNext(s, init, e);
      if AtEvery(KeptFrom(s), init) {
        AtEveryEnd(KeptFrom(s), init);
        JobsNeverInterleave(s, init);
        KeptNext(s, init, e);
      }
    }
  }

  lemma KeptNext(s: State, events: seq<Event>, e: Event)
    requires Kept(s, events) && Inv(Run(s, events))
    ensures Kept(s, events + [e]) <==> !RenamesOnto(Run(s, events), e)
  {
    RunNext(s, events, e);
    if RenamesOnto(Run(s, events), e) {
      ClashLosesText(Run(s, events), e, Content(s));
    } else {
      StepConserves(Run(s, events), e, Content(s));
    }
  }

  lemma RunNext(s: State, events: seq<Event>, e: Event)
    ensures Run(s, events + [e]) == Do(Run(s, events), e)
  {
    assert (events + [e])[..|events|] == events;
  }

  lemma {:induction false} RunConcat(s: State, a: seq<Event>, b: seq<Event>)
    ensures Run(s, a + b) == Run(Run(s, a), b)
    decreases |b|
  {
    if b == [] {
      assert a + b == a;
    } else {
      RunConcat(s, a, b[..|b| - 1]);
      assert (a + b)[..|a + b| - 1] == a + b[..|b| - 1];
    }
  }

  // One call whose operations all succeed, on a file that has outgrown the limit.
  function RotatingCall(k: nat, line: string, stamp: nat): seq<Event> {
    [Call(line)] + [Step(k, true, stamp)] + [Step(k, true, stamp)] + [Step(k, true, stamp)] + [Step(k, true, stamp)]
  }

  function WithJob(s: State, line: string, pc: Pc): State { s.(jobs := s.jobs + [Job(line, pc)]) }

  ghost predicate AllSettled(s: State) { s.jobs != [] ==> s.jobs[|s.jobs| - 1].pc.Settled? }

  lemma JobMoves(s: State, line: string, pc: Pc, next: Pc)
    requires AllSettled(s) && !pc.Settled?
    ensures Enabled(WithJob(s, line, pc), |s.jobs|)
    ensures At(WithJob(s, line, pc), |s.jobs|, next) == WithJob(s, line, next)
  {
    assert (s.jobs + [Job(line, pc)])[|s.jobs| := Job(line, next)] == s.jobs + [Job(line, next)];
  }

  lemma RotatingCallRuns(s: State, line: string, stamp: nat)
    requires AllSettled(s) && s.file != None && |s.file.value| > ROTATE_BYTES
    ensures Run(s, RotatingCall(|s.jobs|, line, stamp)) ==
            State(s.jobs + [Job(line, Settled(true))], Some(line), Renamed(s.archives, stamp, s.file.value))
  {
    var go := Step(|s.jobs|, true, stamp);
    var e: seq<Event> := [Call(line)];
    RunNext(s, [], Call(line));
    assert [] + [Call(line)] == e;
    assert Run(s, e) == WithJob(s, line, Queued);
    RunNext(s, e, go);
    JobMoves(s, line, Queued, AtStat);
    RunNext(s, e + [go], go);
    JobMoves(s, line, AtStat, AtRename);
    assert Run(s, e + [go] + [go]) == WithJob(s, line, AtRename);
    RunNext(s, e + [go] + [go], go);
    RunNext(s, e + [go] + [go] + [go], go);
    RenameAndAppend(s, line, stamp);
  }

  lemma RenameAndAppend(s: State, line: string, stamp: nat)
    requires AllSettled(s) && s.file != None
    ensures var go := Step(|s.jobs|, true, stamp);
            Do(Do(WithJob(s, line, AtRename), go), go) ==
            State(s.jobs + [Job(line, Settled(true))], Some(line), Renamed(s.archives, stamp, s.file.value))
  {
    var moved := s.(file := None, archives := Renamed(s.archives, stamp, s.file.value));
    JobMoves(s, line, AtRename, AtAppend);
    JobMoves(moved, line, AtAppend, Settled(true));
    assert "" + line == line;
  }

  // A run that loses text: two calls rotate within the same millisecond, and what the first
  // one archived is gone.
  lemma SameStampLosesTheFirstArchive(first: string, second: string, third: string, stamp: nat)
    requires |first| > ROTATE_BYTES && |second| > ROTATE_BYTES
    ensures var s := State([], Some(first), []);
            var t := Run(s, RotatingCall(0, second, stamp) + RotatingCall(1, third, stamp));
            && Fresh(s) && Content(s) == first && Written(t.jobs) == second + third
            && AllText(t) == second + third
  {
    var s := State([], Some(first), []);
    RunConcat(s, RotatingCall(0, second, stamp), RotatingCall(1, third, stamp));
    RotatingCallRuns(s, second, stamp);
    var m := Run(s, RotatingCall(0, second, stamp));
    assert m.jobs == [Job(second, Settled(true))] && m.archives == [Archive(stamp, first)]
        && m.file == Some(second) by {
      assert Without([], stamp) == [];
    }
    RotatingCallRuns(m, third, stamp);
    var t := Run(m, RotatingCall(1, third, stamp));
    assert t.archives == [Archive(stamp, second)] by {
      assert [Archive(stamp, first)][..0] == [];
      assert Without([Archive(stamp, first)], stamp) == [];
    }
    TextsOfTwo(second, third, stamp);
    assert t.jobs == [Job(second, Settled(true)), Job(third, Settled(true))];
  }

  lemma TextsOfTwo(second: string, third: string, stamp: nat)
    ensures Archived([Archive(stamp, second)]) == second
    ensures Written([Job(second, Settled(true)), Job(third, Settled(true))]) == second + third
  {
    assert [Archive(stamp, second)][..0] == [];
    assert "" + second == second;
    var jobs := [Job(second, Settled(true)), Job(third, Settled(true))];
    assert jobs[..1] == [Job(second, Settled(true))] && jobs[..1][..0] == [];
    assert Written(jobs[..1]) == second;
  }

  // stat of an existing file, or a rename, that fails.
  ghost predicate RotationFails(s: State, e: Event) {
    && e.Step? && Enabled(s, e.job) && !e.ok
    && (s.jobs[e.job].pc == AtRename || (s.jobs[e.job].pc == AtStat && s.file != None))
  }

  ghost predicate AppendsToSmallFile(s: State) {
    forall k :: 0 <= k < |s.jobs| && s.jobs[k].pc == AtAppend ==> |Content(s)| <= ROTATE_BYTES
  }

  ghost predicate RotationsWork(s: State, events: seq<Event>) {
    forall n :: 0 <= n < |events| ==> !RotationFails(Run(s, events[..n]), events[n])
  }

  lemma {:induction false} AppendsFindSmallFile(s: State, events: seq<Event>)
    requires Fresh(s) && RotationsWork(s, events)
    ensures AppendsToSmallFile(Run(s, events))
  {
    if events != [] {
      var init, e := events[..|events| - 1], events[|events| - 1];
      assert forall n :: 0 <= n < |init| ==> events[..n] == init[..n];
      AppendsFindSmallFile(s, init);
      JobsNeverInterleave(s, init);
      var t := Run(s, init);
      assert !RotationFails(t, e);
      if e.Step? && Enabled(t, e.job) { EnabledIsTheRunningJob(t, e.job); }
    }
  }

  // As long as rotation works, a successful append leaves at most ten megabytes and its line.
  lemma FileStaysBounded(s: State, events: seq<Event>, k: nat, stamp: nat)
    requires Fresh(s) && RotationsWork(s, events)
    requires Enabled(Run(s, events), k) && Run(s, events).jobs[k].pc == AtAppend
    ensures var t := Do(Run(s, events), Step(k, true, stamp));
            t.jobs[k].pc == Settled(true) && |Content(t)| <= 10_485_760 + |t.jobs[k].line|
  {
    AppendsFindSmallFile(s, events);
  }

  // ----------------------------------------------- which lines are not written

  // Job k's mkdir, or its appendFile, returns an error.
  ghost predicate WriteFails(s: State, e: Event, k: nat) {
    && e.Step? && e.job == k && !e.ok && Enabled(s, k) && (s.jobs[k].pc == Queued || s.jobs[k].pc == AtAppend)
  }

  // Job k's appendFile succeeds.
  ghost predicate WriteSucceeds(s: State, e: Event, k: nat) {
    e.Step? && e.job == k && e.ok && Enabled(s, k) && s.jobs[k].pc == AtAppend
  }

  ghost predicate HasFailed(s: State, events: seq<Event>, k: nat) {
    exists n: nat :: n < |events| && WriteFails(Run(s, events[..n]), events[n], k)
  }

  ghost predicate HasSucceeded(s: State, events: seq<Event>, k: nat) {
    exists n: nat :: n < |events| && WriteSucceeds(Run(s, events[..n]), events[n], k)
  }

  lemma OutcomeNext(s: State, events: seq<Event>, e: Event, k: nat)
    ensures HasFailed(s, events + [e], k) <==> HasFailed(s, events, k) || WriteFails(Run(s, events), e, k)
    ensures HasSucceeded(s, events + [e], k) <==> HasSucceeded(s, events, k) || WriteSucceeds(Run(s, events), e, k)
  {
    var more, n := events + [e], |events|;
    assert more[..n] == events && more[n] == e;
    assert forall i: nat :: i < n ==> more[..i] == events[..i] && more[i] == events[i];
  }

  // Job k, if it exists, is settled as these outcomes say.
  ghost predicate SettledAs(s: State, k: nat, failed: bool, succeeded: bool) {
    if k < |s.jobs|
    then (s.jobs[k].pc == Settled(false) <==> failed) && (s.jobs[k].pc == Settled(true) <==> succeeded)
    else !failed && !succeeded
  }

  lemma StepSettles(s: State, e: Event, k: nat, failed: bool, succeeded: bool)
    requires SettledAs(s, k, failed, succeeded)
    ensures SettledAs(Do(s, e), k, failed || WriteFails(s, e, k), succeeded || WriteSucceeds(s, e, k))
  {
  }

  // A job settles unwritten exactly when its mkdir or its appendFile returned an error,
  // whatever stat and rename returned and whether or not the file existed; and written
  // exactly when its appendFile succeeded.
  lemma {:induction false} SettlesUnwrittenExactlyWhen(s: State, events: seq<Event>, k: nat)
    requires Fresh(s)
    ensures SettledAs(Run(s, events), k, HasFailed(s, events, k), HasSucceeded(s, events, k))
  {
    if events != [] {
      SettlesUnwrittenExactlyWhen(s, events[..|events| - 1], k);
      SettledNext(s, events[..|events| - 1], events[|events| - 1], k);
      assert events[..|events| - 1] + [events[|events| - 1]] == events;
    }
  }

  lemma SettledNext(s: State, events: seq<Event>, e: Event, k: nat)
    requires SettledAs(Run(s, events), k, HasFailed(s, events, k), HasSucceeded(s, events, k))
    ensures SettledAs(Run(s, events + [e]), k, HasFailed(s, events + [e], k), HasSucceeded(s, events + [e], k))
  {
    RunNext(s, events, e);
    OutcomeNext(s, events, e, k);
    StepSettles(Run(s, events), e, k, HasFailed(s, events, k), HasSucceeded(s, events, k));
  }

  // The lines of all calls that have settled, in call order.
  function SettledLines(jobs: seq<Job>): string {
    if jobs == [] then "" else
    var last := jobs[|jobs| - 1];
    SettledLines(jobs[..|jobs| - 1]) + if last.pc.Settled? then last.line else ""
  }

  lemma {:induction false} AllSettledWritten(jobs: seq<Job>)
    requires forall k :: 0 <= k < |jobs| ==> jobs[k].pc != Settled(false)
    ensures Written(jobs) == SettledLines(jobs)
  {
    if jobs != [] { AllSettledWritten(jobs[..|jobs| - 1]); }
  }

  // If no mkdir and no appendFile fails, no line is lost: the recorded text ends in the lines
  // of all settled calls.
  lemma NoLineIsLost(s: State, events: seq<Event>)
    requires Fresh(s) && StampsDiffer(s, events) && forall k: nat :: !HasFailed(s, events, k)
    ensures AllText(Run(s, events)) == Content(s) + SettledLines(Run(s, events).jobs)
  {
    EveryLineIsKept(s, events);
    forall k | 0 <= k < |Run(s, events).jobs| ensures Run(s, events).jobs[k].pc != Settled(false) {
      SettlesUnwrittenExactlyWhen(s, events, k);
    }
    AllSettledWritten(Run(s, events).jobs);
  }

  // --------------------------------------------------------- nothing is blocked

  function Remaining(pc: Pc): nat {
    match pc case Queued => 4 case AtStat => 3 case AtRename => 2 case AtAppend => 1 case Settled(_) => 0
  }

  function Work(jobs: seq<Job>): nat {
    if jobs == [] then 0 else Work(jobs[..|jobs| - 1]) + Remaining(jobs[|jobs| - 1].pc)
  }

  lemma {:induction false} WorkUpdate(jobs: seq<Job>, k: nat, job: Job)
    requires k < |jobs|
    ensures Work(jobs[k := job]) == Work(jobs) - Remaining(jobs[k].pc) + Remaining(job.pc)
  {
    var n := |jobs| - 1;
    if k < n {
      WorkUpdate(jobs[..n], k, job);
      assert jobs[k := job][..n] == jobs[..n][k := job];
    } else {
      assert jobs[k := job][..n] == jobs[..n];
    }
  }

  // While any job is unsettled one can run, and whatever its operation returns there is less
  // left to do. So every call settles, however many before it failed.
  lemma FailuresNeverBlock(s: State)
    requires Inv(s) && exists k :: 0 <= k < |s.jobs| && !s.jobs[k].pc.Settled?
    ensures exists k: nat :: Enabled(s, k)
    ensures forall k: nat, ok, stamp: nat :: Enabled(s, k) ==> Work(Do(s, Step(k, ok, stamp)).jobs) < Work(s.jobs)
  {
    var k :| 0 <= k < |s.jobs| && !s.jobs[k].pc.Settled?;
    var first := FirstUnsettled(s.jobs, k);
    assert Enabled(s, first);
    forall k: nat, ok, stamp: nat | Enabled(s, k) ensures Work(Do(s, Step(k, ok, stamp)).jobs) < Work(s.jobs) {
      StepDoesWork(s, k, ok, stamp);
    }
  }

  lemma StepDoesWork(s: State, k: nat, ok: bool, stamp: nat)
    requires Enabled(s, k)
    ensures Work(Do(s, Step(k, ok, stamp)).jobs) < Work(s.jobs)
  {
    StepMovesItsJob(s, k, ok, stamp);
    WorkUpdate(s.jobs, k, Do(s, Step(k, ok, stamp)).jobs[k]);
  }

  lemma StepMovesItsJob(s: State, k: nat, ok: bool, stamp: nat)
    requires Enabled(s, k)
    ensures |Do(s, Step(k, ok, stamp)).jobs| == |s.jobs|
    ensures Do(s, Step(k, ok, stamp)).jobs == s.jobs[k := Do(s, Step(k, ok, stamp)).jobs[k]]
    ensures Remaining(Do(s, Step(k, ok, stamp)).jobs[k].pc) < Remaining(s.jobs[k].pc)
  {
  }

  lemma {:induction false} FirstUnsettled(jobs: seq<Job>, k: nat) returns (first: nat)
    requires k < |jobs| && !jobs[k].pc.Settled?
    ensures first <= k && !jobs[first].pc.Settled? && (first == 0 || jobs[first - 1].pc.Settled?)
  {
    first := k;
    if k > 0 && !jobs[k - 1].pc.Settled? { first := FirstUnsettled(jobs, k - 1); }
  }

  // ------------------------------------------------------------------- object

  class AuditLog {
    var jobs: seq<Job>
    var file: Option<string>
    var archives: seq<Archive>

    ghost function View(): State reads this { State(jobs, file, archives) }

    constructor (file: Option<string>)
      ensures Fresh(View()) && this.file == file
    {
      jobs, this.file, archives := [], file, [];
    }

    // writeQueue = writeQueue.then(...).catch(...)
    method AppendAudit(line: string)
      modifies this`jobs
      ensures View() == Do(old(View()), Call(line))
    {
      jobs := jobs + [Job(line, Queued)];
    }

    // The running job's pending file operation returns.
    method Resume(k: nat, ok: bool, now: nat)
      requires Enabled(View(), k)
      modifies this
      ensures View() == Do(old(View()), Step(k, ok, now))
    {
      var job := jobs[k];
      if job.pc == Queued {
        jobs := jobs[k := job.(pc := if ok then AtStat else Settled(false))];
      } else if job.pc == AtStat {
        var rotate := ok && file != None && |file.value| > ROTATE_BYTES;
        jobs := jobs[k := job.(pc := if rotate then AtRename else AtAppend)];
      } else if job.pc == AtRename {
        if ok && file != None {
          archives := Renamed(archives, now, file.value);
          file := None;
        }
        jobs := jobs[k := job.(pc := AtAppend)];
      } else {
        if ok { file := Some((if file == None then "" else file.value) + job.line); }
        jobs := jobs[k := job.(pc := Settled(ok))];
      }
    }
  }
}
