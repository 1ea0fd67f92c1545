// src/tmux/tmuxMap.ts, findPaneForPid, and the tmux loop of src/sessions/snapshot.ts: a
// bounded walk up the process tree, which `ps` may report with cycles or not at all.
module TmuxMap {
  import opened Common

  datatype Pane = Pane(session: string, pane: string)
  datatype Row = Row(pid: int, info: Pane)

  // What `ps -o ppid=` says: None when the call throws, Some(0) when it prints no number.
  type Ps = int -> Option<int>

  const MAX_LEVELS := 50

  // panes.find(p => p.pid === pid)
  function FirstRow(panes: seq<Row>, pid: int): (r: Option<Pane>)
    ensures r != None <==> Owns(panes, pid)
  {
    if panes == [] then None
    else if panes[0].pid == pid then Some(panes[0].info)
    else
      assert forall k :: 0 < k < |panes| ==> panes[k] == panes[1..][k - 1];
      FirstRow(panes[1..], pid)
  }

  ghost predicate Owns(panes: seq<Row>, pid: int) {
    exists k :: 0 <= k < |panes| && panes[k].pid == pid
  }

  // The walk goes from pid to its parent when ps knows another process as such.
  predicate Climbs(ps: Ps, pid: int) {
    ps(pid) != None && ps(pid).value != 0 && ps(pid).value != pid
  }

  // The pid looked at after n climbs from `pid`; None once the walk has ended: at pid 1 or
  // below, where ps fails or knows no parent, or at a process that is its own parent.
  function Climb(ps: Ps, pid: int, n: nat): Option<int> {
    if n == 0 then (if pid > 1 then Some(pid) else None) else
    var below := Climb(ps, pid, n - 1);
    if below == None || !Climbs(ps, below.value) || ps(below.value).value <= 1 then None
    else Some(ps(below.value).value)
  }

  // The first owner among the first n processes of the climb.
  function NearestOwner(panes: seq<Row>, ps: Ps, pid: int, n: nat): Option<int> {
    if n == 0 then None else
    var nearer := NearestOwner(panes, ps, pid, n - 1);
    if nearer != None then nearer
    else if Climb(ps, pid, n - 1) != None && FirstRow(panes, Climb(ps, pid, n - 1).value) != None
        then Climb(ps, pid, n - 1)
    else None
  }

  // findPaneForPid without cached panes; `rows` is what listAllPanes returned.
  method FindPaneForPid(targetPid: int, ps: Ps, rows: seq<Row>) returns (found: Option<Pane>)
    ensures found == PaneFor(rows, ps, targetPid)
  {
    if |rows| == 0 {
      NoPanesNoOwner(ps, targetPid, MAX_LEVELS);
      return None;
    }
    var cur := targetPid;
    var i := 0;
    while i < MAX_LEVELS && cur > 1
      invariant 0 <= i <= MAX_LEVELS
      invariant Climb(ps, targetPid, i) == if cur > 1 then Some(cur) else None
      invariant NearestOwner(rows, ps, targetPid, i) == None
    {
      var hit := FirstRow(rows, cur);
      if hit != None {
        assert NearestOwner(rows, ps, targetPid, i + 1) == Some(cur);
        NearestOwnerStays(rows, ps, targetPid, i + 1, MAX_LEVELS);
        return hit;
      }
      assert NearestOwner(rows, ps, targetPid, i + 1) == None;
      if !Climbs(ps, cur) {
        EndedWalkFindsNothing(rows, ps, targetPid, i + 1, MAX_LEVELS);
        return None;
      }
      cur := ps(cur).value;
      i := i + 1;
    }
    if i < MAX_LEVELS { EndedWalkFindsNothing(rows, ps, targetPid, i, MAX_LEVELS); }
    return None;
  }

  function PaneFor(rows: seq<Row>, ps: Ps, pid: int): Option<Pane> {
    var owner := NearestOwner(rows, ps, pid, MAX_LEVELS);
    if owner == None then None else FirstRow(rows, owner.value)
  }

  lemma {:induction false} NearestOwnerStays(rows: seq<Row>, ps: Ps, pid: int, n: nat, m: nat)
    requires n <= m && NearestOwner(rows, ps, pid, n) != None
    ensures NearestOwner(rows, ps, pid, m) == NearestOwner(rows, ps, pid, n)
  {
    if n < m { NearestOwnerStays(rows, ps, pid, n, m - 1); }
  }

  lemma {:induction false} ClimbEnded(ps: Ps, pid: int, n: nat, m: nat)
    requires n <= m && Climb(ps, pid, n) == None
    ensures Climb(ps, pid, m) == None
  {
    if n < m { ClimbEnded(ps, pid, n, m - 1); }
  }

  lemma {:induction false} EndedWalkFindsNothing(rows: seq<Row>, ps: Ps, pid: int, n: nat, m: nat)
    requires n <= m && Climb(ps, pid, n) == None && NearestOwner(rows, ps, pid, n) == None
    ensures NearestOwner(rows, ps, pid, m) == None
  {
    if n < m {
      EndedWalkFindsNothing(rows, ps, pid, n, m - 1);
      ClimbEnded(ps, pid, n, m - 1);
    }
  }

  lemma {:induction false} NoPanesNoOwner(ps: Ps, pid: int, n: nat)
    ensures NearestOwner([], ps, pid, n) == None
  {
    if n > 0 { NoPanesNoOwner(ps, pid, n - 1); }
  }

  ghost predicate OwnsAt(rows: seq<Row>, ps: Ps, pid: int, k: nat) {
    Climb(ps, pid, k) != None && Owns(rows, Climb(ps, pid, k).value)
  }

  // The owner is an ancestor-or-self in the climb, owns a pane, and nothing nearer does.
  lemma {:induction false} NearestOwnerIsNearest(rows: seq<Row>, ps: Ps, pid: int, n: nat)
    ensures if NearestOwner(rows, ps, pid, n) == None
            then forall k: nat :: k < n ==> !OwnsAt(rows, ps, pid, k)
            else exists k: nat ::
                   && k < n && OwnsAt(rows, ps, pid, k) && Climb(ps, pid, k) == NearestOwner(rows, ps, pid, n)
                   && forall j: nat :: j < k ==> !OwnsAt(rows, ps, pid, j)
  {
    if n > 0 {
      NearestOwnerIsNearest(rows, ps, pid, n - 1);
      if NearestOwner(rows, ps, pid, n - 1) == None && NearestOwner(rows, ps, pid, n) != None {
        assert OwnsAt(rows, ps, pid, n - 1);
      }
    }
  }

  // ----------------------------------------------------------- completeness

  // The processes above pid 1 the climb visits in its first n steps.
  function Visited(ps: Ps, pid: int, n: nat): set<int> {
    if n == 0 then {} else
    Visited(ps, pid, n - 1) + if Climb(ps, pid, n - 1) == None then {} else {Climb(ps, pid, n - 1).value}
  }

  // q is pid itself or an ancestor of it above pid 1.
  ghost predicate Ancestor(ps: Ps, pid: int, q: int) {
    exists n: nat :: Climb(ps, pid, n) == Some(q)
  }

  // From a repeated process on, the climb only repeats itself.
  lemma {:induction false} ClimbFromRepeat(ps: Ps, pid: int, i: nat, j: nat, d: nat)
    requires i < j && Climb(ps, pid, i) == Climb(ps, pid, j)
    ensures Climb(ps, pid, i + d) == Climb(ps, pid, j + d)
  {
    if d > 0 { ClimbFromRepeat(ps, pid, i, j, d - 1); }
  }

  // A climb that returns to a process visits nothing beyond the first round.
  lemma {:induction false} RepeatClosesVisited(ps: Ps, pid: int, i: nat, j: nat, n: nat)
    requires i < j && Climb(ps, pid, i) == Climb(ps, pid, j) && Climb(ps, pid, n) != None
    ensures Climb(ps, pid, n).value in Visited(ps, pid, j)
    decreases n
  {
    if n < j {
      VisitedHas(ps, pid, n, j);
    } else {
      ClimbFromRepeat(ps, pid, i, j, n - j);
      RepeatClosesVisited(ps, pid, i, j, i + (n - j));
    }
  }

  lemma {:induction false} VisitedHas(ps: Ps, pid: int, k: nat, n: nat)
    requires k < n && Climb(ps, pid, k) != None
    ensures Climb(ps, pid, k).value in Visited(ps, pid, n)
  {
    if k < n - 1 { VisitedHas(ps, pid, k, n - 1); }
  }

  lemma {:induction false} VisitedAt(ps: Ps, pid: int, q: int, n: nat) returns (k: nat)
    requires q in Visited(ps, pid, n)
    ensures k < n && Climb(ps, pid, k) == Some(q)
  {
    k := n - 1;
    if Climb(ps, pid, k) != Some(q) { k := VisitedAt(ps, pid, q, n - 1); }
  }

  ghost predicate AllVisited(ps: Ps, pid: int, n: nat) {
    forall q :: Ancestor(ps, pid, q) ==> q in Visited(ps, pid, n)
  }

  lemma EndedVisitsAll(ps: Ps, pid: int, n: nat)
    requires Climb(ps, pid, n) == None
    ensures AllVisited(ps, pid, n)
  {
    forall q | Ancestor(ps, pid, q) ensures q in Visited(ps, pid, n) {
      var m: nat :| Climb(ps, pid, m) == Some(q);
      if m >= n { ClimbEnded(ps, pid, n, m); }
      VisitedHas(ps, pid, m, n);
    }
  }

  lemma RepeatVisitsAll(ps: Ps, pid: int, n: nat)
    requires Climb(ps, pid, n) != None && Climb(ps, pid, n).value in Visited(ps, pid, n)
    ensures AllVisited(ps, pid, n)
  {
    var k := VisitedAt(ps, pid, Climb(ps, pid, n).value, n);
    forall q | Ancestor(ps, pid, q) ensures q in Visited(ps, pid, n) {
      var m: nat :| Climb(ps, pid, m) == Some(q);
      RepeatClosesVisited(ps, pid, k, n, m);
    }
  }

  // Either n different processes have been visited, or every ancestor has been.
  lemma {:induction false} VisitedAllOrMany(ps: Ps, pid: int, n: nat)
    ensures |Visited(ps, pid, n)| == n || AllVisited(ps, pid, n)
  {
    if n > 0 {
      VisitedAllOrMany(ps, pid, n - 1);
      if !AllVisited(ps, pid, n - 1) {
        if Climb(ps, pid, n - 1) == None { EndedVisitsAll(ps, pid, n - 1); }
        else if Climb(ps, pid, n - 1).value in Visited(ps, pid, n - 1) { RepeatVisitsAll(ps, pid, n - 1); }
        VisitedGrows(ps, pid, n);
      } else {
        AllVisitedStays(ps, pid, n);
      }
    }
  }

  lemma VisitedGrows(ps: Ps, pid: int, n: nat)
    requires n > 0 && Climb(ps, pid, n - 1) != None && Climb(ps, pid, n - 1).value !in Visited(ps, pid, n - 1)
    ensures |Visited(ps, pid, n)| == |Visited(ps, pid, n - 1)| + 1
  {
  }

  lemma AllVisitedStays(ps: Ps, pid: int, n: nat)
    requires n > 0 && AllVisited(ps, pid, n - 1)
    ensures AllVisited(ps, pid, n)
  {
  }

  // All ancestors, when there are few enough of them.
  ghost predicate AncestorsAre(ps: Ps, pid: int, all: set<int>) {
    forall q :: q in all <==> Ancestor(ps, pid, q)
  }

  lemma {:induction false} VisitedAreAncestors(ps: Ps, pid: int, n: nat)
    ensures forall q :: q in Visited(ps, pid, n) ==> Ancestor(ps, pid, q)
  {
    forall q | q in Visited(ps, pid, n) ensures Ancestor(ps, pid, q) {
      var k := VisitedAt(ps, pid, q, n);
    }
  }

  // With at most 50 ancestors above pid 1, cycles allowed, the walk misses none: it finds
  // nothing exactly when no ancestor owns a pane.
  lemma WalkIsComplete(rows: seq<Row>, ps: Ps, pid: int, all: set<int>)
    requires AncestorsAre(ps, pid, all) && |all| <= 50
    ensures PaneFor(rows, ps, pid) == None <==> forall q :: q in all ==> !Owns(rows, q)
  {
    NearestOwnerIsNearest(rows, ps, pid, MAX_LEVELS);
    VisitedAllOrMany(ps, pid, MAX_LEVELS);
    VisitedAreAncestors(ps, pid, MAX_LEVELS);
    var seen := Visited(ps, pid, MAX_LEVELS);
    forall q | q in seen ensures q in all { assert Ancestor(ps, pid, q); }
    if |seen| == MAX_LEVELS { SubsetOfSameSize(seen, all); }
    if PaneFor(rows, ps, pid) == None {
      forall q | q in all ensures !Owns(rows, q) {
        var k := VisitedAt(ps, pid, q, MAX_LEVELS);
        assert !OwnsAt(rows, ps, pid, k);
      }
    } else {
      var q := NearestOwner(rows, ps, pid, MAX_LEVELS).value;
      assert Ancestor(ps, pid, q);
    }
  }

  lemma {:induction false} VisitedAtMost(ps: Ps, pid: int, n: nat)
    ensures |Visited(ps, pid, n)| <= n
  {
    if n > 0 { VisitedAtMost(ps, pid, n - 1); }
  }

  // Finding nothing means that there is nothing to find.
  ghost predicate MissesNothing(rows: seq<Row>, ps: Ps, pid: int) {
    PaneFor(rows, ps, pid) == None <==> forall q :: Ancestor(ps, pid, q) ==> !Owns(rows, q)
  }

  // An ancestor the walk never looks at is missed when it alone owns a pane.
  lemma UnvisitedIsMissed(ps: Ps, pid: int, q: int) returns (rows: seq<Row>)
    requires Ancestor(ps, pid, q) && q !in Visited(ps, pid, MAX_LEVELS)
    ensures !MissesNothing(rows, ps, pid)
  {
    rows := [Row(q, Pane("", ""))];
    assert rows[0].pid == q;
    NearestOwnerIsNearest(rows, ps, pid, MAX_LEVELS);
    forall k: nat | k < MAX_LEVELS ensures !OwnsAt(rows, ps, pid, k) {
      if Climb(ps, pid, k) != None { VisitedHas(ps, pid, k, MAX_LEVELS); }
    }
  }

  // Whatever the panes, the walk misses nothing exactly when pid has at most 50 ancestors
  // above pid 1, cycles allowed and itself counted.
  lemma WalkIsCompleteExactlyWhen(ps: Ps, pid: int)
    ensures (forall rows :: MissesNothing(rows, ps, pid)) <==>
        exists all :: AncestorsAre(ps, pid, all) && |all| <= 50
  {
    if all :| AncestorsAre(ps, pid, all) && |all| <= MAX_LEVELS {
      forall rows ensures MissesNothing(rows, ps, pid) { WalkIsComplete(rows, ps, pid, all); }
    }
    if forall rows :: MissesNothing(rows, ps, pid) {
      var seen := Visited(ps, pid, MAX_LEVELS);
      VisitedAtMost(ps, pid, MAX_LEVELS);
      VisitedAreAncestors(ps, pid, MAX_LEVELS);
      forall q | Ancestor(ps, pid, q) ensures q in seen {
        if q !in seen { var rows := UnvisitedIsMissed(ps, pid, q); }
      }
      assert AncestorsAre(ps, pid, seen);
    }
  }

  // The same for a known set of ancestors.
  lemma WalkIsCompleteByCount(ps: Ps, pid: int, all: set<int>)
    requires AncestorsAre(ps, pid, all)
    ensures (forall rows :: MissesNothing(rows, ps, pid)) <==> |all| <= 50
  {
    WalkIsCompleteExactlyWhen(ps, pid);
    if few :| AncestorsAre(ps, pid, few) && |few| <= MAX_LEVELS {
      assert forall q :: q in few <==> q in all;
      assert few == all;
    }
  }

  lemma SubsetOfSameSize(a: set<int>, b: set<int>)
    requires a <= b && |b| <= |a|
    ensures a == b
  {
    assert b == a + (b - a);
    assert |b| == |a| + |b - a|;
    assert b - a == {};
  }

  // A line of processes, each the child of the pid below it.
  const COUNTDOWN: Ps := pid => Some(pid - 1)

  // One process more and the walk gives up too early: pane 2 is 50 climbs above process 52.
  lemma WalkGivesUp()
    ensures var rows := [Row(2, Pane("s", "%1"))];
            Ancestor(COUNTDOWN, 52, 2) && Owns(rows, 2) && PaneFor(rows, COUNTDOWN, 52) == None
  {
    var rows := [Row(2, Pane("s", "%1"))];
    Countdown(50);
    assert Climb(COUNTDOWN, 52, 50) == Some(2);
    assert rows[0].pid == 2;
    NearestOwnerIsNearest(rows, COUNTDOWN, 52, MAX_LEVELS);
    forall k: nat | k < MAX_LEVELS ensures !OwnsAt(rows, COUNTDOWN, 52, k) { Countdown(k); }
  }

  lemma {:induction false} Countdown(n: nat)
    requires n <= 50
    ensures Climb(COUNTDOWN, 52, n) == Some(52 - n)
  {
    if n > 0 {
      Countdown(n - 1);
      var above := 53 - n;
      assert Climb(COUNTDOWN, 52, n - 1) == Some(above);
      assert COUNTDOWN(above) == Some(above - 1);
      assert Climbs(COUNTDOWN, above);
    }
  }

  // --------------------------------------------------------------- snapshot

  // getTmuxPanesOnce: a Map, so a later row of the same pid replaces the entry but keeps its
  // place.
  function Cache(rows: seq<Row>): map<int, Pane> {
    if rows == [] then map[] else
    Cache(rows[..|rows| - 1])[rows[|rows| - 1].pid := rows[|rows| - 1].info]
  }

  lemma {:induction false} CacheKeys(rows: seq<Row>)
    ensures forall pid :: pid in Cache(rows) <==> Owns(rows, pid)
  {
    if rows != [] {
      var init := rows[..|rows| - 1];
      CacheKeys(init);
      forall pid ensures Owns(rows, pid) <==> Owns(init, pid) || rows[|rows| - 1].pid == pid {
        if k :| 0 <= k < |init| && init[k].pid == pid { assert rows[k].pid == pid; }
        if k :| 0 <= k < |rows| && rows[k].pid == pid && k < |init| { assert init[k].pid == pid; }
      }
    }
  }

  // Array.from(cachedPanes.entries()), in whatever order the Map has them.
  ghost predicate EntriesOf(entries: seq<Row>, cache: map<int, Pane>) {
    && (forall k :: 0 <= k < |entries| ==> entries[k].pid in cache && cache[entries[k].pid] == entries[k].info)
    && (forall pid :: pid in cache ==> Owns(entries, pid))
  }

  lemma {:induction false} SameOwners(a: seq<Row>, b: seq<Row>, ps: Ps, pid: int, n: nat)
    requires forall q :: Owns(a, q) <==> Owns(b, q)
    ensures NearestOwner(a, ps, pid, n) == NearestOwner(b, ps, pid, n)
  {
    if n > 0 { SameOwners(a, b, ps, pid, n - 1); }
  }

  lemma {:induction false} FirstRowOfEntries(entries: seq<Row>, cache: map<int, Pane>, pid: int)
    requires pid in cache && Owns(entries, pid)
    requires forall k :: 0 <= k < |entries| ==> entries[k].pid in cache && cache[entries[k].pid] == entries[k].info
    ensures FirstRow(entries, pid) == Some(cache[pid])
  {
    if entries[0].pid != pid {
      var k :| 0 <= k < |entries| && entries[k].pid == pid;
      assert entries[1..][k - 1].pid == pid;
      FirstRowOfEntries(entries[1..], cache, pid);
    }
  }

  // The snapshot's answer: the entry of the map, else what the walk over its entries finds.
  function Snapshot(cache: map<int, Pane>, entries: seq<Row>, ps: Ps, pid: int): Option<Pane> {
    if pid in cache then Some(cache[pid]) else PaneFor(entries, ps, pid)
  }

  // What the snapshot reports for a pid above 1 is the entry of the same owner the uncached
  // walk finds.
  lemma SnapshotFindsTheSameOwner(rows: seq<Row>, entries: seq<Row>, ps: Ps, pid: int)
    requires EntriesOf(entries, Cache(rows)) && pid > 1
    ensures var found := Snapshot(Cache(rows), entries, ps, pid);
            var owner := NearestOwner(rows, ps, pid, MAX_LEVELS);
            && (owner == None ==> found == None && PaneFor(rows, ps, pid) == None)
            && (owner != None ==> owner.value in Cache(rows) && found == Some(Cache(rows)[owner.value])
                                  && PaneFor(rows, ps, pid) == FirstRow(rows, owner.value))
  {
    CacheKeys(rows);
    forall q ensures Owns(rows, q) <==> Owns(entries, q) {
      if k :| 0 <= k < |entries| && entries[k].pid == q { assert q in Cache(rows); }
    }
    SameOwners(rows, entries, ps, pid, MAX_LEVELS);
    NearestOwnerIsNearest(rows, ps, pid, MAX_LEVELS);
    if pid in Cache(rows) { OwnPaneIsNearest(rows, ps, pid); }
    var owner := NearestOwner(rows, ps, pid, MAX_LEVELS);
    if owner != None { FirstRowOfEntries(entries, Cache(rows), owner.value); }
  }

  lemma OwnPaneIsNearest(rows: seq<Row>, ps: Ps, pid: int)
    requires pid > 1 && pid in Cache(rows)
    ensures NearestOwner(rows, ps, pid, MAX_LEVELS) == Some(pid)
  {
    CacheKeys(rows);
    assert NearestOwner(rows, ps, pid, 1) == Some(pid) by {
      assert Climb(ps, pid, 0) == Some(pid) && NearestOwner(rows, ps, pid, 0) == None;
    }
    NearestOwnerStays(rows, ps, pid, 1, MAX_LEVELS);
  }

  lemma {:induction false} NoClimbNoOwner(rows: seq<Row>, ps: Ps, pid: int, n: nat)
    requires pid <= 1
    ensures NearestOwner(rows, ps, pid, n) == None
  {
    EndedWalkFindsNothing(rows, ps, pid, 0, n);
  }

  // The direct hit first, then the walk over the cached panes: above pid 1 the map's entry
  // for the nearest owner among the listed rows, at or below it the direct hit only.
  method SnapshotPane(pid: int, ps: Ps, cache: map<int, Pane>, entries: seq<Row>, ghost rows: seq<Row>)
    returns (found: Option<Pane>)
    requires cache == Cache(rows) && EntriesOf(entries, cache)
    ensures pid > 1 ==>
      match NearestOwner(rows, ps, pid, MAX_LEVELS)
      case Some(owner) => owner in cache && found == Some(cache[owner])
      case None => found == None
    ensures pid <= 1 ==> found == if pid in cache then Some(cache[pid]) else None
  {
    if pid > 1 {
      SnapshotFindsTheSameOwner(rows, entries, ps, pid);
    } else {
      NoClimbNoOwner(entries, ps, pid, MAX_LEVELS);
    }
    if pid in cache { return Some(cache[pid]); }
    found := FindPaneForPid(pid, ps, entries);
  }

  ghost predicate SnapshotAgrees(rows: seq<Row>, entries: seq<Row>, ps: Ps, pid: int) {
    Snapshot(Cache(rows), entries, ps, pid) == PaneFor(rows, ps, pid)
  }

  // No pane pid above 1 is listed first with one pane and last with another.
  ghost predicate FirstIsLast(rows: seq<Row>) {
    forall q :: q > 1 && q in Cache(rows) ==> FirstRow(rows, q) == Some(Cache(rows)[q])
  }

  // The snapshot and the uncached walk agree on every process above pid 1, whatever ps says,
  // exactly when the listed rows are consistent.
  lemma SnapshotAgreesExactlyWhen(rows: seq<Row>, entries: seq<Row>)
    requires EntriesOf(entries, Cache(rows))
    ensures (forall ps, pid :: pid > 1 ==> SnapshotAgrees(rows, entries, ps, pid)) <==> FirstIsLast(rows)
  {
    if FirstIsLast(rows) {
      forall ps: Ps, pid: int | pid > 1 ensures SnapshotAgrees(rows, entries, ps, pid) {
        SnapshotFindsTheSameOwner(rows, entries, ps, pid);
        NearestOwnerIsNearest(rows, ps, pid, MAX_LEVELS);
        var owner := NearestOwner(rows, ps, pid, MAX_LEVELS);
        if owner != None { ClimbStaysAboveOne(ps, pid, owner.value, MAX_LEVELS); }
      }
    }
    if q :| q > 1 && q in Cache(rows) && FirstRow(rows, q) != Some(Cache(rows)[q]) {
      OwnPaneIsNearest(rows, COUNTDOWN, q);
      assert !SnapshotAgrees(rows, entries, COUNTDOWN, q);
    }
  }

  lemma ClimbStaysAboveOne(ps: Ps, pid: int, q: int, n: nat)
    requires exists k: nat :: k < n && Climb(ps, pid, k) == Some(q)
    ensures q > 1
  {
  }

  // In particular when no pane pid is listed twice.
  lemma DistinctRowsAgree(rows: seq<Row>)
    requires forall i, j :: 0 <= i < j < |rows| ==> rows[i].pid != rows[j].pid
    ensures FirstIsLast(rows)
  {
    DistinctRowsCached(rows);
    CacheKeys(rows);
    forall q | q in Cache(rows) ensures FirstRow(rows, q) == Some(Cache(rows)[q]) {
      FirstRowOfEntries(rows, Cache(rows), q);
    }
  }

  // One pid listed with two panes: the snapshot reports the last, the walk the first.
  lemma PaneListedTwice(ps: Ps, pid: int, first: Pane, last: Pane)
    requires pid > 1 && first != last
    ensures var rows := [Row(pid, first), Row(pid, last)];
            && EntriesOf([Row(pid, last)], Cache(rows))
            && Snapshot(Cache(rows), [Row(pid, last)], ps, pid) == Some(last)
            && PaneFor(rows, ps, pid) == Some(first)
            && !FirstIsLast(rows)
  {
    var rows := [Row(pid, first), Row(pid, last)];
    assert rows[..1] == [Row(pid, first)] && rows[..1][..0] == [];
    assert Cache(rows[..1]) == map[pid := first];
    assert rows[..|rows| - 1] == rows[..1] && Cache(rows) == map[pid := last];
    assert [Row(pid, last)][0].pid == pid;
    OwnPaneIsNearest(rows, ps, pid);
  }

  lemma {:induction false} DistinctRowsCached(rows: seq<Row>)
    requires forall i, j :: 0 <= i < j < |rows| ==> rows[i].pid != rows[j].pid
    ensures forall k :: 0 <= k < |rows| ==> rows[k].pid in Cache(rows) && Cache(rows)[rows[k].pid] == rows[k].info
  {
    if rows != [] {
      DistinctRowsCached(rows[..|rows| - 1]);
      assert forall k :: 0 <= k < |rows| - 1 ==> rows[..|rows| - 1][k] == rows[k];
    }
  }
}
