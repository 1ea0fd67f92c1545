// src/sessions/lock.ts and the conflict loop of src/sessions/snapshot.ts: string tests on
// paths against statements about the directory tree.
module PathLock {
  import opened Common

  // -------------------------------------------------------------------- paths

  // What realpath returns: absolute, no trailing and no doubled slash.
  predicate Canonical(p: string) {
    p == "/" ||
    (|p| >= 2 && p[0] == '/' && p[|p| - 1] != '/' && forall i :: 0 <= i < |p| - 1 ==> !(p[i] == '/' && p[i + 1] == '/'))
  }

  // The last slash at or before index k.
  function LastSlash(p: string, k: nat): (i: nat)
    requires p != "" && p[0] == '/' && k < |p|
    ensures i <= k && p[i] == '/' && forall j :: i < j <= k ==> p[j] != '/'
  {
    if k == 0 || p[k] == '/' then k else LastSlash(p, k - 1)
  }

  // dirname of a canonical path; the root is its own parent.
  function Dirname(p: string): (d: string)
    requires Canonical(p)
    ensures Canonical(d) && (p != "/" ==> |d| < |p|)
  {
    if p == "/" then "/" else
    var k := LastSlash(p, |p| - 1);
    if k == 0 then "/" else p[..k]
  }

  // a is p or one of the directories above it.
  ghost predicate AtOrAbove(a: string, p: string)
    requires Canonical(p)
    decreases |p|
  {
    a == p || (p != "/" && AtOrAbove(a, Dirname(p)))
  }

  ghost predicate StrictlyAbove(a: string, p: string)
    requires Canonical(p)
  {
    a != p && AtOrAbove(a, p)
  }

  lemma {:induction false} AboveIsShorter(a: string, p: string)
    requires Canonical(p) && AtOrAbove(a, p)
    ensures Canonical(a) && |a| <= |p| && (|a| == |p| ==> a == p)
    decreases |p|
  {
    if a != p { AboveIsShorter(a, Dirname(p)); }
  }

  lemma {:induction false} AboveTransitive(a: string, b: string, c: string)
    requires Canonical(b) && Canonical(c) && AtOrAbove(a, b) && AtOrAbove(b, c)
    ensures AtOrAbove(a, c)
    decreases |c|
  {
    if b != c { AboveTransitive(a, b, Dirname(c)); }
  }

  // Two directories above the same path are themselves one above the other.
  lemma {:induction false} AboveIsLinear(a: string, b: string, p: string)
    requires Canonical(p) && AtOrAbove(a, p) && AtOrAbove(b, p)
    ensures Canonical(a) && Canonical(b) && (AtOrAbove(a, b) || AtOrAbove(b, a))
    decreases |p|
  {
    AboveIsShorter(a, p);
    AboveIsShorter(b, p);
    if a != p && b != p { AboveIsLinear(a, b, Dirname(p)); }
  }

  // String.startsWith
  predicate StartsWith(s: string, t: string) { |t| <= |s| && s[..|t|] == t }

  lemma {:induction false} PrefixIsAbove(d: string, p: string)
    requires Canonical(d) && Canonical(p) && d != "/" && StartsWith(p, d + "/")
    ensures StrictlyAbove(d, p)
    decreases |p|
  {
    var q, k := Dirname(p), LastSlash(p, |p| - 1);
    assert p[|d|] == (d + "/")[|d|] == '/';
    assert |d| <= k && q == p[..k];
    if k == |d| {
      assert q == (d + "/")[..|d|] == d;
    } else {
      assert q[..|d| + 1] == p[..|d| + 1] == d + "/";
      PrefixIsAbove(d, q);
    }
  }

  lemma {:induction false} AboveIsPrefix(d: string, p: string)
    requires Canonical(d) && Canonical(p) && d != "/" && StrictlyAbove(d, p)
    ensures StartsWith(p, d + "/")
    decreases |p|
  {
    var q, k := Dirname(p), LastSlash(p, |p| - 1);
    if q == d {
      assert p[..k + 1] == d + "/";
    } else {
      AboveIsPrefix(d, q);
      assert q[..|d| + 1] == p[..|d| + 1];
    }
  }

  // For a directory other than the root, the test with the separator is exactly "strictly
  // above": /repo is not taken to be above /repo2.
  lemma PrefixTestIsTreeOrder(d: string, p: string)
    requires Canonical(d) && Canonical(p) && d != "/"
    ensures StartsWith(p, d + "/") <==> StrictlyAbove(d, p)
  {
    if StartsWith(p, d + "/") { PrefixIsAbove(d, p); }
    if StrictlyAbove(d, p) { AboveIsPrefix(d, p); }
  }

  // ---------------------------------------------------------------- git roots

  // The file system as the code sees it: realpath, which may fail, and whether stat finds
  // a `.git` entry in a directory. It does not change while a question is being answered.
  datatype Fs = Fs(realpath: string -> Option<string>, hasGit: string -> bool) {
    // realpath returns canonical paths and leaves them alone.
    ghost predicate Valid() {
      forall p :: realpath(p) != None ==> Canonical(realpath(p).value) && realpath(realpath(p).value) == realpath(p)
    }
  }

  function GitRoot(fs: Fs, p: string): Option<string>
    requires Canonical(p)
    decreases |p|
  {
    if p == "/" then None else if fs.hasGit(p) then Some(p) else GitRoot(fs, Dirname(p))
  }

  // The walk of findGitRoot.
  method FindGitRoot(fs: Fs, p: string) returns (root: Option<string>)
    requires fs.Valid()
    ensures root == if fs.realpath(p) == None then None else GitRoot(fs, fs.realpath(p).value)
  {
    if fs.realpath(p) == None { return None; }
    var cur := fs.realpath(p).value;
    while cur != "/" && cur != ""
      invariant Canonical(cur) && GitRoot(fs, cur) == GitRoot(fs, fs.realpath(p).value)
      decreases |cur|
    {
      if fs.hasGit(cur) { return Some(cur); }
      var parent := Dirname(cur);
      if parent == cur { break; }
      cur := parent;
    }
    return None;
  }

  // It is the nearest directory at or above p, other than the root, that has a `.git`.
  lemma {:induction false} GitRootIsNearest(fs: Fs, p: string)
    requires Canonical(p)
    ensures match GitRoot(fs, p)
            case Some(g) => && Canonical(g) && AtOrAbove(g, p) && g != "/" && fs.hasGit(g)
                            && forall d :: AtOrAbove(d, p) && d != "/" && fs.hasGit(d) ==> AtOrAbove(d, g)
            case None => forall d :: AtOrAbove(d, p) && d != "/" ==> !fs.hasGit(d)
    decreases |p|
  {
    if p != "/" && !fs.hasGit(p) {
      GitRootIsNearest(fs, Dirname(p));
    } else if p != "/" {
      AboveIsShorter(p, p);
    }
  }

  // Some directory below `upper`, down to and including `lower`, is a git root of its own.
  ghost predicate OwnRootBetween(fs: Fs, upper: string, lower: string)
    requires Canonical(lower)
  {
    exists g :: AtOrAbove(g, lower) && Canonical(g) && StrictlyAbove(upper, g) && fs.hasGit(g)
  }

  // Going down from `upper`, the git root changes exactly at such a directory.
  lemma {:induction false} GitRootBelow(fs: Fs, upper: string, lower: string)
    requires Canonical(upper) && Canonical(lower) && upper != "/" && AtOrAbove(upper, lower)
    ensures OwnRootBetween(fs, upper, lower) ==> GitRoot(fs, lower) != None && GitRoot(fs, lower) != GitRoot(fs, upper)
    ensures !OwnRootBetween(fs, upper, lower) ==> GitRoot(fs, lower) == GitRoot(fs, upper)
  {
    GitRootIsNearest(fs, upper);
    GitRootIsNearest(fs, lower);
    if g :| AtOrAbove(g, lower) && Canonical(g) && StrictlyAbove(upper, g) && fs.hasGit(g) {
      AboveIsShorter(upper, g);
      var r := GitRoot(fs, lower).value;
      assert AtOrAbove(g, r);
      AboveIsShorter(g, r);
      if GitRoot(fs, upper) != None { AboveIsShorter(GitRoot(fs, upper).value, upper); }
    } else {
      NoRootBetween(fs, upper, lower);
    }
  }

  lemma {:induction false} NoRootBetween(fs: Fs, upper: string, lower: string)
    requires Canonical(upper) && Canonical(lower) && upper != "/" && AtOrAbove(upper, lower)
    requires !OwnRootBetween(fs, upper, lower)
    ensures GitRoot(fs, lower) == GitRoot(fs, upper)
    decreases |lower|
  {
    if upper != lower {
      assert lower != "/" && AtOrAbove(lower, lower);
      assert !fs.hasGit(lower);
      var q := Dirname(lower);
      assert forall g :: AtOrAbove(g, q) ==> AtOrAbove(g, lower);
      NoRootBetween(fs, upper, q);
    }
  }

  // ---------------------------------------------------------------- conflicts

  // detectConflict
  function Conflict(fs: Fs, a: string, b: string): bool
    requires fs.Valid()
  {
    var ra, rb := fs.realpath(a), fs.realpath(b);
    if ra == None || rb == None then false
    else if ra == rb then true
    else if StartsWith(ra.value, rb.value + "/") || StartsWith(rb.value, ra.value + "/") then
      var ga, gb := GitRoot(fs, ra.value), GitRoot(fs, rb.value);
      !(ga != None && gb != None && ga != gb)
    else false
  }

  method DetectConflict(fs: Fs, a: string, b: string) returns (conflict: bool)
    requires fs.Valid()
    ensures conflict == Conflict(fs, a, b)
  {
    var ra, rb := fs.realpath(a), fs.realpath(b);
    if ra == None || rb == None { return false; }
    if ra == rb { return true; }
    if StartsWith(ra.value, rb.value + "/") || StartsWith(rb.value, ra.value + "/") {
      var ga := FindGitRoot(fs, ra.value);
      var gb := FindGitRoot(fs, rb.value);
      if ga != None && gb != None && ga != gb { return false; }
      return true;
    }
    return false;
  }

  // In terms of the tree: `upper` is a directory other than the root, strictly above `lower`,
  // and not a git worktree that `lower` has left for one of its own.
  ghost predicate SharesTree(fs: Fs, upper: string, lower: string)
    requires Canonical(upper) && Canonical(lower)
  {
    && upper != "/" && StrictlyAbove(upper, lower)
    && !(GitRoot(fs, upper) != None && OwnRootBetween(fs, upper, lower))
  }

  lemma PrefixConflict(fs: Fs, upper: string, lower: string)
    requires Canonical(upper) && Canonical(lower)
    ensures StartsWith(lower, upper + "/") ==> upper != "/" && StrictlyAbove(upper, lower)
    ensures var gu, gl := GitRoot(fs, upper), GitRoot(fs, lower);
            SharesTree(fs, upper, lower) <==> StartsWith(lower, upper + "/") && !(gu != None && gl != None && gu != gl)
  {
    if upper == "/" {
      assert |lower| >= 2 ==> lower[..2][0] == lower[0] && lower[..2][1] == lower[1];
      assert |lower| >= 2 ==> !(lower[0] == '/' && lower[1] == '/');
      assert upper + "/" == "//";
    } else {
      PrefixTestIsTreeOrder(upper, lower);
      if StrictlyAbove(upper, lower) { GitRootBelow(fs, upper, lower); }
    }
  }

  // Exactly when two working directories conflict.
  lemma ConflictMeans(fs: Fs, a: string, b: string)
    requires fs.Valid()
    ensures Conflict(fs, a, b) <==>
            && fs.realpath(a) != None && fs.realpath(b) != None
            && var ra, rb := fs.realpath(a).value, fs.realpath(b).value;
               ra == rb || SharesTree(fs, ra, rb) || SharesTree(fs, rb, ra)
  {
    if fs.realpath(a) != None && fs.realpath(b) != None {
      PrefixConflict(fs, fs.realpath(a).value, fs.realpath(b).value);
      PrefixConflict(fs, fs.realpath(b).value, fs.realpath(a).value);
    }
  }

  lemma ConflictSymmetric(fs: Fs, a: string, b: string)
    requires fs.Valid()
    ensures Conflict(fs, a, b) == Conflict(fs, b, a)
  {
    ConflictMeans(fs, a, b);
    ConflictMeans(fs, b, a);
  }

  // ---------------------------------------------- the snapshot's conflict map

  lemma {:induction false} RootIsAbove(p: string)
    requires Canonical(p)
    ensures AtOrAbove("/", p)
    decreases |p|
  {
    if p != "/" { RootIsAbove(Dirname(p)); }
  }

  // The root is above every other directory, and yet no session there conflicts with one
  // below it: the prefix tested is "//".
  lemma RootConflictsWithNothingBelow(fs: Fs, a: string, b: string)
    requires fs.Valid() && fs.realpath(a) == Some("/")
    requires fs.realpath(b) != None && fs.realpath(b) != Some("/")
    ensures StrictlyAbove("/", fs.realpath(b).value) && !Conflict(fs, a, b)
  {
    RootIsAbove(fs.realpath(b).value);
    ConflictMeans(fs, a, b);
    AboveIsShorterThanRoot(fs.realpath(b).value);
  }

  lemma AboveIsShorterThanRoot(p: string)
    ensures AtOrAbove(p, "/") ==> p == "/"
  {
  }

  datatype Session = Session(pid: int, cwd: string)

  // The pid of the first other session that conflicts with session i, among the first n.
  function FirstConflict(fs: Fs, sessions: seq<Session>, i: nat, n: nat): Option<int>
    requires fs.Valid() && i < |sessions| && n <= |sessions|
  {
    if n == 0 then None else
    var before := FirstConflict(fs, sessions, i, n - 1);
    if before != None then before
    else if i != n - 1 && Conflict(fs, sessions[i].cwd, sessions[n - 1].cwd) then Some(sessions[n - 1].pid) else None
  }

  // The nested loops of buildSnapshot; a later session of the same pid replaces the entry.
  method ConflictMap(fs: Fs, sessions: seq<Session>) returns (conflicts: map<int, Option<int>>)
    requires fs.Valid()
    ensures conflicts == Conflicts(fs, sessions, |sessions|)
  {
    conflicts := map[];
    var i := 0;
    while i < |sessions|
      invariant 0 <= i <= |sessions| && conflicts == Conflicts(fs, sessions, i)
    {
      var conflictPid: Option<int> := None;
      var j := 0;
      while j < |sessions|
        invariant 0 <= j <= |sessions|
        invariant conflictPid == None && FirstConflict(fs, sessions, i, j) == None
      {
        if i != j {
          var hit := DetectConflict(fs, sessions[i].cwd, sessions[j].cwd);
          if hit {
            conflictPid := Some(sessions[j].pid);
            assert FirstConflict(fs, sessions, i, j + 1) == conflictPid;
            FirstConflictStays(fs, sessions, i, j + 1, |sessions|);
            break;
          }
        }
        j := j + 1;
      }
      conflicts := conflicts[sessions[i].pid := conflictPid];
      i := i + 1;
    }
  }

  function Conflicts(fs: Fs, sessions: seq<Session>, n: nat): map<int, Option<int>>
    requires fs.Valid() && n <= |sessions|
  {
    if n == 0 then map[] else
    Conflicts(fs, sessions, n - 1)[sessions[n - 1].pid := FirstConflict(fs, sessions, n - 1, |sessions|)]
  }

  lemma {:induction false} FirstConflictStays(fs: Fs, sessions: seq<Session>, i: nat, n: nat, m: nat)
    requires fs.Valid() && i < |sessions| && n <= m <= |sessions| && FirstConflict(fs, sessions, i, n) != None
    ensures FirstConflict(fs, sessions, i, m) == FirstConflict(fs, sessions, i, n)
  {
    if n < m { FirstConflictStays(fs, sessions, i, n, m - 1); }
  }

  ghost predicate ConflictsWith(fs: Fs, sessions: seq<Session>, i: nat, j: nat)
    requires fs.Valid() && i < |sessions| && j < |sessions|
  {
    i != j && Conflict(fs, sessions[i].cwd, sessions[j].cwd)
  }

  lemma {:induction false} FirstConflictMeans(fs: Fs, sessions: seq<Session>, i: nat, n: nat)
    requires fs.Valid() && i < |sessions| && n <= |sessions|
    ensures match FirstConflict(fs, sessions, i, n)
            case Some(pid) => exists j :: 0 <= j < n && ConflictsWith(fs, sessions, i, j) && sessions[j].pid == pid
                                && forall k :: 0 <= k < j ==> !ConflictsWith(fs, sessions, i, k)
            case None => forall j :: 0 <= j < n ==> !ConflictsWith(fs, sessions, i, j)
  {
    if n > 0 {
      FirstConflictMeans(fs, sessions, i, n - 1);
      var last := ConflictsWith(fs, sessions, i, n - 1);
    }
  }

  lemma {:induction false} ConflictsOf(fs: Fs, sessions: seq<Session>, n: nat, i: nat)
    requires fs.Valid() && i < n <= |sessions|
    requires forall a, b :: 0 <= a < b < |sessions| ==> sessions[a].pid != sessions[b].pid
    ensures sessions[i].pid in Conflicts(fs, sessions, n)
    ensures Conflicts(fs, sessions, n)[sessions[i].pid] == FirstConflict(fs, sessions, i, |sessions|)
  {
    if i < n - 1 { ConflictsOf(fs, sessions, n - 1, i); }
  }

  // With distinct pids, a session is marked exactly when another conflicts with it, and
  // whoever it is marked with is marked too.
  lemma MarksAreMutual(fs: Fs, sessions: seq<Session>, i: nat)
    requires fs.Valid() && i < |sessions|
    requires forall a, b :: 0 <= a < b < |sessions| ==> sessions[a].pid != sessions[b].pid
    ensures var marks := Conflicts(fs, sessions, |sessions|);
            && sessions[i].pid in marks
            && (marks[sessions[i].pid] != None <==>
                exists j :: 0 <= j < |sessions| && ConflictsWith(fs, sessions, i, j))
            && (marks[sessions[i].pid] != None ==>
                  && marks[sessions[i].pid].value != sessions[i].pid
                  && marks[sessions[i].pid].value in marks && marks[marks[sessions[i].pid].value] != None)
  {
    ConflictsOf(fs, sessions, |sessions|, i);
    FirstConflictMeans(fs, sessions, i, |sessions|);
    if FirstConflict(fs, sessions, i, |sessions|) != None {
      var j :| 0 <= j < |sessions| && ConflictsWith(fs, sessions, i, j)
               && sessions[j].pid == FirstConflict(fs, sessions, i, |sessions|).value;
      ConflictSymmetric(fs, sessions[i].cwd, sessions[j].cwd);
      assert ConflictsWith(fs, sessions, j, i);
      ConflictsOf(fs, sessions, |sessions|, j);
      FirstConflictMeans(fs, sessions, j, |sessions|);
    }
  }
}
