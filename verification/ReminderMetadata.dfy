// src/reminders/metadata.ts: the metadata line printed into a reminder's notes, and the
// regular expression that finds it again.
module ReminderMetadata {
  import opened Common

  datatype Phase = Plan | Exec | Review

  datatype Metadata = Metadata(pid: nat, repo: string, phase: Phase)

  function Word(phase: Phase): (w: string)
    ensures |w| > 0
  {
    match phase case Plan => "plan" case Exec => "exec" case Review => "review"
  }

  // ------------------------------------------- META_LINE, as a set of matches
  //
  //   /^pid:(\d+)\s+repo:([^\s]+)\s+phase:(plan|exec|review)\s*$/m

  // \s of ECMAScript.
  predicate IsSpace(c: char) {
    || '\t' <= c <= '\r' || c == ' ' || c == '\U{A0}' || c == '\U{1680}' || '\U{2000}' <= c <= '\U{200A}'
    || c == '\U{2028}' || c == '\U{2029}' || c == '\U{202F}' || c == '\U{205F}' || c == '\U{3000}' || c == '\U{FEFF}'
  }

  // What ^ and $ stop at under the m flag.
  predicate IsTerminator(c: char) { c == '\n' || c == '\r' || c == '\U{2028}' || c == '\U{2029}' }

  predicate LineStarts(s: string, i: nat) { i == 0 || (i <= |s| && IsTerminator(s[i - 1])) }

  predicate LineEnds(s: string, j: nat) { j == |s| || (j < |s| && IsTerminator(s[j])) }

  predicate At(s: string, k: nat, w: string) {
    k + |w| <= |s| && s[k..k + |w|] == w
  }

  predicate All(s: string, from: nat, to: nat, p: char -> bool) {
    from <= to <= |s| && forall k :: from <= k < to ==> p(s[k])
  }

  predicate NonSpace(c: char) { !IsSpace(c) }

  // A label, then p+ up to v, then \s+ up to next.
  ghost predicate Field(s: string, k: nat, tag: string, p: char -> bool, v: nat, next: nat) {
    && At(s, k, tag)
    && k + |tag| < v && All(s, k + |tag|, v, p)
    && v < next && All(s, v, next, IsSpace)
  }

  // phase:(plan|exec|review)\s*$ up to j.
  ghost predicate Tail(s: string, k: nat, phase: Phase, j: nat) {
    && At(s, k, "phase:") && At(s, k + 6, Word(phase))
    && All(s, k + 6 + |Word(phase)|, j, IsSpace) && LineEnds(s, j)
  }

  // Where the pieces of a match end: the digits at v, the space after them at c, the repo at
  // w, the space after it at f, the whole match at j.
  datatype Cut = Cut(v: nat, c: nat, w: nat, f: nat, j: nat)

  // The expression matches s at i, cut up like this, with these captures.
  ghost predicate MatchesAs(s: string, i: nat, m: Metadata, cut: Cut) {
    && LineStarts(s, i)
    && Field(s, i, "pid:", IsDigit, cut.v, cut.c) && m.pid == ParseDecimal(s[i + 4..cut.v])
    && Field(s, cut.c, "repo:", NonSpace, cut.w, cut.f) && m.repo == s[cut.c + 5..cut.w]
    && Tail(s, cut.f, m.phase, cut.j)
  }

  ghost predicate Matches(s: string, i: nat, m: Metadata) {
    exists cut :: MatchesAs(s, i, m, cut)
  }

  // ------------------------------------------------------- a matcher for it

  function RunEnd(s: string, from: nat, p: char -> bool): (to: nat)
    requires from <= |s|
    ensures All(s, from, to, p)
    ensures to == |s| || !p(s[to])
    decreases |s| - from
  {
    if from < |s| && p(s[from]) then RunEnd(s, from + 1, p) else from
  }

  // One field, greedily: where its value and the space after it end.
  function FieldAt(s: string, k: nat, tag: string, p: char -> bool): Option<(nat, nat)> {
    if !At(s, k, tag) then None else
    var v := RunEnd(s, k + |tag|, p);
    var next := RunEnd(s, v, IsSpace);
    if v == k + |tag| || next == v then None else Some((v, next))
  }

  // \s*$ from k on: a line end is reached over white space only.
  function LineEndAfter(s: string, k: nat): (j: Option<nat>)
    requires k <= |s|
    ensures j != None ==> All(s, k, j.value, IsSpace) && LineEnds(s, j.value)
    decreases |s| - k
  {
    if LineEnds(s, k) then Some(k)
    else if IsSpace(s[k]) then LineEndAfter(s, k + 1) else None
  }

  function PhaseAt(s: string, k: nat): (r: Option<Phase>)
    ensures r != None ==> At(s, k, Word(r.value))
  {
    if At(s, k, "plan") then Some(Plan) else if At(s, k, "exec") then Some(Exec)
    else if At(s, k, "review") then Some(Review) else None
  }

  function TailAt(s: string, k: nat): Option<Phase> {
    if !At(s, k, "phase:") then None else
    var phase := PhaseAt(s, k + 6);
    if phase == None || LineEndAfter(s, k + 6 + |Word(phase.value)|) == None then None else phase
  }

  // repo:([^\s]+)\s+phase:(plan|exec|review)\s*$
  function RepoAt(s: string, c: nat): Option<(string, Phase)> {
    var repo := FieldAt(s, c, "repo:", NonSpace);
    if repo == None then None else
    var phase := TailAt(s, repo.value.1);
    if phase == None || repo.value.0 < c + 5 || repo.value.0 > |s| then None
    else Some((s[c + 5..repo.value.0], phase.value))
  }

  function MatchAt(s: string, i: nat): Option<Metadata> {
    if !LineStarts(s, i) then None else
    var pid := FieldAt(s, i, "pid:", IsDigit);
    if pid == None then None else
    var rest := RepoAt(s, pid.value.1);
    if rest == None || pid.value.0 < i + 4 || pid.value.0 > |s| then None
    else Some(Metadata(ParseDecimal(s[i + 4..pid.value.0]), rest.value.0, rest.value.1))
  }

  // Whatever the matcher accepts is a match.
  lemma MatcherSound(s: string, i: nat)
    ensures MatchAt(s, i) != None ==> Matches(s, i, MatchAt(s, i).value)
  {
    if MatchAt(s, i) != None {
      var (v, c) := FieldAt(s, i, "pid:", IsDigit).value;
      FieldSound(s, i, "pid:", IsDigit);
      var w, f, j := RepoSound(s, c);
      assert MatchesAs(s, i, MatchAt(s, i).value, Cut(v, c, w, f, j));
    }
  }

  lemma FieldSound(s: string, k: nat, tag: string, p: char -> bool)
    ensures var r := FieldAt(s, k, tag, p); r != None ==> Field(s, k, tag, p, r.value.0, r.value.1)
  {
  }

  lemma RepoSound(s: string, c: nat) returns (w: nat, f: nat, j: nat)
    requires RepoAt(s, c) != None
    ensures var (repo, phase) := RepoAt(s, c).value;
            && Field(s, c, "repo:", NonSpace, w, f) && repo == s[c + 5..w] && Tail(s, f, phase, j)
  {
    w, f := FieldAt(s, c, "repo:", NonSpace).value.0, FieldAt(s, c, "repo:", NonSpace).value.1;
    FieldSound(s, c, "repo:", NonSpace);
    j := TailSound(s, f);
  }

  lemma TailSound(s: string, k: nat) returns (j: nat)
    requires TailAt(s, k) != None
    ensures Tail(s, k, TailAt(s, k).value, j)
  {
    j := LineEndAfter(s, k + 6 + |Word(TailAt(s, k).value)|).value;
  }

  // ------------------------------------------- nothing is left to backtracking

  lemma AtChar(s: string, k: nat, w: string, q: nat)
    requires At(s, k, w) && q < |w|
    ensures s[k + q] == w[q]
  {
    assert s[k..k + |w|][q] == w[q];
  }

  lemma {:induction false} RunEndIs(s: string, from: nat, to: nat, p: char -> bool)
    requires All(s, from, to, p) && (to == |s| || !p(s[to]))
    ensures RunEnd(s, from, p) == to
    decreases |s| - from
  {
    if from < to { RunEndIs(s, from + 1, to, p); }
  }

  // A field followed by something other than white space can be cut in one way only.
  lemma FieldForced(s: string, k: nat, tag: string, p: char -> bool, v: nat, next: nat)
    requires Field(s, k, tag, p, v, next) && next < |s| && !IsSpace(s[next])
    requires forall c :: p(c) ==> !IsSpace(c)
    ensures FieldAt(s, k, tag, p) == Some((v, next))
  {
    RunEndIs(s, k + |tag|, v, p);
    RunEndIs(s, v, next, IsSpace);
  }

  lemma PhaseForced(s: string, k: nat, phase: Phase)
    requires At(s, k, Word(phase))
    ensures PhaseAt(s, k) == Some(phase)
  {
    AtChar(s, k, Word(phase), 0);
    if At(s, k, "plan") { AtChar(s, k, "plan", 0); }
    if At(s, k, "exec") { AtChar(s, k, "exec", 0); }
  }

  lemma {:induction false} LineEndAfterComplete(s: string, k: nat, j: nat)
    requires All(s, k, j, IsSpace) && LineEnds(s, j)
    ensures LineEndAfter(s, k) != None
    decreases |s| - k
  {
    if !LineEnds(s, k) { LineEndAfterComplete(s, k + 1, j); }
  }

  lemma TailForced(s: string, k: nat, phase: Phase, j: nat)
    requires Tail(s, k, phase, j)
    ensures TailAt(s, k) == Some(phase)
  {
    PhaseForced(s, k + 6, phase);
    LineEndAfterComplete(s, k + 6 + |Word(phase)|, j);
  }

  lemma RepoForced(s: string, c: nat, w: nat, f: nat, phase: Phase, j: nat)
    requires Field(s, c, "repo:", NonSpace, w, f) && Tail(s, f, phase, j)
    ensures RepoAt(s, c) == Some((s[c + 5..w], phase))
  {
    AtChar(s, f, "phase:", 0);
    FieldForced(s, c, "repo:", NonSpace, w, f);
    TailForced(s, f, phase, j);
  }

  // Every match at i has the captures the matcher finds.
  lemma MatchForced(s: string, i: nat, m: Metadata, cut: Cut)
    requires MatchesAs(s, i, m, cut)
    ensures MatchAt(s, i) == Some(m)
  {
    RepoForced(s, cut.c, cut.w, cut.f, m.phase, cut.j);
    AtChar(s, cut.c, "repo:", 0);
    FieldForced(s, i, "pid:", IsDigit, cut.v, cut.c);
  }

  // The matcher decides the expression: it finds exactly the captures of every match.
  lemma MatcherIsExpression(s: string, i: nat, m: Metadata)
    ensures MatchAt(s, i) == Some(m) <==> Matches(s, i, m)
  {
    MatcherSound(s, i);
    if Matches(s, i, m) {
      var cut :| MatchesAs(s, i, m, cut);
      MatchForced(s, i, m, cut);
    }
  }

  // --------------------------------------------------------------- the parser

  // The first of f's answers for from, from + 1, ..., from + n - 1.
  function FirstSome<T>(f: nat -> Option<T>, from: nat, n: nat): Option<T>
    decreases n
  {
    if n == 0 then None else if f(from) != None then f(from) else FirstSome(f, from + 1, n - 1)
  }

  lemma {:induction false} FirstSomeFound<T>(f: nat -> Option<T>, from: nat, n: nat) returns (k: nat)
    requires FirstSome(f, from, n) != None
    ensures from <= k < from + n && f(k) == FirstSome(f, from, n)
    ensures forall q :: from <= q < k ==> f(q) == None
    decreases n
  {
    k := from;
    if f(from) == None { k := FirstSomeFound(f, from + 1, n - 1); }
  }

  lemma {:induction false} FirstSomeMissed<T>(f: nat -> Option<T>, from: nat, n: nat)
    requires FirstSome(f, from, n) == None
    ensures forall q :: from <= q < from + n ==> f(q) == None
    decreases n
  {
    if n > 0 { FirstSomeMissed(f, from + 1, n - 1); }
  }

  lemma {:induction false} FirstSomeLocal<T>(f: nat -> Option<T>, g: nat -> Option<T>, from: nat, n: nat)
    requires forall k :: from <= k < from + n ==> f(k) == g(k)
    ensures FirstSome(f, from, n) == FirstSome(g, from, n)
    decreases n
  {
    if n > 0 { FirstSomeLocal(f, g, from + 1, n - 1); }
  }

  lemma {:induction false} FirstSomeSplit<T>(f: nat -> Option<T>, from: nat, n: nat, more: nat)
    ensures FirstSome(f, from, n + more) ==
            if FirstSome(f, from, n) != None then FirstSome(f, from, n) else FirstSome(f, from + n, more)
    decreases n
  {
    if n > 0 { FirstSomeSplit(f, from + 1, n - 1, more); }
  }

  function First<T>(f: nat -> Option<T>, n: nat): Option<T> { FirstSome(f, 0, n) }

  function Or<T>(a: Option<T>, b: T): Option<T> { if a.Some? then a else Some(b) }

  // A text of n + 1 positions continued after two more by a match.
  lemma FirstSomeContinued<T>(f: nat -> Option<T>, g: nat -> Option<T>, n: nat, total: nat, m: T)
    requires forall i :: 0 <= i < n ==> f(i) == g(i)
    requires g(n) == f(n) == f(n + 1) == None && f(n + 2) == Some(m) && total >= n + 3
    ensures First(f, total) == Or(First(g, n + 1), m)
  {
    var more := total - n;
    FirstSomeLocal(f, g, 0, n);
    FirstSomeSplit(f, 0, n, more);
    FirstSomeSplit(g, 0, n, 1);
    assert FirstSome(f, n, more) == FirstSome(f, n + 1, more - 1) == FirstSome(f, n + 2, more - 2);
  }

  function MatcherOf(s: string): nat -> Option<Metadata> { (i: nat) => MatchAt(s, i) }

  // parseTodoMetadata; None is the empty object. String.match returns the leftmost match.
  function ParseMetadata(notes: Option<string>): Option<Metadata> {
    if notes == None || notes.value == "" then None
    else FirstSome(MatcherOf(notes.value), 0, |notes.value| + 1)
  }

  // What the parser returns is the captures of the leftmost match of the expression, and
  // nothing exactly when the expression matches nowhere.
  lemma ParserFindsLeftmostMatch(s: string)
    ensures match ParseMetadata(Some(s))
            case Some(m) => exists i: nat :: Matches(s, i, m) && NoMatchBefore(s, i)
            case None => forall i: nat :: NoMatchBefore(s, i)
  {
    ParseIsFirstMatch(s);
    if ParseMetadata(Some(s)) == None {
      FirstSomeMissed(MatcherOf(s), 0, |s| + 1);
      forall i: nat ensures NoMatchBefore(s, i) { SilentBefore(s, i); }
    } else {
      MatcherOfIsSound(s);
      var i := ParsedMatch(s, MatcherOf(s), ParseMetadata(Some(s)).value);
      SilentBefore(s, i);
    }
  }

  ghost predicate NoMatchBefore(s: string, i: nat) {
    forall k: nat, m :: k < i ==> !Matches(s, k, m)
  }

  lemma SilentBefore(s: string, i: nat)
    requires forall q: nat :: q < i && q <= |s| ==> MatcherOf(s)(q) == None
    ensures NoMatchBefore(s, i)
  {
    forall k: nat, m | k < i ensures !Matches(s, k, m) {
      MatcherIsExpression(s, k, m);
      assert MatcherOf(s)(k) == MatchAt(s, k);
    }
  }

  // Whatever f answers is a match.
  ghost predicate Sound(f: nat -> Option<Metadata>, s: string) {
    forall i: nat :: f(i) != None ==> Matches(s, i, f(i).value)
  }

  lemma MatcherOfIsSound(s: string)
    ensures Sound(MatcherOf(s), s)
  {
    forall i: nat | MatcherOf(s)(i) != None ensures Matches(s, i, MatcherOf(s)(i).value) {
      MatcherIs(s, i);
      MatcherSound(s, i);
    }
  }

  lemma ParsedMatch(s: string, f: nat -> Option<Metadata>, m: Metadata) returns (i: nat)
    requires Sound(f, s) && First(f, |s| + 1) == Some(m)
    ensures Matches(s, i, m)
    ensures forall q :: 0 <= q < i ==> f(q) == None
  {
    i := FirstSomeFound(f, 0, |s| + 1);
  }

  lemma MatcherIs(s: string, i: nat)
    ensures MatcherOf(s)(i) == MatchAt(s, i)
  {
  }

  // -------------------------------------------------------------- round trips

  function FormatMetadata(m: Metadata): string {
    "pid:" + Decimal(m.pid) + " repo:" + m.repo + " phase:" + Word(m.phase)
  }

  // The notes addTodo writes.
  function ComposeNotes(prose: Option<string>, m: Metadata): string {
    if prose == None || prose.value == "" then FormatMetadata(m) else Composed(prose.value, m)
  }

  function Composed(prose: string, m: Metadata): string { prose + "\n\n" + FormatMetadata(m) }

  predicate ValidRepo(repo: string) { repo != "" && All(repo, 0, |repo|, NonSpace) }

  lemma AllOfPart(s: string, a: nat, b: nat, p: char -> bool)
    requires a <= b <= |s|
    ensures All(s, a, b, p) <==> All(s[a..b], 0, b - a, p)
  {
    if All(s[a..b], 0, b - a, p) {
      forall k | a <= k < b ensures p(s[k]) { assert s[a..b][k - a] == s[k]; }
    }
  }

  lemma FieldPrinted(before: string, tag: string, value: string, after: string, p: char -> bool)
    requires value != "" && All(value, 0, |value|, p)
    ensures var s := before + (tag + value + " " + after);
            var v := |before| + |tag| + |value|;
            Field(s, |before|, tag, p, v, v + 1) && s[|before| + |tag|..v] == value
  {
    var s := before + (tag + value + " " + after);
    var k := |before| + |tag|;
    assert s[|before|..k] == tag && s[k..k + |value|] == value && s[k + |value|] == ' ';
    AllOfPart(s, k, k + |value|, p);
  }

  lemma TailPrinted(before: string, phase: Phase)
    ensures var s := before + ("phase:" + Word(phase)); Tail(s, |before|, phase, |s|)
  {
    var s := before + ("phase:" + Word(phase));
    assert s[|before|..|before| + 6] == "phase:" && s[|before| + 6..|s|] == Word(phase);
  }

  lemma Regroup<T>(x: seq<T>, a: seq<T>, d: seq<T>, sp: seq<T>, b: seq<T>, r: seq<T>, c: seq<T>, w: seq<T>)
    ensures x + (a + d + (sp + b) + r + (sp + c) + w) == x + (a + d + sp + (b + r + sp + (c + w)))
    ensures x + (a + d + sp + (b + r + sp + (c + w))) == x + a + d + sp + (b + r + sp + (c + w))
    ensures x + a + d + sp + (b + r + sp + (c + w)) == x + a + d + sp + b + r + sp + (c + w)
  {
  }

  function TailOf(m: Metadata): string { "phase:" + Word(m.phase) }

  function RestOf(m: Metadata): string { "repo:" + m.repo + " " + TailOf(m) }

  // The text up to the repo, and up to the phase.
  function UpToRepo(before: string, m: Metadata): string { before + "pid:" + Decimal(m.pid) + " " }

  function UpToPhase(before: string, m: Metadata): string { UpToRepo(before, m) + "repo:" + m.repo + " " }

  lemma FormattedLineIs(before: string, m: Metadata)
    ensures before + FormatMetadata(m) == before + ("pid:" + Decimal(m.pid) + " " + RestOf(m))
    ensures before + FormatMetadata(m) == UpToRepo(before, m) + RestOf(m)
    ensures before + FormatMetadata(m) == UpToPhase(before, m) + TailOf(m)
  {
    assert " repo:" == " " + "repo:" && " phase:" == " " + "phase:";
    Regroup(before, "pid:", Decimal(m.pid), " ", "repo:", m.repo, "phase:", Word(m.phase));
  }

  function FormattedCut(before: string, m: Metadata): Cut {
    var c, f := |UpToRepo(before, m)|, |UpToPhase(before, m)|;
    Cut(c - 1, c, f - 1, f, |before + FormatMetadata(m)|)
  }

  lemma FormattedPid(before: string, m: Metadata, s: string, cut: Cut)
    requires s == before + FormatMetadata(m) && cut == FormattedCut(before, m)
    ensures Field(s, |before|, "pid:", IsDigit, cut.v, cut.c) && s[|before| + 4..cut.v] == Decimal(m.pid)
  {
    FormattedLineIs(before, m);
    FieldPrinted(before, "pid:", Decimal(m.pid), RestOf(m), IsDigit);
  }

  lemma FormattedRepo(before: string, m: Metadata, s: string, cut: Cut)
    requires ValidRepo(m.repo)
    requires s == before + FormatMetadata(m) && cut == FormattedCut(before, m)
    ensures Field(s, cut.c, "repo:", NonSpace, cut.w, cut.f) && s[cut.c + 5..cut.w] == m.repo
  {
    FormattedLineIs(before, m);
    FieldPrinted(UpToRepo(before, m), "repo:", m.repo, TailOf(m), NonSpace);
  }

  lemma FormattedTail(before: string, m: Metadata, s: string, cut: Cut)
    requires s == before + FormatMetadata(m) && cut == FormattedCut(before, m)
    ensures Tail(s, cut.f, m.phase, cut.j)
  {
    FormattedLineIs(before, m);
    TailPrinted(UpToPhase(before, m), m.phase);
  }

  lemma PartsMatch(s: string, i: nat, m: Metadata, cut: Cut)
    requires LineStarts(s, i) && Tail(s, cut.f, m.phase, cut.j)
    requires Field(s, i, "pid:", IsDigit, cut.v, cut.c) && s[i + 4..cut.v] == Decimal(m.pid)
    requires Field(s, cut.c, "repo:", NonSpace, cut.w, cut.f) && s[cut.c + 5..cut.w] == m.repo
    ensures MatchAt(s, i) == Some(m)
  {
    DecimalRoundTrip(m.pid);
    MatchForced(s, i, m, cut);
  }

  lemma FormattedPartsMatch(before: string, m: Metadata, s: string, cut: Cut)
    requires ValidRepo(m.repo) && LineStarts(s, |before|)
    requires s == before + FormatMetadata(m) && cut == FormattedCut(before, m)
    ensures MatchAt(s, |before|) == Some(m)
  {
    FormattedPid(before, m, s, cut);
    FormattedRepo(before, m, s, cut);
    FormattedTail(before, m, s, cut);
    PartsMatch(s, |before|, m, cut);
  }

  // The formatted line is a match wherever a line starts and the text ends with it.
  lemma FormattedLineMatches(before: string, m: Metadata)
    requires ValidRepo(m.repo) && LineStarts(before + FormatMetadata(m), |before|)
    ensures MatchAt(before + FormatMetadata(m), |before|) == Some(m)
  {
    FormattedPartsMatch(before, m, before + FormatMetadata(m), FormattedCut(before, m));
  }

  lemma AtCovers(s: string, k: nat, w: string, n: nat)
    requires At(s, k, w) && k <= n
    ensures n < k + |w| ==> s[n] in w
  {
    if n < k + |w| { AtChar(s, k, w, n - k); }
  }

  lemma SameStart(prose: string, rest: string, k: nat, w: string)
    requires k + |w| <= |prose|
    ensures At(prose + rest, k, w) <==> At(prose, k, w)
  {
    assert (prose + rest)[k..k + |w|] == prose[k..k + |w|];
  }

  lemma SameRun(prose: string, rest: string, from: nat, to: nat, p: char -> bool)
    requires from <= to <= |prose|
    ensures All(prose + rest, from, to, p) <==> All(prose, from, to, p)
  {
    assert forall k :: from <= k < to ==> (prose + rest)[k] == prose[k];
  }

  // A field that starts in the prose and is followed by another label ends in the prose too:
  // the text after the blank line starts with "pid:", which no later label can match.
  lemma FieldStaysInProse(prose: string, line: string, k: nat, tag: string, p: char -> bool, v: nat, next: nat,
      follow: string)
    requires At(line, 0, "pid:") && k <= |prose|
    requires '\n' !in tag && !p('\n') && (follow == "repo:" || follow == "phase:")
    requires Field(prose + "\n\n" + line, k, tag, p, v, next) && At(prose + "\n\n" + line, next, follow)
    ensures next <= |prose| && Field(prose, k, tag, p, v, next)
  {
    var rest := "\n\n" + line;
    var s, n := prose + "\n\n" + line, |prose|;
    assert s == prose + rest && s[n] == '\n' && s[n + 1] == '\n';
    AtChar(line, 0, "pid:", 0);
    AtChar(line, 0, "pid:", 1);
    assert s[n + 2] == line[0] && s[n + 3] == line[1];
    AtCovers(s, k, tag, n);
    assert v <= n;
    AtChar(s, next, follow, 0);
    AtChar(s, next, follow, 1);
    assert next <= n + 2;
    assert next <= n;
    SameStart(prose, rest, k, tag);
    SameRun(prose, rest, k + |tag|, v, p);
    SameRun(prose, rest, v, next, IsSpace);
  }

  lemma TailStaysInProse(prose: string, line: string, k: nat, phase: Phase)
    requires k <= |prose|
    ensures (exists j :: Tail(prose + "\n\n" + line, k, phase, j)) <==> (exists j :: Tail(prose, k, phase, j))
  {
    var rest := "\n\n" + line;
    var s, n, w := prose + "\n\n" + line, |prose|, Word(phase);
    assert s == prose + rest && s[n] == '\n';
    if j: nat :| Tail(s, k, phase, j) {
      AtCovers(s, k, "phase:", n);
      AtCovers(s, k + 6, w, n);
      SameStart(prose, rest, k, "phase:");
      SameStart(prose, rest, k + 6, w);
      var end := if j < n then j else n;
      SameRun(prose, rest, k + 6 + |w|, end, IsSpace);
      assert Tail(prose, k, phase, end);
    }
    if j: nat :| Tail(prose, k, phase, j) {
      SameStart(prose, rest, k, "phase:");
      SameStart(prose, rest, k + 6, w);
      SameRun(prose, rest, k + 6 + |w|, j, IsSpace);
      assert Tail(s, k, phase, j);
    }
  }

  lemma FieldExtends(prose: string, rest: string, k: nat, tag: string, p: char -> bool, v: nat, next: nat)
    requires Field(prose, k, tag, p, v, next)
    ensures Field(prose + rest, k, tag, p, v, next)
  {
    SameStart(prose, rest, k, tag);
    SameRun(prose, rest, k + |tag|, v, p);
    SameRun(prose, rest, v, next, IsSpace);
  }

  lemma SameSlice<T>(prose: seq<T>, rest: seq<T>, a: nat, b: nat)
    requires a <= b <= |prose|
    ensures (prose + rest)[a..b] == prose[a..b]
  {
  }

  lemma SameLineStart(prose: string, rest: string, i: nat)
    requires i <= |prose|
    ensures LineStarts(prose + rest, i) <==> LineStarts(prose, i)
  {
    assert i > 0 ==> (prose + rest)[i - 1] == prose[i - 1];
  }

  // Everything of a match but its tail, which may reach further.
  ghost predicate HeadAs(s: string, i: nat, m: Metadata, cut: Cut) {
    && LineStarts(s, i)
    && Field(s, i, "pid:", IsDigit, cut.v, cut.c) && m.pid == ParseDecimal(s[i + 4..cut.v])
    && Field(s, cut.c, "repo:", NonSpace, cut.w, cut.f) && m.repo == s[cut.c + 5..cut.w]
  }

  lemma HeadStays(prose: string, rest: string, i: nat, m: Metadata, cut: Cut)
    requires HeadAs(prose + rest, i, m, cut) && i < |prose|
    requires Field(prose, i, "pid:", IsDigit, cut.v, cut.c) && Field(prose, cut.c, "repo:", NonSpace, cut.w, cut.f)
    ensures HeadAs(prose, i, m, cut)
  {
    SameLineStart(prose, rest, i);
    SameSlice(prose, rest, i + 4, cut.v);
    SameSlice(prose, rest, cut.c + 5, cut.w);
  }

  lemma HeadSurvives(prose: string, rest: string, i: nat, m: Metadata, cut: Cut)
    requires HeadAs(prose, i, m, cut)
    ensures HeadAs(prose + rest, i, m, cut)
  {
    FieldExtends(prose, rest, i, "pid:", IsDigit, cut.v, cut.c);
    FieldExtends(prose, rest, cut.c, "repo:", NonSpace, cut.w, cut.f);
    SameLineStart(prose, rest, i);
    SameSlice(prose, rest, i + 4, cut.v);
    SameSlice(prose, rest, cut.c + 5, cut.w);
  }

  lemma HeadAndTail(s: string, i: nat, m: Metadata, cut: Cut, j: nat)
    requires HeadAs(s, i, m, cut) && Tail(s, cut.f, m.phase, j)
    ensures Matches(s, i, m)
  {
    assert MatchesAs(s, i, m, cut.(j := j));
  }

  lemma MatchStaysInProse(prose: string, line: string, i: nat, m: Metadata, cut: Cut)
    requires At(line, 0, "pid:") && i < |prose| && MatchesAs(prose + "\n\n" + line, i, m, cut)
    ensures Matches(prose, i, m)
  {
    FieldStaysInProse(prose, line, i, "pid:", IsDigit, cut.v, cut.c, "repo:");
    FieldStaysInProse(prose, line, cut.c, "repo:", NonSpace, cut.w, cut.f, "phase:");
    ConcatAssoc(prose, "\n\n", line);
    HeadStays(prose, "\n\n" + line, i, m, cut);
    TailStaysInProse(prose, line, cut.f, m.phase);
    var j: nat :| Tail(prose, cut.f, m.phase, j);
    HeadAndTail(prose, i, m, cut, j);
  }

  lemma MatchSurvives(prose: string, line: string, i: nat, m: Metadata, cut: Cut)
    requires i < |prose| && MatchesAs(prose, i, m, cut)
    ensures Matches(prose + "\n\n" + line, i, m)
  {
    ConcatAssoc(prose, "\n\n", line);
    HeadSurvives(prose, "\n\n" + line, i, m, cut);
    TailStaysInProse(prose, line, cut.f, m.phase);
    var j: nat :| Tail(prose + "\n\n" + line, cut.f, m.phase, j);
    HeadAndTail(prose + "\n\n" + line, i, m, cut, j);
  }

  // No match can straddle the blank line: inside the prose exactly the prose's own matches exist.
  lemma ProseKeepsItsMatches(prose: string, line: string, i: nat, m: Metadata)
    requires At(line, 0, "pid:") && i < |prose|
    ensures Matches(prose + "\n\n" + line, i, m) <==> Matches(prose, i, m)
  {
    if Matches(prose + "\n\n" + line, i, m) {
      var cut :| MatchesAs(prose + "\n\n" + line, i, m, cut);
      MatchStaysInProse(prose, line, i, m, cut);
    }
    if Matches(prose, i, m) {
      var cut :| MatchesAs(prose, i, m, cut);
      MatchSurvives(prose, line, i, m, cut);
    }
  }

  lemma SameAnswer(prose: string, line: string, i: nat, m: Metadata)
    requires At(line, 0, "pid:") && i < |prose|
    ensures MatcherOf(prose + "\n\n" + line)(i) == Some(m) <==> MatcherOf(prose)(i) == Some(m)
  {
    ProseKeepsItsMatches(prose, line, i, m);
    MatcherIsExpression(prose + "\n\n" + line, i, m);
    MatcherIsExpression(prose, i, m);
  }

  lemma ProseMatchAgrees(prose: string, line: string, i: nat)
    requires At(line, 0, "pid:") && i < |prose|
    ensures MatcherOf(prose + "\n\n" + line)(i) == MatcherOf(prose)(i)
  {
    var a, b := MatcherOf(prose + "\n\n" + line)(i), MatcherOf(prose)(i);
    if a != None { SameAnswer(prose, line, i, a.value); }
    if b != None { SameAnswer(prose, line, i, b.value); }
  }

  lemma NoMatchWithoutLabel(s: string, i: nat)
    requires i < |s| ==> s[i] != 'p'
    ensures MatcherOf(s)(i) == None
  {
    if At(s, i, "pid:") { AtChar(s, i, "pid:", 0); }
  }

  lemma MatchAfterProse(prose: string, m: Metadata)
    requires ValidRepo(m.repo)
    ensures var s := Composed(prose, m);
            && MatcherOf(s)(|prose|) == None && MatcherOf(s)(|prose| + 1) == None
            && MatcherOf(s)(|prose| + 2) == Some(m)
  {
    var line := FormatMetadata(m);
    var s, n := prose + "\n\n" + line, |prose|;
    assert s[n] == '\n' && s[n + 1] == '\n';
    NoMatchWithoutLabel(s, n);
    NoMatchWithoutLabel(s, n + 1);
    FormattedLineMatches(prose + "\n\n", m);
  }

  // Parsing what addTodo composed: the prose's own first metadata line wins if it has one,
  // otherwise the metadata comes back.
  lemma ComposedNotesParse(prose: string, m: Metadata)
    requires ValidRepo(m.repo)
    ensures ParseMetadata(Some(Composed(prose, m))) ==
            if ParseMetadata(Some(prose)) != None then ParseMetadata(Some(prose)) else Some(m)
  {
    ParseIsFirstMatch(Composed(prose, m));
    ParseIsFirstMatch(prose);
    ComposedFirstMatch(prose, m);
  }

  // The empty text needs no special case.
  lemma ParseIsFirstMatch(s: string)
    ensures ParseMetadata(Some(s)) == First(MatcherOf(s), |s| + 1)
  {
    if s == "" {
      NoMatchWithoutLabel(s, 0);
      assert FirstSome(MatcherOf(s), 0, 1) == None;
    }
  }

  lemma ComposedFirstMatch(prose: string, m: Metadata)
    requires ValidRepo(m.repo)
    ensures First(MatcherOf(Composed(prose, m)), |Composed(prose, m)| + 1)
         == Or(First(MatcherOf(prose), |prose| + 1), m)
  {
    ProseAgrees(prose, m);
    MatchAfterProse(prose, m);
    FirstSomeContinued(MatcherOf(Composed(prose, m)), MatcherOf(prose), |prose|, |Composed(prose, m)| + 1, m);
  }

  lemma ProseAgrees(prose: string, m: Metadata)
    ensures forall i: nat :: i < |prose| ==> MatcherOf(Composed(prose, m))(i) == MatcherOf(prose)(i)
    ensures MatcherOf(prose)(|prose|) == None
  {
    var line := FormatMetadata(m);
    LineHasLabel(m);
    forall i: nat | i < |prose| ensures MatcherOf(prose + "\n\n" + line)(i) == MatcherOf(prose)(i) {
      ProseMatchAgrees(prose, line, i);
    }
    NoMatchWithoutLabel(prose, |prose|);
  }

  lemma LineHasLabel(m: Metadata)
    ensures At(FormatMetadata(m), 0, "pid:")
  {
    assert FormatMetadata(m)[0..4] == "pid:";
  }

  // Whatever is parsed has a usable repo name.
  lemma ParsedRepoIsValid(s: string)
    ensures ParseMetadata(Some(s)) != None ==> ValidRepo(ParseMetadata(Some(s)).value.repo)
  {
    ParseIsFirstMatch(s);
    if ParseMetadata(Some(s)) != None {
      MatcherOfIsSound(s);
      var i := ParsedMatch(s, MatcherOf(s), ParseMetadata(Some(s)).value);
      MatchedRepoIsValid(s, i, ParseMetadata(Some(s)).value);
    }
  }

  lemma MatchedRepoIsValid(s: string, i: nat, m: Metadata)
    requires Matches(s, i, m)
    ensures ValidRepo(m.repo)
  {
    var cut :| MatchesAs(s, i, m, cut);
    AllOfPart(s, cut.c + 5, cut.w, NonSpace);
  }

  // The line alone comes back exactly when its repo is non-empty and free of white space.
  lemma FormattedLineParsesExactlyWhen(m: Metadata)
    ensures ParseMetadata(Some(FormatMetadata(m))) == Some(m) <==> ValidRepo(m.repo)
  {
    if ValidRepo(m.repo) {
      assert "" + FormatMetadata(m) == FormatMetadata(m);
      FormattedLineMatches("", m);
      MatcherIs(FormatMetadata(m), 0);
      ParseIsFirstMatch(FormatMetadata(m));
      FoundAtOnce(MatcherOf(FormatMetadata(m)), |FormatMetadata(m)| + 1);
    } else {
      ParsedRepoIsValid(FormatMetadata(m));
    }
  }

  lemma FoundAtOnce<T>(f: nat -> Option<T>, n: nat)
    requires n > 0 && f(0) != None
    ensures First(f, n) == f(0)
  {
  }

  // addTodo's own round trip: the metadata comes back exactly when its repo is non-empty and
  // free of white space, and the prose alone holds no other metadata first.
  lemma AddedTodoParsesExactlyWhen(prose: Option<string>, m: Metadata)
    ensures ParseMetadata(Some(ComposeNotes(prose, m))) == Some(m) <==>
      ValidRepo(m.repo) && (ParseMetadata(prose) == None || ParseMetadata(prose) == Some(m))
  {
    if !ValidRepo(m.repo) {
      ParsedRepoIsValid(ComposeNotes(prose, m));
    } else if prose == None || prose.value == "" {
      FormattedLineParsesExactlyWhen(m);
    } else {
      ComposedNotesParse(prose.value, m);
    }
  }

  // What a reminder's notes look like, to the letter.
  lemma WrittenOut(repo: string)
    ensures FormatMetadata(Metadata(1234, repo, Plan)) == "pid:" + "1234" + " repo:" + repo + " phase:" + "plan"
    ensures FormatMetadata(Metadata(99, repo, Exec)) == "pid:" + "99" + " repo:" + repo + " phase:" + "exec"
    ensures FormatMetadata(Metadata(0, repo, Review)) == "pid:" + "0" + " repo:" + repo + " phase:" + "review"
  {
    DecimalsWrittenOut();
  }

  lemma DecimalsWrittenOut()
    ensures Decimal(1234) == "1234" && Decimal(99) == "99" && Decimal(0) == "0"
  {
    assert Decimal(12) == "12";
    assert Decimal(123) == "123";
  }

  // The metadata line follows the prose after an empty line, or stands alone.
  lemma NotesWrittenOut(prose: Option<string>, m: Metadata)
    ensures prose == None || prose.value == "" ==> ComposeNotes(prose, m) == FormatMetadata(m)
    ensures prose != None && prose.value != "" ==>
              ComposeNotes(prose, m)[..|prose.value|] == prose.value
              && ComposeNotes(prose, m)[|prose.value|..] == ['\n', '\n'] + FormatMetadata(m)
  {
  }

  // Prose that quotes another todo's line takes over.
  lemma QuotedLineWins(other: Metadata, m: Metadata)
    requires other != m && ValidRepo(other.repo) && ValidRepo(m.repo)
    ensures ParseMetadata(Some(ComposeNotes(Some(FormatMetadata(other)), m))) == Some(other)
  {
    FormattedLineParsesExactlyWhen(other);
    ComposedNotesParse(FormatMetadata(other), m);
  }
}
