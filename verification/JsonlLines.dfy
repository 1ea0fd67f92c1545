// src/jsonl/parser.ts, readJsonlTailLines: which lines a window of the last bytes holds.
module JsonlLines {
  import opened Common

  newtype byte = x: int | 0 <= x < 256
  type Line = seq<byte>

  const NEWLINE: byte := 10

  // text.split("\n")
  function Split(s: seq<byte>): (r: seq<Line>)
    ensures |r| > 0
  {
    if s == [] then [[]]
    else if s[0] == NEWLINE then [[]] + Split(s[1..])
    else Lengthened(s[0], Split(s[1..]))
  }

  // One more letter at the front of the first line.
  function Lengthened<T>(x: T, lines: seq<seq<T>>): (r: seq<seq<T>>)
    requires |lines| > 0
    ensures |r| == |lines| && r[0] == [x] + lines[0] && r[1..] == lines[1..]
  {
    [[x] + lines[0]] + lines[1..]
  }

  // lines.filter(l => l.trim().length > 0)
  function NonBlank<T>(isBlank: T -> bool, lines: seq<T>): seq<T> {
    if lines == [] then [] else
    NonBlank(isBlank, lines[..|lines| - 1])
    + if isBlank(lines[|lines| - 1]) then [] else [lines[|lines| - 1]]
  }

  // None stands for a file that cannot be opened or read; a negative window makes
  // Buffer.alloc throw.
  function TailLines(isBlank: Line -> bool, file: Option<seq<byte>>, maxBytes: int): (lines: seq<Line>)
    ensures file == None || maxBytes < 0 ==> lines == []
  {
    if file == None then [] else
    var size := |file.value|;
    var toRead := if size < maxBytes then size else maxBytes;
    if toRead < 0 then [] else
    NonBlank(isBlank, Split(file.value[size - toRead..]))
  }

  // The lines a full read gives.
  function AllLines(isBlank: Line -> bool, file: seq<byte>): seq<Line> {
    NonBlank(isBlank, Split(file))
  }

  // A proper part of a line of the file, cut at its front.
  ghost predicate StrictSuffixOfLine(file: seq<byte>, part: Line) {
    exists m, n :: 0 <= m < |Split(file)| && 0 < n <= |Split(file)[m]| && part == Split(file)[m][n..]
  }

  // r is p followed by q, with the last line of p and the first line of q made one.
  ghost predicate Joined<T>(p: seq<seq<T>>, q: seq<seq<T>>, r: seq<seq<T>>) {
    && |p| > 0 && |q| > 0 && |r| == |p| - 1 + |q|
    && (forall i :: 0 <= i < |p| - 1 ==> r[i] == p[i])
    && r[|p| - 1] == p[|p| - 1] + q[0]
    && r[|p|..] == q[1..]
  }

  lemma JoinedLengthened<T>(x: T, p: seq<seq<T>>, q: seq<seq<T>>, r: seq<seq<T>>)
    requires Joined(p, q, r)
    ensures Joined(Lengthened(x, p), q, Lengthened(x, r))
  {
    var p', r' := Lengthened(x, p), Lengthened(x, r);
    if |p| == 1 {
      assert [x] + (p[0] + q[0]) == ([x] + p[0]) + q[0];
      assert r'[1..] == r[1..];
    } else {
      forall i | 0 < i < |p| ensures p'[i] == p[i] && r'[i] == r[i] {
        assert p'[1..][i - 1] == p[1..][i - 1] && r'[1..][i - 1] == r[1..][i - 1];
      }
      assert r'[|p|..] == r'[1..][|p| - 1..] == r[1..][|p| - 1..] == r[|p|..];
    }
  }

  lemma JoinedNewline<T>(p: seq<seq<T>>, q: seq<seq<T>>, r: seq<seq<T>>)
    requires Joined(p, q, r)
    ensures Joined([[]] + p, q, [[]] + r)
  {
    assert ([[]] + r)[|p| + 1..] == r[|p|..];
  }

  // Splitting a concatenation joins the lines of the two parts.
  lemma {:induction false} SplitConcat(a: seq<byte>, b: seq<byte>)
    ensures Joined(Split(a), Split(b), Split(a + b))
  {
    if a == [] {
      assert a + b == b;
      assert [] + Split(b)[0] == Split(b)[0];
    } else {
      SplitConcat(a[1..], b);
      assert (a + b)[1..] == a[1..] + b && (a + b)[0] == a[0];
      if a[0] == NEWLINE {
        JoinedNewline(Split(a[1..]), Split(b), Split(a[1..] + b));
      } else {
        JoinedLengthened(a[0], Split(a[1..]), Split(b), Split(a[1..] + b));
      }
    }
  }

  // ------------------------------------------------ what splitting means

  // The lines with a single line feed between them.
  function Unsplit(lines: seq<Line>): seq<byte>
    requires |lines| > 0
  {
    if |lines| == 1 then lines[0] else lines[0] + [10] + Unsplit(lines[1..])
  }

  ghost predicate NoLineFeeds(lines: seq<Line>) {
    forall i :: 0 <= i < |lines| ==> 10 !in lines[i]
  }

  lemma {:induction false} SplitUnsplits(s: seq<byte>)
    ensures Unsplit(Split(s)) == s && NoLineFeeds(Split(s))
  {
    if s != [] {
      SplitUnsplits(s[1..]);
      if s[0] == 10 {
        UnsplitAfterFeed(Split(s[1..]));
      } else {
        UnsplitLengthened(s[0], Split(s[1..]));
      }
      assert s == [s[0]] + s[1..];
    }
  }

  lemma UnsplitAfterFeed(lines: seq<Line>)
    requires |lines| > 0 && NoLineFeeds(lines)
    ensures Unsplit([[]] + lines) == [10] + Unsplit(lines) && NoLineFeeds([[]] + lines)
  {
    assert ([[]] + lines)[1..] == lines;
  }

  lemma UnsplitLengthened(x: byte, lines: seq<Line>)
    requires |lines| > 0 && NoLineFeeds(lines) && x != 10
    ensures Unsplit(Lengthened(x, lines)) == [x] + Unsplit(lines) && NoLineFeeds(Lengthened(x, lines))
  {
    var more := Lengthened(x, lines);
    forall i | 0 <= i < |more| ensures 10 !in more[i] {
      if i > 0 { assert more[i] == more[1..][i - 1] == lines[i]; }
    }
    if |lines| > 1 {
      ConcatAssoc([x], lines[0], [10] + Unsplit(lines[1..]));
      ConcatAssoc([x] + lines[0], [10], Unsplit(lines[1..]));
      ConcatAssoc(lines[0], [10], Unsplit(lines[1..]));
    }
  }

  lemma {:induction false} SplitOfLine(line: Line, rest: seq<byte>)
    requires 10 !in line
    ensures Split(line) == [line] && Split(line + [10] + rest) == [line] + Split(rest)
  {
    var whole := line + [10] + rest;
    if line == [] {
      assert whole == [10] + rest && whole[1..] == rest;
    } else {
      SplitOfLine(line[1..], rest);
      assert line == [line[0]] + line[1..] && line[0] in line;
      assert whole[0] == line[0] && whole[1..] == line[1..] + [10] + rest;
      assert Lengthened(line[0], [line[1..]] + Split(rest)) == [line] + Split(rest);
    }
  }

  lemma {:induction false} SplitOfUnsplit(lines: seq<Line>)
    requires |lines| > 0 && NoLineFeeds(lines)
    ensures Split(Unsplit(lines)) == lines
  {
    if |lines| == 1 {
      SplitOfLine(lines[0], []);
    } else {
      assert forall i :: 0 <= i < |lines[1..]| ==> lines[1..][i] == lines[i + 1];
      SplitOfUnsplit(lines[1..]);
      SplitOfLine(lines[0], Unsplit(lines[1..]));
    }
  }

  // The lines of a text are the one way to write it as lines without line feeds, joined by
  // line feeds.
  lemma SplitIsExactly(s: seq<byte>, lines: seq<Line>)
    ensures lines == Split(s) <==> |lines| > 0 && NoLineFeeds(lines) && Unsplit(lines) == s
  {
    SplitUnsplits(s);
    if |lines| > 0 && NoLineFeeds(lines) { SplitOfUnsplit(lines); }
  }

  // r is the lines at these positions, in order, and they are those that are not blank.
  ghost predicate KeepsAt<T>(isBlank: T -> bool, lines: seq<T>, r: seq<T>, kept: seq<nat>) {
    && Picks(lines, r, kept)
    && (forall k: nat :: k < |lines| ==> (k in kept <==> !isBlank(lines[k])))
  }

  lemma KeepsNext<T>(isBlank: T -> bool, lines: seq<T>, r: seq<T>, kept: seq<nat>, x: T)
    requires KeepsAt(isBlank, lines, r, kept)
    ensures isBlank(x) ==> KeepsAt(isBlank, lines + [x], r, kept)
    ensures !isBlank(x) ==> KeepsAt(isBlank, lines + [x], r + [x], kept + [|lines|])
  {
    PicksNext(lines, r, kept, x);
  }

  // The filter keeps exactly the lines that are not blank, in order.
  lemma {:induction false} NonBlankKeeps<T>(isBlank: T -> bool, lines: seq<T>) returns (kept: seq<nat>)
    ensures KeepsAt(isBlank, lines, NonBlank(isBlank, lines), kept)
  {
    if lines == [] {
      kept := [];
    } else {
      var n := |lines| - 1;
      kept := NonBlankKeeps(isBlank, lines[..n]);
      KeepsNext(isBlank, lines[..n], NonBlank(isBlank, lines[..n]), kept, lines[n]);
      assert lines[..n] + [lines[n]] == lines;
      if !isBlank(lines[n]) { kept := kept + [n]; }
    }
  }

  // ------------------------------------------------ what a window holds

  // Where line m starts; past the end, where another line would.
  function LineStart(lines: seq<Line>, m: nat): nat
    requires m <= |lines|
  {
    if m == 0 then 0 else LineStart(lines, m - 1) + |lines[m - 1]| + 1
  }

  lemma {:induction false} LineStartsAscend(lines: seq<Line>, i: nat, j: nat)
    requires i < j <= |lines|
    ensures LineStart(lines, i) < LineStart(lines, j)
  {
    if i < j - 1 { LineStartsAscend(lines, i, j - 1); }
  }

  lemma {:induction false} SameStarts(a: seq<Line>, b: seq<Line>, m: nat)
    requires m <= |a| && m <= |b| && forall i :: 0 <= i < m ==> a[i] == b[i]
    ensures LineStart(a, m) == LineStart(b, m)
  {
    if m > 0 { SameStarts(a, b, m - 1); }
  }

  lemma {:induction false} StartsBehind(lines: seq<Line>, m: nat)
    requires 0 < m <= |lines|
    ensures LineStart(lines, m) == |lines[0]| + 1 + LineStart(lines[1..], m - 1)
  {
    if m > 1 { StartsBehind(lines, m - 1); }
  }

  lemma {:induction false} LengthOfUnsplit(lines: seq<Line>)
    requires |lines| > 0
    ensures LineStart(lines, |lines|) == |Unsplit(lines)| + 1
  {
    if |lines| > 1 {
      LengthOfUnsplit(lines[1..]);
      StartsBehind(lines, |lines|);
    }
  }

  // The lines of the end of a text: all that start in it, and in front of them what is left
  // of the line it cuts, if it cuts one.
  lemma SplitOfEnd(file: seq<byte>, from: nat) returns (m: nat)
    requires from <= |file|
    ensures m <= |Split(file)|
    ensures forall i: nat :: i < |Split(file)| ==> (LineStart(Split(file), i) >= from <==> i >= m)
    ensures m == 0 ==> from == 0
    ensures m > 0 ==> from - LineStart(Split(file), m - 1) <= |Split(file)[m - 1]| + 1
    ensures Split(file[from..]) == CutLine(Split(file), m, from) + Split(file)[m..]
  {
    assert file[..from] + file[from..] == file;
    SplitConcat(file[..from], file[from..]);
    SplitUnsplits(file[..from]);
    LengthOfUnsplit(Split(file[..from]));
    m := EndOfJoined(Split(file[..from]), Split(file[from..]), Split(file), from);
  }

  lemma EndOfJoined(a: seq<Line>, w: seq<Line>, lines: seq<Line>, from: nat) returns (m: nat)
    requires Joined(a, w, lines) && LineStart(a, |a|) == from + 1
    ensures m <= |lines|
    ensures forall i: nat :: i < |lines| ==> (LineStart(lines, i) >= from <==> i >= m)
    ensures m == 0 ==> from == 0
    ensures m > 0 ==> from - LineStart(lines, m - 1) <= |lines[m - 1]| + 1
    ensures w == CutLine(lines, m, from) + lines[m..]
  {
    var last := |a| - 1;
    SameStarts(a, lines, last);
    if a[last] == [] {
      m := last;
      StartsFrom(lines, m, from);
      JoinedAtStart(a, w, lines);
    } else {
      m := last + 1;
      StartsFrom(lines, m, from);
      JoinedInLine(a, w, lines);
    }
  }

  // The lines that start at `from` or later, when line m does and the one before it does not.
  lemma StartsFrom(lines: seq<Line>, m: nat, from: nat)
    requires m <= |lines| && LineStart(lines, m) >= from && (m > 0 ==> LineStart(lines, m - 1) < from)
    ensures forall i: nat :: i < |lines| ==> (LineStart(lines, i) >= from <==> i >= m)
  {
    forall i: nat | i < |lines| ensures LineStart(lines, i) >= from <==> i >= m {
      if i < m - 1 { LineStartsAscend(lines, i, m - 1); }
      if i > m { LineStartsAscend(lines, m, i); }
    }
  }

  lemma JoinedAtStart<T>(a: seq<seq<T>>, w: seq<seq<T>>, lines: seq<seq<T>>)
    requires Joined(a, w, lines) && a[|a| - 1] == []
    ensures w == lines[|a| - 1..]
  {
    var m := |a| - 1;
    assert lines[m] == w[0];
    assert lines[m..] == [lines[m]] + lines[m + 1..] == [w[0]] + w[1..] == w;
  }

  lemma JoinedInLine<T>(a: seq<seq<T>>, w: seq<seq<T>>, lines: seq<seq<T>>)
    requires Joined(a, w, lines)
    ensures w == [lines[|a| - 1][|a[|a| - 1]|..]] + lines[|a|..]
  {
    assert lines[|a| - 1][|a[|a| - 1]|..] == w[0];
    assert w == [w[0]] + w[1..];
  }

  // What is left of the line before line m from an offset on, unless line m starts there.
  function CutLine(lines: seq<Line>, m: nat, from: nat): seq<Line>
    requires m <= |lines|
    requires m > 0 ==> from - LineStart(lines, m - 1) <= |lines[m - 1]| + 1
  {
    if m == 0 || from <= LineStart(lines, m - 1) || from == LineStart(lines, m) then []
    else [lines[m - 1][from - LineStart(lines, m - 1)..]]
  }

  // readJsonlTailLines in terms of the file: of the lines that start in its last maxBytes
  // bytes exactly the non-blank ones, after what is left of a line cut at their front.
  lemma TailHoldsLinesThatStartInIt(isBlank: Line -> bool, file: seq<byte>, maxBytes: nat) returns (m: nat)
    ensures m <= |Split(file)|
    ensures forall i: nat :: i < |Split(file)| ==> (LineStart(Split(file), i) >= |file| - maxBytes <==> i >= m)
    ensures m > 0 ==> |file| - maxBytes - LineStart(Split(file), m - 1) <= |Split(file)[m - 1]| + 1
    ensures m > 0 ==> maxBytes < |file|
    ensures TailLines(isBlank, Some(file), maxBytes) ==
            (if m == 0 then [] else NonBlank(isBlank, CutLine(Split(file), m, |file| - maxBytes)))
            + NonBlank(isBlank, Split(file)[m..])
  {
    if |file| <= maxBytes {
      m := 0;
      assert file[0..] == file && Split(file)[0..] == Split(file);
    } else {
      m := SplitOfEnd(file, |file| - maxBytes);
      NonBlankConcat(isBlank, CutLine(Split(file), m, |file| - maxBytes), Split(file)[m..]);
    }
  }

  lemma {:induction false} NonBlankConcat<T>(isBlank: T -> bool, a: seq<T>, b: seq<T>)
    ensures NonBlank(isBlank, a + b) == NonBlank(isBlank, a) + NonBlank(isBlank, b)
  {
    if b == [] {
      assert a + b == a;
    } else {
      NonBlankConcat(isBlank, a, b[..|b| - 1]);
      assert (a + b)[..|a + b| - 1] == a + b[..|b| - 1];
    }
  }

  // The non-blank lines of the end of a file are the last non-blank lines of the file.
  lemma NonBlankOfSuffix<T>(isBlank: T -> bool, lines: seq<T>, from: nat)
    requires from <= |lines|
    ensures |NonBlank(isBlank, lines[from..])| <= |NonBlank(isBlank, lines)|
    ensures NonBlank(isBlank, lines)[|NonBlank(isBlank, lines)| - |NonBlank(isBlank, lines[from..])|..] ==
        NonBlank(isBlank, lines[from..])
  {
    assert lines[..from] + lines[from..] == lines;
    NonBlankConcat(isBlank, lines[..from], lines[from..]);
  }

  lemma NonBlankOfCons<T>(isBlank: T -> bool, lines: seq<T>)
    requires lines != []
    ensures NonBlank(isBlank, lines) == (if isBlank(lines[0]) then [] else [lines[0]]) + NonBlank(isBlank, lines[1..])
  {
    assert [lines[0]] + lines[1..] == lines;
    NonBlankConcat(isBlank, [lines[0]], lines[1..]);
    assert [lines[0]][..0] == [];
  }

  // Any window of any file: at most one cut line, then exactly the last k non-blank lines of
  // the file; all of them when the window covers the file.
  lemma WindowHoldsLastLines(isBlank: Line -> bool, file: seq<byte>, maxBytes: nat) returns (cut: seq<Line>, k: nat)
    ensures k <= |AllLines(isBlank, file)|
    ensures TailLines(isBlank, Some(file), maxBytes) == cut + AllLines(isBlank, file)[|AllLines(isBlank, file)| - k..]
    ensures cut == [] || (|cut| == 1 && StrictSuffixOfLine(file, cut[0]) && !isBlank(cut[0]))
    ensures maxBytes >= |file| ==> cut == [] && k == |AllLines(isBlank, file)|
  {
    var toRead := if |file| < maxBytes then |file| else maxBytes;
    var before, window := file[..|file| - toRead], file[|file| - toRead..];
    assert before + window == file;
    assert toRead == |file| ==> before == [];
    cut, k := WindowAfter(isBlank, before, window);
  }

  lemma WindowAfter(isBlank: Line -> bool, before: seq<byte>, window: seq<byte>) returns (cut: seq<Line>, k: nat)
    ensures var all := AllLines(isBlank, before + window);
            k <= |all| && NonBlank(isBlank, Split(window)) == cut + all[|all| - k..]
    ensures cut == [] || (|cut| == 1 && StrictSuffixOfLine(before + window, cut[0]) && !isBlank(cut[0]))
    ensures before == [] ==> cut == [] && k == |AllLines(isBlank, before + window)|
  {
    SplitConcat(before, window);
    cut, k := LinesAfterCut(isBlank, Split(before), Split(window), Split(before + window));
    if cut != [] {
      var m := |Split(before)| - 1;
      var n := |Split(before)[m]|;
      assert 0 < n <= |Split(before + window)[m]| && cut[0] == Split(before + window)[m][n..];
    }
  }

  lemma LinesAfterCut<T>(isBlank: seq<T> -> bool, a: seq<seq<T>>, w: seq<seq<T>>, full: seq<seq<T>>)
      returns (cut: seq<seq<T>>, k: nat)
    requires Joined(a, w, full)
    ensures var all := NonBlank(isBlank, full);
            k <= |all| && NonBlank(isBlank, w) == cut + all[|all| - k..]
    ensures var head := a[|a| - 1];
            cut == [] || (cut == [full[|a| - 1][|head|..]] && head != [] && !isBlank(cut[0]))
    ensures a == [[]] ==> cut == [] && k == |NonBlank(isBlank, full)|
  {
    var m := |a| - 1;
    if a[m] == [] {
      assert full[m] == w[0];
      assert full[m..] == [full[m]] + full[m + 1..] == [w[0]] + w[1..] == w;
      cut, k := [], |NonBlank(isBlank, w)|;
      NonBlankOfSuffix(isBlank, full, m);
    } else {
      cut, k := if isBlank(w[0]) then [] else [w[0]], |NonBlank(isBlank, w[1..])|;
      NonBlankOfCons(isBlank, w);
      NonBlankOfSuffix(isBlank, full, m + 1);
      assert full[m][|a[m]|..] == w[0];
    }
  }
}
