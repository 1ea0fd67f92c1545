// src/timeseries/prometheus.ts: the text body of GET /metrics.
module Prometheus {
  import opened Common
  import opened Timeseries

  // ------------------------------------------------------------- label values

  // v.replace(/c/g, by)
  function Replace(v: string, c: char, with: string): string {
    if v == "" then "" else (if v[0] == c then with else [v[0]]) + Replace(v[1..], c, with)
  }

  // escapeLabel: backslashes first, then quotes, then line feeds.
  function EscapeLabel(v: string): string {
    Replace(Replace(Replace(v, '\\', "\\\\"), '"', "\\\""), '\n', "\\n")
  }

  // What the exposition format asks of each character, in one pass.
  function EscapeChar(c: char): string {
    if c == '\\' then "\\\\" else if c == '"' then "\\\"" else if c == '\n' then "\\n" else [c]
  }

  function Escape(v: string): string {
    if v == "" then "" else EscapeChar(v[0]) + Escape(v[1..])
  }

  lemma {:induction false} ReplaceConcat(a: string, b: string, c: char, with: string)
    ensures Replace(a + b, c, with) == Replace(a, c, with) + Replace(b, c, with)
  {
    if a == "" {
      assert a + b == b;
    } else {
      ReplaceConcat(a[1..], b, c, with);
      assert (a + b)[1..] == a[1..] + b && (a + b)[0] == a[0];
      ConcatAssoc(if a[0] == c then with else [a[0]], Replace(a[1..], c, with), Replace(b, c, with));
    }
  }

  // A character that is not the one replaced.
  lemma ReplaceOther(x: char, c: char, with: string)
    ensures Replace([x], c, with) == if x == c then with else [x]
  {
    assert [x][1..] == "";
  }

  lemma ReplacePair(x: char, y: char, c: char, with: string)
    requires x != c && y != c
    ensures Replace([x, y], c, with) == [x, y]
  {
    ReplaceOther(x, c, with);
    ReplaceOther(y, c, with);
    ReplaceConcat([x], [y], c, with);
    assert [x] + [y] == [x, y];
  }

  lemma EscapeLabelChar(c: char)
    ensures EscapeLabel([c]) == EscapeChar(c)
  {
    ReplaceOther(c, '\\', "\\\\");
    if c == '\\' {
      ReplacePair('\\', '\\', '"', "\\\"");
      ReplacePair('\\', '\\', '\n', "\\n");
    } else {
      ReplaceOther(c, '"', "\\\"");
      if c == '"' {
        ReplacePair('\\', '"', '\n', "\\n");
      } else {
        ReplaceOther(c, '\n', "\\n");
      }
    }
  }

  // No replacement touches what an earlier one wrote: the three passes are one.
  lemma {:induction false} EscapeIsOnePass(v: string)
    ensures EscapeLabel(v) == Escape(v)
  {
    if v != "" {
      var one, rest := [v[0]], v[1..];
      assert v == one + rest;
      EscapeIsOnePass(rest);
      EscapeLabelChar(v[0]);
      ReplaceConcat(one, rest, '\\', "\\\\");
      var a, b := Replace(one, '\\', "\\\\"), Replace(rest, '\\', "\\\\");
      ReplaceConcat(a, b, '"', "\\\"");
      ReplaceConcat(Replace(a, '"', "\\\""), Replace(b, '"', "\\\""), '\n', "\\n");
    }
  }

  // A scraper reading a quoted label value up to its closing quote: the value, and the text
  // behind the quote.
  function ReadLabel(s: string): Option<(string, string)> {
    if s == "" || s[0] == '\n' then None
    else if s[0] == '"' then Some(("", s[1..]))
    else if s[0] != '\\' then Longer(s[0], ReadLabel(s[1..]))
    else if |s| == 1 then None
    else if s[1] == 'n' then Longer('\n', ReadLabel(s[2..]))
    else if s[1] == '\\' || s[1] == '"' then Longer(s[1], ReadLabel(s[2..]))
    else None
  }

  function Longer(c: char, r: Option<(string, string)>): Option<(string, string)> {
    if r == None then None else Some(([c] + r.value.0, r.value.1))
  }

  // Escaping is undone by reading: no quote inside ends the value early, and every
  // character comes back.
  lemma {:induction false} EscapedLabelReadsBack(v: string, rest: string)
    ensures ReadLabel(EscapeLabel(v) + "\"" + rest) == Some((v, rest))
  {
    EscapeIsOnePass(v);
    EscapeReadsBack(v, rest);
  }

  lemma CharReadsBack(c: char, more: string)
    ensures ReadLabel(EscapeChar(c) + more) == Longer(c, ReadLabel(more))
  {
    assert (EscapeChar(c) + more)[|EscapeChar(c)|..] == more;
  }

  lemma {:induction false} EscapeReadsBack(v: string, rest: string)
    ensures ReadLabel(Escape(v) + "\"" + rest) == Some((v, rest))
  {
    var s := Escape(v) + "\"" + rest;
    if v == "" {
      assert s == "\"" + rest && s[1..] == rest;
    } else {
      EscapeReadsBack(v[1..], rest);
      var more := Escape(v[1..]) + "\"" + rest;
      assert s == EscapeChar(v[0]) + more;
      CharReadsBack(v[0], more);
      assert [v[0]] + v[1..] == v;
    }
  }

  lemma {:induction false} EscapedLabelIsOneLine(v: string)
    ensures '\n' !in EscapeLabel(v)
  {
    EscapeIsOnePass(v);
    if v != "" {
      EscapeIsOnePass(v[1..]);
      EscapedLabelIsOneLine(v[1..]);
    }
  }

  // ------------------------------------------------------------ the aggregate

  const STATUSES := [AwaitingUserInput, ToolPending, Crashed, Working, Idle]

  function StatusWord(status: RefinedStatus): string {
    match status
    case AwaitingUserInput => "awaiting_user_input"
    case ToolPending => "tool_pending"
    case Crashed => "crashed"
    case Working => "working"
    case Idle => "idle"
  }

  // How many samples have this provider and this status.
  function Count(samples: seq<Sample>, provider: string, status: RefinedStatus): nat {
    if samples == [] then 0 else
    Count(samples[..|samples| - 1], provider, status)
    + if samples[|samples| - 1].provider == provider && samples[|samples| - 1].status == status then 1 else 0
  }

  // The keys of the map, in the order in which they were first set.
  function Keys(samples: seq<Sample>): (keys: seq<string>)
    ensures forall p :: p in keys <==> exists i :: 0 <= i < |samples| && samples[i].provider == p
    ensures Distinct(keys)
  {
    if samples == [] then [] else
    var keys, last := Keys(samples[..|samples| - 1]), samples[|samples| - 1];
    assert samples == samples[..|samples| - 1] + [last];
    if last.provider in keys then keys else keys + [last.provider]
  }

  type Matrix<K> = map<K, map<RefinedStatus, nat>>

  // out.get(provider)?.get(status) ?? 0
  function Get<K>(out: Matrix<K>, provider: K, status: RefinedStatus): nat {
    if provider in out && status in out[provider] then out[provider][status] else 0
  }

  // The map's keys are exactly these, and no count is zero.
  ghost predicate HasKeys<K(!new)>(keys: seq<K>, out: Matrix<K>) {
    && (forall p :: p in out <==> p in keys)
    && (forall p, status :: p in out && status in out[p] ==> out[p][status] > 0)
  }

  // One turn of the loop: one more of this provider and status, and a new key goes last.
  method CountOne<K(==, !new)>(keys: seq<K>, out: Matrix<K>, provider: K, status: RefinedStatus)
    returns (keys2: seq<K>, out2: Matrix<K>)
    requires HasKeys(keys, out)
    ensures HasKeys(keys2, out2)
    ensures keys2 == if provider in keys then keys else keys + [provider]
    ensures forall p, st :: Get(out2, p, st) == Get(out, p, st) + if p == provider && st == status then 1 else 0
  {
    keys2, out2 := keys, out;
    if provider !in out {
      keys2, out2 := keys + [provider], out[provider := map[]];
    }
    var perProvider := out2[provider];
    var n := if status in perProvider then perProvider[status] else 0;
    out2 := out2[provider := perProvider[status := n + 1]];
  }

  // The loop counts every sample under its provider and status.
  method AggregateSessions(samples: seq<Sample>) returns (keys: seq<string>, out: Matrix<string>)
    ensures keys == Keys(samples) && HasKeys(keys, out)
    ensures forall p, status :: Get(out, p, status) == Count(samples, p, status)
  {
    keys, out := [], map[];
    var i := 0;
    while i < |samples|
      invariant 0 <= i <= |samples|
      invariant keys == Keys(samples[..i]) && HasKeys(keys, out)
      invariant forall p, status :: Get(out, p, status) == Count(samples[..i], p, status)
    {
      keys, out := CountOne(keys, out, samples[i].provider, samples[i].status);
      assert samples[..i + 1][..i] == samples[..i];
      i := i + 1;
    }
    assert samples[..i] == samples;
  }

  // ---------------------------------------------------------- provider order

  // The order of Array.prototype.sort on strings.
  predicate Less(a: string, b: string)
    decreases |a|
  {
    b != "" && (a == "" || a[0] < b[0] || (a[0] == b[0] && Less(a[1..], b[1..])))
  }

  // The strings part at k, and a is the shorter one there or has the smaller character.
  predicate PartsAt(a: string, b: string, k: nat) {
    k <= |a| && k < |b| && a[..k] == b[..k] && (k < |a| ==> a[k] < b[k])
  }

  lemma {:induction false} LessMeans(a: string, b: string)
    ensures Less(a, b) <==> exists k: nat :: PartsAt(a, b, k)
    decreases |a|
  {
    if b != "" && a != "" && a[0] == b[0] {
      LessMeans(a[1..], b[1..]);
      if k: nat :| PartsAt(a[1..], b[1..], k) { PartsBehind(a, b, k); }
      if k: nat :| PartsAt(a, b, k) { PartsBehind(a, b, k - 1); }
    } else if Less(a, b) {
      assert PartsAt(a, b, 0);
    } else {
      forall k: nat ensures !PartsAt(a, b, k) {
        if 0 < k <= |a| && k < |b| { assert a[..k][0] == a[0] && b[..k][0] == b[0]; }
      }
    }
  }

  lemma PartsBehind(a: string, b: string, k: nat)
    requires a != "" && b != "" && a[0] == b[0]
    ensures PartsAt(a, b, k + 1) <==> PartsAt(a[1..], b[1..], k)
  {
    if k <= |a[1..]| && k <= |b[1..]| {
      assert a[..k + 1] == [a[0]] + a[1..][..k] && b[..k + 1] == [b[0]] + b[1..][..k];
      assert a[..k + 1][1..] == a[1..][..k] && b[..k + 1][1..] == b[1..][..k];
    }
  }

  lemma {:induction false} LessTotal(a: string, b: string)
    ensures a == b || Less(a, b) || Less(b, a)
    decreases |a|
  {
    if a != "" && b != "" && a[0] == b[0] {
      LessTotal(a[1..], b[1..]);
      assert a == [a[0]] + a[1..] && b == [b[0]] + b[1..];
    }
  }

  lemma {:induction false} LessAsymmetric(a: string, b: string)
    requires Less(a, b)
    ensures !Less(b, a)
    decreases |a|
  {
    if a != "" && a[0] == b[0] {
      LessAsymmetric(a[1..], b[1..]);
    }
  }

  lemma {:induction false} LessTransitive(a: string, b: string, c: string)
    requires Less(a, b) && Less(b, c)
    ensures Less(a, c)
    decreases |a|
  {
    if a != "" && a[0] == b[0] == c[0] {
      LessTransitive(a[1..], b[1..], c[1..]);
    }
  }

  ghost predicate Ascending(keys: seq<string>) {
    forall i, j :: 0 <= i < j < |keys| ==> Less(keys[i], keys[j])
  }

  // Place one more key.
  function Insert(key: string, sorted: seq<string>): (r: seq<string>)
    ensures forall k :: k in r <==> k == key || k in sorted
  {
    if sorted == [] then [key]
    else
      assert sorted == [sorted[0]] + sorted[1..];
      if Less(key, sorted[0]) then [key] + sorted
      else [sorted[0]] + Insert(key, sorted[1..])
  }

  function Sort(keys: seq<string>): (r: seq<string>)
    ensures forall k :: k in r <==> k in keys
  {
    if keys == [] then [] else
    assert keys == [keys[0]] + keys[1..];
    Insert(keys[0], Sort(keys[1..]))
  }

  lemma ConsAscends(key: string, rest: seq<string>)
    requires Ascending(rest) && forall k :: k in rest ==> Less(key, k)
    ensures Ascending([key] + rest)
  {
    var r := [key] + rest;
    forall i, j | 0 <= i < j < |r| ensures Less(r[i], r[j]) {
      assert r[j] == rest[j - 1] && (i > 0 ==> r[i] == rest[i - 1]);
      assert r[j] in rest;
    }
  }

  lemma {:induction false} InsertAscends(key: string, sorted: seq<string>)
    requires Ascending(sorted) && key !in sorted
    ensures Ascending(Insert(key, sorted))
  {
    if sorted != [] {
      var rest := sorted[1..];
      assert sorted == [sorted[0]] + rest;
      if Less(key, sorted[0]) {
        forall k | k in sorted && k != sorted[0] ensures Less(key, k) {
          LessTransitive(key, sorted[0], k);
        }
        ConsAscends(key, sorted);
      } else {
        LessTotal(key, sorted[0]);
        InsertAscends(key, rest);
        ConsAscends(sorted[0], Insert(key, rest));
      }
    }
  }

  lemma {:induction false} SortAscends(keys: seq<string>)
    requires Distinct(keys)
    ensures Ascending(Sort(keys))
  {
    if keys != [] {
      assert keys[0] !in keys[1..];
      SortAscends(keys[1..]);
      InsertAscends(keys[0], Sort(keys[1..]));
    }
  }

  lemma HasElement<T(!new)>(s: seq<T>)
    requires s != []
    ensures exists x :: x in s
  {
    assert s[0] in s;
  }

  // A set of keys has one ascending order only.
  lemma {:induction false} AscendingIsUnique(a: seq<string>, b: seq<string>)
    requires Ascending(a) && Ascending(b) && forall k :: k in a <==> k in b
    ensures a == b
    decreases |a|
  {
    if a == [] {
      if b != [] { HasElement(b); }
    } else {
      assert a[0] in a && a[0] in b;
      assert b[0] in b && b[0] in a;
      if a[0] != b[0] {
        assert Less(a[0], b[0]) && Less(b[0], a[0]);
        LessAsymmetric(a[0], b[0]);
      }
      assert a == [a[0]] + a[1..] && b == [b[0]] + b[1..];
      FirstIsLeast(a);
      FirstIsLeast(b);
      assert forall k :: k in a <==> k == a[0] || k in a[1..];
      assert forall k :: k in b <==> k == b[0] || k in b[1..];
      AscendingIsUnique(a[1..], b[1..]);
    }
  }

  lemma FirstIsLeast(a: seq<string>)
    requires Ascending(a) && a != []
    ensures a[0] !in a[1..] && Ascending(a[1..])
  {
    forall i, j | 0 <= i < j < |a[1..]| ensures Less(a[1..][i], a[1..][j]) {
      assert Less(a[i + 1], a[j + 1]);
    }
    if a[0] in a[1..] {
      var k :| 0 <= k < |a[1..]| && a[1..][k] == a[0];
      assert Less(a[0], a[k + 1]);
      LessAsymmetric(a[0], a[0]);
    }
  }

  function Providers(samples: seq<Sample>): (r: seq<string>)
    ensures forall p :: p in r <==> exists i :: 0 <= i < |samples| && samples[i].provider == p
  {
    Sort(Keys(samples))
  }

  // ------------------------------------------------------ the sessions_total rows

  datatype Point = Point(provider: string, status: RefinedStatus, count: nat)

  // The five rows of one provider.
  function PointsOf(samples: seq<Sample>, provider: string): (r: seq<Point>)
    ensures |r| == |STATUSES|
    ensures forall j :: 0 <= j < |STATUSES| ==>
      r[j] == Point(provider, STATUSES[j], Count(samples, provider, STATUSES[j]))
  {
    seq(|STATUSES|, j requires 0 <= j < |STATUSES| =>
      Point(provider, STATUSES[j], Count(samples, provider, STATUSES[j])))
  }

  function PointsFor(samples: seq<Sample>, providers: seq<string>): seq<Point> {
    if providers == [] then []
    else PointsFor(samples, providers[..|providers| - 1]) + PointsOf(samples, providers[|providers| - 1])
  }

  function Points(samples: seq<Sample>): seq<Point> {
    if samples == [] then [Point("none", Idle, 0)] else PointsFor(samples, Providers(samples))
  }

  function Total(points: seq<Point>): nat {
    if points == [] then 0 else Total(points[..|points| - 1]) + points[|points| - 1].count
  }

  lemma {:induction false} TotalConcat(a: seq<Point>, b: seq<Point>)
    ensures Total(a + b) == Total(a) + Total(b)
  {
    if b == [] {
      assert a + b == a;
    } else {
      TotalConcat(a, b[..|b| - 1]);
      assert (a + b)[..|a + b| - 1] == a + b[..|b| - 1];
    }
  }

  // One more sample adds one to the five rows of its own provider.
  lemma TotalOfProvider(samples: seq<Sample>, provider: string)
    requires samples != []
    ensures Total(PointsOf(samples, provider)) == Total(PointsOf(samples[..|samples| - 1], provider))
                                                  + if samples[|samples| - 1].provider == provider then 1 else 0
  {
    FiveCounts(PointsOf(samples, provider));
    FiveCounts(PointsOf(samples[..|samples| - 1], provider));
  }

  lemma FiveCounts(p: seq<Point>)
    requires |p| == 5
    ensures Total(p) == p[0].count + p[1].count + p[2].count + p[3].count + p[4].count
  {
    assert p == [p[0]] + [p[1]] + [p[2]] + [p[3]] + [p[4]];
    TotalConcat([p[0]] + [p[1]] + [p[2]] + [p[3]], [p[4]]);
    TotalConcat([p[0]] + [p[1]] + [p[2]], [p[3]]);
    TotalConcat([p[0]] + [p[1]], [p[2]]);
    TotalConcat([p[0]], [p[1]]);
  }

  lemma {:induction false} TotalOfProviders(samples: seq<Sample>, providers: seq<string>)
    requires samples != [] && Distinct(providers)
    ensures Total(PointsFor(samples, providers)) == Total(PointsFor(samples[..|samples| - 1], providers))
                                                    + if samples[|samples| - 1].provider in providers then 1 else 0
    decreases |providers|
  {
    if providers != [] {
      var fewer, p := providers[..|providers| - 1], providers[|providers| - 1];
      var before := samples[..|samples| - 1];
      assert providers == fewer + [p] && p !in fewer;
      TotalOfProviders(samples, fewer);
      TotalOfProvider(samples, p);
      TotalConcat(PointsFor(samples, fewer), PointsOf(samples, p));
      TotalConcat(PointsFor(before, fewer), PointsOf(before, p));
    }
  }

  lemma {:induction false} TotalIsCount(samples: seq<Sample>, providers: seq<string>)
    requires Distinct(providers) && forall i :: 0 <= i < |samples| ==> samples[i].provider in providers
    ensures Total(PointsFor(samples, providers)) == |samples|
    decreases |samples|, |providers|
  {
    if samples == [] {
      if providers != [] {
        TotalIsCount(samples, providers[..|providers| - 1]);
        FiveCounts(PointsOf(samples, providers[|providers| - 1]));
        TotalConcat(PointsFor(samples, providers[..|providers| - 1]), PointsOf(samples, providers[|providers| - 1]));
      }
    } else {
      TotalOfProviders(samples, providers);
      TotalIsCount(samples[..|samples| - 1], providers);
    }
  }

  lemma ProvidersAscend(samples: seq<Sample>)
    ensures Ascending(Providers(samples)) && Distinct(Providers(samples))
  {
    SortAscends(Keys(samples));
    var ps := Providers(samples);
    forall i, j | 0 <= i < j < |ps| ensures ps[i] != ps[j] {
      LessAsymmetric(ps[i], ps[j]);
    }
  }

  // Every sample is in exactly one row.
  lemma RowsAccountForEverySample(samples: seq<Sample>)
    ensures Total(Points(samples)) == |samples|
  {
    if samples == [] {
      assert Total([Point("none", Idle, 0)]) == 0;
    } else {
      ProvidersAscend(samples);
      TotalIsCount(samples, Providers(samples));
    }
  }

  // Over a table: at least one session per retained pid, and exactly one precisely when no
  // pid has two rows with its newest timestamp.
  lemma RowsAccountForEveryPid(all: seq<Sample>)
    ensures Total(Points(JoinLatest(all, |all|))) >= |Elements(Pids(all))|
    ensures Total(Points(JoinLatest(all, |all|))) == |Elements(Pids(all))| <==> NewestIsUnique(all)
    ensures TimestampsAdvance(all) ==> Total(Points(JoinLatest(all, |all|))) == |Elements(Pids(all))|
  {
    if TimestampsAdvance(all) { AdvancingIsUnique(all); }
    RowsAccountForEverySample(JoinLatest(all, |all|));
    AnswerCountsPids(all);
  }

  // Row 5i + j is the i-th provider's j-th status.
  lemma {:induction false} RowAt(samples: seq<Sample>, providers: seq<string>, i: nat, j: nat)
    requires i < |providers| && j < 5
    ensures |PointsFor(samples, providers)| == 5 * |providers|
    ensures PointsFor(samples, providers)[5 * i + j]
         == Point(providers[i], STATUSES[j], Count(samples, providers[i], STATUSES[j]))
    decreases |providers|
  {
    var n := |providers| - 1;
    if n > 0 {
      RowAt(samples, providers[..n], if i < n then i else 0, j);
    }
    assert |PointsFor(samples, providers[..n])| == 5 * n;
  }

  lemma FiveRowsPerProvider(samples: seq<Sample>, i: nat, j: nat)
    requires i < |Providers(samples)| && j < 5
    ensures Ascending(Providers(samples))
    ensures |Points(samples)| == 5 * |Providers(samples)|
    ensures var p, status := Providers(samples)[i], [AwaitingUserInput, ToolPending, Crashed, Working, Idle][j];
            Points(samples)[5 * i + j] == Point(p, status, Count(samples, p, status))
  {
    ProvidersAscend(samples);
    assert Providers(samples)[i] in Providers(samples);
    RowAt(samples, Providers(samples), i, j);
  }

  // ------------------------------------------------ the order of the samples

  lemma {:induction false} CountConcat(a: seq<Sample>, b: seq<Sample>, provider: string, status: RefinedStatus)
    ensures Count(a + b, provider, status) == Count(a, provider, status) + Count(b, provider, status)
  {
    if b == [] {
      assert a + b == a;
    } else {
      CountConcat(a, b[..|b| - 1], provider, status);
      assert (a + b)[..|a + b| - 1] == a + b[..|b| - 1];
    }
  }

  lemma {:induction false} CountIgnoresOrder(a: seq<Sample>, b: seq<Sample>, provider: string, status: RefinedStatus)
    requires multiset(a) == multiset(b)
    ensures Count(a, provider, status) == Count(b, provider, status)
    decreases |a|
  {
    if a == [] {
      assert b == [] by { assert |multiset(b)| == 0; }
    } else {
      var k := SameWithoutOne(a, b);
      CountIgnoresOrder(a[..|a| - 1], b[..k] + b[k + 1..], provider, status);
      CountAt(b, k, provider, status);
      CountAt(a, |a| - 1, provider, status);
      assert a[..|a| - 1] + a[|a|..] == a[..|a| - 1];
    }
  }

  // Two orders of the same elements, less the last of the first one.
  lemma SameWithoutOne<T>(a: seq<T>, b: seq<T>) returns (k: nat)
    requires multiset(a) == multiset(b) && a != []
    ensures k < |b| && b[k] == a[|a| - 1]
    ensures multiset(a[..|a| - 1]) == multiset(b[..k] + b[k + 1..])
  {
    var rest, x := a[..|a| - 1], a[|a| - 1];
    assert a == rest + [x];
    assert x in multiset(b);
    k :| 0 <= k < |b| && b[k] == x;
    assert b == b[..k] + [x] + b[k + 1..];
    assert multiset(rest) == multiset(a) - multiset{x};
    assert multiset(b[..k] + b[k + 1..]) == multiset(b) - multiset{x};
  }

  lemma CountAt(s: seq<Sample>, k: nat, provider: string, status: RefinedStatus)
    requires k < |s|
    ensures Count(s, provider, status)
         == Count(s[..k] + s[k + 1..], provider, status) + Count([s[k]], provider, status)
  {
    assert s == s[..k] + [s[k]] + s[k + 1..];
    CountConcat(s[..k] + [s[k]], s[k + 1..], provider, status);
    CountConcat(s[..k], [s[k]], provider, status);
    CountConcat(s[..k], s[k + 1..], provider, status);
  }

  lemma ProvidersIgnoreOrder(a: seq<Sample>, b: seq<Sample>)
    requires multiset(a) == multiset(b)
    ensures Providers(a) == Providers(b)
  {
    forall p ensures p in Providers(a) <==> p in Providers(b) {
      ProviderMoves(a, b, p);
      ProviderMoves(b, a, p);
    }
    ProvidersAscend(a);
    ProvidersAscend(b);
    AscendingIsUnique(Providers(a), Providers(b));
  }

  lemma ProviderMoves(a: seq<Sample>, b: seq<Sample>, p: string)
    requires multiset(a) == multiset(b)
    ensures p in Providers(a) ==> p in Providers(b)
  {
    if p in Providers(a) {
      var i :| 0 <= i < |a| && a[i].provider == p;
      assert a[i] in multiset(b);
      var k :| 0 <= k < |b| && b[k] == a[i];
      assert b[k].provider == p;
    }
  }

  lemma {:induction false} SameRows(a: seq<Sample>, b: seq<Sample>, providers: seq<string>)
    requires multiset(a) == multiset(b)
    ensures PointsFor(a, providers) == PointsFor(b, providers)
    decreases |providers|
  {
    if providers != [] {
      var p := providers[|providers| - 1];
      SameRows(a, b, providers[..|providers| - 1]);
      forall j | 0 <= j < |STATUSES| ensures PointsOf(a, p)[j] == PointsOf(b, p)[j] {
        CountIgnoresOrder(a, b, p, STATUSES[j]);
      }
    }
  }

  // Whatever order the query returns its rows in, the rendered rows are the same.
  lemma RowsIgnoreOrder(a: seq<Sample>, b: seq<Sample>)
    requires multiset(a) == multiset(b)
    ensures Points(a) == Points(b)
  {
    assert |multiset(a)| == |a| && |multiset(b)| == |b|;
    ProvidersIgnoreOrder(a, b);
    SameRows(a, b, Providers(a));
  }

  // ---------------------------------------------------------------- the body

  const NAMESPACE := "agent_conductor_"
  const PREFIX := NAMESPACE + "sessions_total" + "{provider=\""

  function Text(p: Point): string {
    PREFIX + EscapeLabel(p.provider) + "\"" + ",status=\"" + StatusWord(p.status) + "\"" + "} " + Decimal(p.count)
  }

  function RowTexts(points: seq<Point>): (lines: seq<string>)
    ensures |lines| == |points| && forall i :: 0 <= i < |points| ==> lines[i] == Text(points[i])
  {
    seq(|points|, i requires 0 <= i < |points| => Text(points[i]))
  }

  // What renderPrometheus is given; `latest` is the answer of latestPerPid, if there is a store.
  datatype Input = Input(
    help: Texts, version: string, latest: Option<seq<Sample>>, samplesWritten: Option<nat>,
    auditBytes: Option<nat>, todos: Option<Todos>)

  datatype Todos = Todos(open: nat, completed: nat)

  // The two comment lines in front of a metric.
  datatype Metric = Metric(name: string, kind: string)

  function Help(m: Metric, help: string): string { "# HELP " + m.name + " " + help }

  function Kind(m: Metric): string { "# TYPE " + m.name + " " + m.kind }

  const BUILD := Metric(NAMESPACE + "build_info", "gauge")
  const SESSIONS := Metric(NAMESPACE + "sessions_total", "gauge")
  const SAMPLES := Metric(NAMESPACE + "samples_total", "counter")
  const AUDIT := Metric(NAMESPACE + "audit_bytes_total", "gauge")
  const TODOS := Metric(NAMESPACE + "todos_total", "gauge")

  // The fixed help texts. All that matters of them is that each is a single line.
  datatype Texts = Texts(build: string, sessions: string, samples: string, audit: string, todos: string) {
    predicate Valid() {
      OneLine(build) && OneLine(sessions) && OneLine(samples) && OneLine(audit) && OneLine(todos)
    }
  }

  function BuildLines(help: string, version: string): seq<string> {
    [Help(BUILD, help), Kind(BUILD), BUILD.name + "{version=\"" + EscapeLabel(version) + "\"} 1"]
  }

  function SessionHeader(help: string): seq<string> { [Help(SESSIONS, help), Kind(SESSIONS)] }

  function SamplesLines(help: string): nat -> seq<string> {
    (written: nat) => [Help(SAMPLES, help), Kind(SAMPLES), SAMPLES.name + " " + Decimal(written)]
  }

  function AuditLines(help: string): nat -> seq<string> {
    (bytes: nat) => [Help(AUDIT, help), Kind(AUDIT), AUDIT.name + " " + Decimal(bytes)]
  }

  function TodosLines(help: string): Todos -> seq<string> {
    (todos: Todos) => [Help(TODOS, help), Kind(TODOS), TODOS.name + "{state=\"open\"} " + Decimal(todos.open),
     TODOS.name + "{state=\"completed\"} " + Decimal(todos.completed)]
  }

  function SessionLines(input: Input): seq<string> {
    if input.latest == None then [] else SessionHeader(input.help.sessions) + RowTexts(Points(input.latest.value))
  }

  // The section of an optional figure.
  function Section<A, B>(figure: Option<A>, lines: A -> seq<B>): seq<B> {
    if figure == None then [] else lines(figure.value)
  }

  function OtherLines(input: Input): seq<string> {
    Section(input.samplesWritten, SamplesLines(input.help.samples))
        + Section(input.auditBytes, AuditLines(input.help.audit)) + Section(input.todos, TodosLines(input.help.todos))
  }

  function MetricLines(input: Input): (lines: seq<string>)
    ensures lines != []
  {
    BuildLines(input.help.build, input.version) + SessionLines(input) + OtherLines(input)
  }

  // lines.join("\n")
  function Join(lines: seq<string>): string
    requires lines != []
  {
    if |lines| == 1 then lines[0] else lines[0] + "\n" + Join(lines[1..])
  }

  // One provider's rows, pushed one at a time.
  method PushRows(ghost samples: seq<Sample>, provider: string, perStatus: map<RefinedStatus, nat>, lines: seq<string>)
    returns (more: seq<string>)
    requires forall status :: (if status in perStatus then perStatus[status] else 0) == Count(samples, provider, status)
    ensures more == lines + RowTexts(PointsOf(samples, provider))
  {
    more := lines;
    var j := 0;
    ghost var points := PointsOf(samples, provider);
    while j < |STATUSES|
      invariant 0 <= j <= |STATUSES|
      invariant more == lines + RowTexts(points[..j])
    {
      var status := STATUSES[j];
      var count := if status in perStatus then perStatus[status] else 0;
      assert points[j] == Point(provider, status, count);
      var line := PREFIX + EscapeLabel(provider) + "\"" + ",status=\"" + StatusWord(status) + "\"" + "} "
          + Decimal(count);
      TextsAppend(points[..j], points[j]);
      assert points[..j + 1] == points[..j] + [points[j]];
      ConcatAssoc(lines, RowTexts(points[..j]), [line]);
      more := more + [line];
      j := j + 1;
    }
    assert points[..j] == points;
  }

  lemma TextsAppend(points: seq<Point>, p: Point)
    ensures RowTexts(points + [p]) == RowTexts(points) + [Text(p)]
  {
  }

  lemma TextsConcat(a: seq<Point>, b: seq<Point>)
    ensures RowTexts(a + b) == RowTexts(a) + RowTexts(b)
  {
  }

  // The rows of the sessions_total section.
  method PushSessions(samples: seq<Sample>, before: seq<string>) returns (lines: seq<string>)
    ensures lines == before + RowTexts(Points(samples))
  {
    var keys, matrix := AggregateSessions(samples);
    if |matrix| == 0 {
      NoRowsNoKeys(samples, keys, matrix);
      ZeroRow();
      return before + [PREFIX + "none\",status=\"idle\"} 0"];
    }
    SomeRows(samples, keys, matrix);
    var providers := Sort(keys);
    lines := before;
    var i := 0;
    while i < |providers|
      invariant 0 <= i <= |providers|
      invariant lines == before + RowTexts(PointsFor(samples, providers[..i]))
    {
      var provider := providers[i];
      assert provider in providers;
      PerStatusCounts(samples, matrix, provider);
      ghost var done := PointsFor(samples, providers[..i]);
      lines := PushRows(samples, provider, matrix[provider], lines);
      TextsConcat(done, PointsOf(samples, provider));
      ConcatAssoc(before, RowTexts(done), RowTexts(PointsOf(samples, provider)));
      assert providers[..i + 1][..i] == providers[..i];
      i := i + 1;
    }
    assert providers[..i] == providers;
  }

  lemma PerStatusCounts(samples: seq<Sample>, matrix: Matrix<string>, provider: string)
    requires provider in matrix
    requires forall p, status :: Get(matrix, p, status) == Count(samples, p, status)
    ensures forall status ::
      (if status in matrix[provider] then matrix[provider][status] else 0) == Count(samples, provider, status)
  {
    forall status
      ensures (if status in matrix[provider] then matrix[provider][status] else 0) == Count(samples, provider, status)
    {
      assert Get(matrix, provider, status) == Count(samples, provider, status);
    }
  }

  lemma NoRowsNoKeys(samples: seq<Sample>, keys: seq<string>, matrix: Matrix<string>)
    requires keys == Keys(samples) && HasKeys(keys, matrix) && |matrix| == 0
    ensures samples == []
  {
    assert forall p :: p !in matrix by { assert matrix == map[]; }
    assert forall i :: 0 <= i < |samples| ==> samples[i].provider in keys;
  }

  lemma SomeRows(samples: seq<Sample>, keys: seq<string>, matrix: Matrix<string>)
    requires keys == Keys(samples) && HasKeys(keys, matrix) && |matrix| != 0
    ensures samples != []
  {
    var p :| p in matrix;
    assert p in keys;
  }

  lemma ZeroRow()
    ensures RowTexts(Points([])) == [PREFIX + "none\",status=\"idle\"} 0"]
  {
    PlainStaysPlain("none");
    ZeroText();
    Nest(PREFIX, "none", "\"", ",status=\"", "idle", "} ", Decimal(0));
    assert RowTexts([Point("none", Idle, 0)]) == [Text(Point("none", Idle, 0))];
  }

  lemma Nest<T>(p: seq<T>, e: seq<T>, q: seq<T>, s: seq<T>, w: seq<T>, b: seq<T>, d: seq<T>)
    ensures p + e + q + s + w + q + b + d == p + (e + q + (s + (w + q + (b + d))))
  {
  }

  lemma ZeroText()
    ensures "none" + "\"" + (",status=\"" + ("idle" + "\"" + ("} " + Decimal(0))))
         == "none\",status=\"idle\"} 0"
  {
  }

  lemma {:induction false} PlainStaysPlain(v: string)
    requires forall i :: 0 <= i < |v| ==> v[i] != '\\' && v[i] != '"' && v[i] != '\n'
    ensures EscapeLabel(v) == v
  {
    EscapeIsOnePass(v);
    if v != "" {
      PlainStaysPlain(v[1..]);
      EscapeIsOnePass(v[1..]);
      assert v == [v[0]] + v[1..];
    }
  }

  // Push the section of an optional figure.
  method PushSection<A(==), B>(before: seq<B>, figure: Option<A>, section: A -> seq<B>) returns (lines: seq<B>)
    ensures lines == before + Section(figure, section)
  {
    lines := before;
    if figure != None {
      lines := lines + section(figure.value);
    }
  }

  lemma ThreeSections<T>(a: seq<T>, b: seq<T>, c: seq<T>, d: seq<T>, e: seq<T>)
    ensures a + b + c + d + e == a + b + (c + d + e)
  {
  }

  method RenderPrometheus(input: Input) returns (body: string)
    ensures body == Join(MetricLines(input)) + "\n"
  {
    var lines := PushHead(input);
    ghost var head := lines;
    lines := PushSection(lines, input.samplesWritten, SamplesLines(input.help.samples));
    lines := PushSection(lines, input.auditBytes, AuditLines(input.help.audit));
    lines := PushSection(lines, input.todos, TodosLines(input.help.todos));
    ThreeSections(BuildLines(input.help.build, input.version), SessionLines(input),
                  Section(input.samplesWritten, SamplesLines(input.help.samples)),
                  Section(input.auditBytes, AuditLines(input.help.audit)),
                  Section(input.todos, TodosLines(input.help.todos)));
    body := Join(lines) + "\n";
  }

  // The build line and, if there is a store, the sessions.
  method PushHead(input: Input) returns (lines: seq<string>)
    ensures lines == BuildLines(input.help.build, input.version) + SessionLines(input)
  {
    lines := BuildLines(input.help.build, input.version);
    if input.latest != None {
      ConcatAssoc(lines, SessionHeader(input.help.sessions), RowTexts(Points(input.latest.value)));
      lines := lines + SessionHeader(input.help.sessions);
      lines := PushSessions(input.latest.value, lines);
    }
  }

  // -------------------------------------------------------------- the scraper

  // The terminated lines of a body; `open` is the part of the current line already read.
  function Lines(s: string, open: string): seq<string>
    decreases |s|
  {
    if s == "" then (if open == "" then [] else [open])
    else if s[0] == '\n' then [open] + Lines(s[1..], "")
    else Lines(s[1..], open + [s[0]])
  }

  function After(s: string, w: string): Option<string> {
    if |w| <= |s| && s[..|w|] == w then Some(s[|w|..]) else None
  }

  function StatusOf(word: string): Option<RefinedStatus> {
    if word == "awaiting_user_input" then Some(AwaitingUserInput)
    else if word == "tool_pending" then Some(ToolPending)
    else if word == "crashed" then Some(Crashed)
    else if word == "working" then Some(Working)
    else if word == "idle" then Some(Idle)
    else None
  }

  // How a row of the sessions_total metric starts, for a scraper.
  const ROW := "agent_conductor_sessions_total{provider=\""

  lemma RowPrefix()
    ensures PREFIX == ROW
  {
  }

  // One line of the sessions_total metric, read by the rules of the exposition format.
  function ReadPoint(line: string): Option<Point> {
    var start := After(line, ROW);
    if start == None then None else
    var provider := ReadLabel(start.value);
    if provider == None then None else
    var middle := After(provider.value.1, ",status=\"");
    if middle == None then None else
    var word := ReadLabel(middle.value);
    if word == None then None else
    var status := StatusOf(word.value.0);
    var digits := After(word.value.1, "} ");
    if status == None || digits == None then None
    else Some(Point(provider.value.0, status.value, ParseDecimal(digits.value)))
  }

  function PointOn(line: string): seq<Point> {
    if ReadPoint(line) == None then [] else [ReadPoint(line).value]
  }

  function PointsIn(lines: seq<string>): seq<Point> { Flat(PointOn, lines) }

  lemma AfterIs(w: string, rest: string)
    ensures After(w + rest, w) == Some(rest)
  {
    assert (w + rest)[..|w|] == w && (w + rest)[|w|..] == rest;
  }

  lemma StatusWordReadsBack(status: RefinedStatus, rest: string)
    ensures ReadLabel(StatusWord(status) + "\"" + rest) == Some((StatusWord(status), rest))
    ensures StatusOf(StatusWord(status)) == Some(status)
  {
    PlainStaysPlain(StatusWord(status));
    EscapedLabelReadsBack(StatusWord(status), rest);
  }

  // A rendered row is read back as itself, whatever characters the provider holds.
  lemma RowReadsBack(p: Point)
    ensures ReadPoint(Text(p)) == Some(p)
  {
    var digits := Decimal(p.count);
    var tail := "} " + digits;
    var middle := StatusWord(p.status) + "\"" + tail;
    var behind := ",status=\"" + middle;
    var start := EscapeLabel(p.provider) + "\"" + behind;
    Nest(PREFIX, EscapeLabel(p.provider), "\"", ",status=\"", StatusWord(p.status), "} ", digits);
    RowPrefix();
    AfterIs(PREFIX, start);
    EscapedLabelReadsBack(p.provider, behind);
    AfterIs(",status=\"", middle);
    StatusWordReadsBack(p.status, tail);
    AfterIs("} ", digits);
    DecimalRoundTrip(p.count);
  }

  lemma {:induction false} LinesStep(line: string, rest: string, open: string)
    requires '\n' !in line
    ensures Lines(line + "\n" + rest, open) == [open + line] + Lines(rest, "")
    decreases |line|
  {
    var s := line + "\n" + rest;
    if line == "" {
      assert s == "\n" + rest && s[1..] == rest && open + line == open;
    } else {
      assert s[0] == line[0] && s[1..] == line[1..] + "\n" + rest;
      LinesStep(line[1..], rest, open + [line[0]]);
      assert open + [line[0]] + line[1..] == open + line;
    }
  }

  lemma {:induction false} LinesOfJoin(lines: seq<string>)
    requires lines != [] && Every(OneLine, lines)
    ensures Lines(Join(lines) + "\n", "") == lines
    decreases |lines|
  {
    var first := lines[0];
    assert "" + first == first;
    if |lines| == 1 {
      assert Join(lines) + "\n" == first + "\n" + "";
      LinesStep(first, "", "");
    } else {
      var rest := Join(lines[1..]) + "\n";
      assert Join(lines) + "\n" == first + "\n" + rest;
      LinesStep(first, rest, "");
      LinesOfJoin(lines[1..]);
    }
  }

  lemma {:induction false} PointsInTexts(points: seq<Point>)
    ensures PointsIn(RowTexts(points)) == points
    decreases |points|
  {
    if points != [] {
      var fewer, p := points[..|points| - 1], points[|points| - 1];
      assert points == fewer + [p];
      TextsAppend(fewer, p);
      assert RowTexts(points)[..|points| - 1] == RowTexts(fewer);
      PointsInTexts(fewer);
      RowReadsBack(p);
    }
  }

  ghost predicate Every<T>(p: T -> bool, s: seq<T>) {
    forall i :: 0 <= i < |s| ==> p(s[i])
  }

  lemma EveryConcat<T>(p: T -> bool, a: seq<T>, b: seq<T>)
    requires Every(p, a) && Every(p, b)
    ensures Every(p, a + b)
  {
  }

  lemma EverySection<A, B>(p: B -> bool, figure: Option<A>, section: A -> seq<B>)
    requires figure != None ==> Every(p, section(figure.value))
    ensures Every(p, Section(figure, section))
  {
  }

  predicate OneLine(line: string) { '\n' !in line }

  // A line that is no sessions_total row.
  predicate Foreign(line: string) { OneLine(line) && After(line, ROW) == None }

  lemma {:induction false} ForeignLinesHoldNoPoints(lines: seq<string>)
    requires Every(Foreign, lines)
    ensures PointsIn(lines) == [] && Every(OneLine, lines)
    decreases |lines|
  {
    if lines != [] {
      assert Foreign(lines[|lines| - 1]);
      ForeignLinesHoldNoPoints(lines[..|lines| - 1]);
      assert forall i :: 0 <= i < |lines| - 1 ==> lines[i] == lines[..|lines| - 1][i];
    }
  }

  lemma DiffersAt(line: string, k: nat)
    requires OneLine(line) && k < |line| && k < |ROW| && line[k] != ROW[k]
    ensures Foreign(line)
  {
    if |ROW| <= |line| {
      assert line[..|ROW|][k] != ROW[k];
    }
  }

  lemma CommentsAreForeign(m: Metric, help: string)
    requires OneLine(m.name) && OneLine(m.kind) && OneLine(help)
    ensures Foreign(Help(m, help)) && Foreign(Kind(m))
  {
    DiffersAt(Help(m, help), 0);
    DiffersAt(Kind(m), 0);
  }

  lemma FigureIsForeign(name: string, labels: string, n: nat, k: nat)
    requires OneLine(name) && OneLine(labels) && k < |name| && k < |ROW| && name[k] != ROW[k]
    ensures Foreign(name + labels + Decimal(n))
  {
    DiffersAt(name + labels + Decimal(n), k);
  }

  lemma BuildLinesAreForeign(help: string, version: string)
    requires OneLine(help)
    ensures Every(Foreign, BuildLines(help, version))
  {
    CommentsAreForeign(BUILD, help);
    EscapedLabelIsOneLine(version);
    DiffersAt(BUILD.name + "{version=\"" + EscapeLabel(version) + "\"} 1", 16);
  }

  lemma HeaderIsForeign(help: string)
    requires OneLine(help)
    ensures Every(Foreign, SessionHeader(help))
  {
    CommentsAreForeign(SESSIONS, help);
  }

  lemma SamplesLinesAreForeign(help: string, written: nat)
    requires OneLine(help)
    ensures Every(Foreign, SamplesLines(help)(written))
  {
    CommentsAreForeign(SAMPLES, help);
    FigureIsForeign(SAMPLES.name, " ", written, 17);
  }

  lemma AuditLinesAreForeign(help: string, bytes: nat)
    requires OneLine(help)
    ensures Every(Foreign, AuditLines(help)(bytes))
  {
    CommentsAreForeign(AUDIT, help);
    FigureIsForeign(AUDIT.name, " ", bytes, 16);
  }

  lemma TodosLinesAreForeign(help: string, todos: Todos)
    requires OneLine(help)
    ensures Every(Foreign, TodosLines(help)(todos))
  {
    CommentsAreForeign(TODOS, help);
    TodoFigureIsForeign("{state=\"open\"} ", todos.open);
    TodoFigureIsForeign("{state=\"completed\"} ", todos.completed);
  }

  lemma TodoFigureIsForeign(labels: string, n: nat)
    requires OneLine(labels)
    ensures Foreign(TODOS.name + labels + Decimal(n))
  {
    FigureIsForeign(TODOS.name, labels, n, 16);
  }

  lemma OtherLinesAreForeign(input: Input)
    requires input.help.Valid()
    ensures Every(Foreign, OtherLines(input))
  {
    if input.samplesWritten != None { SamplesLinesAreForeign(input.help.samples, input.samplesWritten.value); }
    if input.auditBytes != None { AuditLinesAreForeign(input.help.audit, input.auditBytes.value); }
    if input.todos != None { TodosLinesAreForeign(input.help.todos, input.todos.value); }
    EverySection(Foreign, input.samplesWritten, SamplesLines(input.help.samples));
    EverySection(Foreign, input.auditBytes, AuditLines(input.help.audit));
    EverySection(Foreign, input.todos, TodosLines(input.help.todos));
    EveryConcat(Foreign, Section(input.samplesWritten, SamplesLines(input.help.samples)),
        Section(input.auditBytes, AuditLines(input.help.audit)));
    EveryConcat(Foreign, Section(input.samplesWritten, SamplesLines(input.help.samples))
        + Section(input.auditBytes, AuditLines(input.help.audit)),
                Section(input.todos, TodosLines(input.help.todos)));
  }

  lemma RowIsOneLine(p: Point)
    ensures OneLine(Text(p))
  {
    EscapedLabelIsOneLine(p.provider);
    assert OneLine(StatusWord(p.status));
    assert OneLine(Decimal(p.count));
    assert OneLine(PREFIX);
  }

  // The points a body holds.
  function Scrape(body: string): seq<Point> { PointsIn(Lines(body, "")) }

  // A scraper that reads the whole body finds the session rows and nothing else of that
  // name: no provider name or version text can add, hide or alter one.
  lemma ScrapeReadsTheSessions(input: Input)
    requires input.help.Valid()
    ensures Lines(Join(MetricLines(input)) + "\n", "") == MetricLines(input)
    ensures Scrape(Join(MetricLines(input)) + "\n")
         == if input.latest == None then [] else Points(input.latest.value)
    ensures input.latest == Some([]) ==> Scrape(Join(MetricLines(input)) + "\n") == [Point("none", Idle, 0)]
  {
    BuildLinesAreForeign(input.help.build, input.version);
    OtherLinesAreForeign(input);
    SessionsOnly(input);
    ScrapeOfParts(BuildLines(input.help.build, input.version), SessionLines(input), OtherLines(input));
  }

  lemma ScrapeOfParts(first: seq<string>, sessions: seq<string>, others: seq<string>)
    requires first != [] && Every(Foreign, first) && Every(OneLine, sessions) && Every(Foreign, others)
    ensures Lines(Join(first + sessions + others) + "\n", "") == first + sessions + others
    ensures Scrape(Join(first + sessions + others) + "\n") == PointsIn(sessions)
  {
    ForeignLinesHoldNoPoints(first);
    ForeignLinesHoldNoPoints(others);
    EveryConcat(OneLine, first, sessions);
    EveryConcat(OneLine, first + sessions, others);
    LinesOfJoin(first + sessions + others);
    FlatConcat(PointOn, first, sessions);
    FlatConcat(PointOn, first + sessions, others);
  }

  lemma SessionsOnly(input: Input)
    requires input.help.Valid()
    ensures PointsIn(SessionLines(input)) == if input.latest == None then [] else Points(input.latest.value)
    ensures Every(OneLine, SessionLines(input))
  {
    if input.latest != None {
      var points := Points(input.latest.value);
      HeaderIsForeign(input.help.sessions);
      TextsAreOneLine(points);
      PointsInTexts(points);
      ScrapeHeader(SessionHeader(input.help.sessions), RowTexts(points));
    }
  }

  lemma ScrapeHeader(header: seq<string>, rows: seq<string>)
    requires Every(Foreign, header) && Every(OneLine, rows)
    ensures PointsIn(header + rows) == PointsIn(rows) && Every(OneLine, header + rows)
  {
    ForeignLinesHoldNoPoints(header);
    FlatConcat(PointOn, header, rows);
    EveryConcat(OneLine, header, rows);
  }

  lemma TextsAreOneLine(points: seq<Point>)
    ensures Every(OneLine, RowTexts(points))
  {
    forall i | 0 <= i < |points| ensures OneLine(RowTexts(points)[i]) {
      RowIsOneLine(points[i]);
    }
  }
}
