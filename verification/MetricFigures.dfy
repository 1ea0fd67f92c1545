// The figures of a /metrics body besides the sessions: src/timeseries/prometheus.ts:87-140, read
// back by a scraper that knows nothing but their names.
module MetricFigures {
  import opened Common
  import opened Prometheus

  // The figure a line gives for a series, if it is a line of that series.
  function FigureOn(series: string): string -> seq<nat> {
    (line: string) =>
      if After(line, series) == None || !Digits(After(line, series).value) then []
      else [ParseDecimal(After(line, series).value)]
  }

  predicate Digits(s: string) { s != "" && forall i :: 0 <= i < |s| ==> IsDigit(s[i]) }

  // What a scraper finds for a series.
  function Figures(series: string, lines: seq<string>): seq<nat> { Flat(FigureOn(series), lines) }

  lemma OwnFigure(series: string, n: nat)
    ensures FigureOn(series)(series + Decimal(n)) == [n]
  {
    AfterIs(series, Decimal(n));
    DecimalRoundTrip(n);
  }

  // A line and a series that differ somewhere.
  lemma OtherFigure(series: string, line: string, k: nat)
    requires k < |series| && k < |line| && series[k] != line[k]
    ensures FigureOn(series)(line) == []
  {
    if |series| <= |line| { assert line[..|series|][k] != series[k]; }
  }

  // Lines that all start with `start` up to k, where the series has something else, or with '#'.
  ghost predicate Apart(series: string, line: string, k: nat) {
    |line| > 0 && |series| > 0 && (line[0] != series[0] || (k < |line| && k < |series| && line[k] != series[k]))
  }

  lemma {:induction false} ApartHoldsNothing(series: string, lines: seq<string>, k: nat)
    requires forall i :: 0 <= i < |lines| ==> Apart(series, lines[i], k)
    ensures Figures(series, lines) == []
    decreases |lines|
  {
    if lines != [] {
      var last := lines[|lines| - 1];
      ApartHoldsNothing(series, lines[..|lines| - 1], k);
      if last[0] != series[0] { OtherFigure(series, last, 0); } else { OtherFigure(series, last, k); }
    }
  }

  lemma {:induction false} RowsApart(series: string, points: seq<Point>, k: nat)
    requires k < |series| && k < |ROW| && series[k] != ROW[k]
    ensures forall i :: 0 <= i < |points| ==> Apart(series, RowTexts(points)[i], k)
  {
    RowPrefix();
    forall i | 0 <= i < |points| ensures Apart(series, RowTexts(points)[i], k) {
      assert RowTexts(points)[i][k] == PREFIX[k];
    }
  }

  const SAMPLES_SERIES := "agent_conductor_" + "samples_total" + " "
  const AUDIT_SERIES := "agent_conductor_" + "audit_bytes_total" + " "
  const OPEN_SERIES := "agent_conductor_" + "todos_total" + "{state=\"open\"} "
  const COMPLETED_SERIES := "agent_conductor_" + "todos_total" + "{state=\"completed\"} "

  lemma SamplesName()
    ensures SAMPLES.name + " " == SAMPLES_SERIES
  {
  }

  lemma AuditName()
    ensures AUDIT.name + " " == AUDIT_SERIES
  {
  }

  lemma OpenName()
    ensures TODOS.name + "{state=\"open\"} " == OPEN_SERIES
  {
  }

  lemma CompletedName()
    ensures TODOS.name + "{state=\"completed\"} " == COMPLETED_SERIES
  {
  }

  // The build line, and the sessions, hold no figure of a series with another name.
  lemma BuildHoldsNothing(series: string, help: string, version: string)
    requires |series| > 16 && series[0] == 'a' && series[16] != 'b'
    ensures Figures(series, BuildLines(help, version)) == []
  {
    ApartHoldsNothing(series, BuildLines(help, version), 16);
  }

  lemma SessionsHoldNothing(series: string, input: Input, k: nat)
    requires k < |series| && k < |ROW| && series[k] != ROW[k] && series[0] == 'a'
    ensures Figures(series, SessionLines(input)) == []
  {
    if input.latest != None {
      RowsApart(series, Points(input.latest.value), k);
      ApartHoldsNothing(series, RowTexts(Points(input.latest.value)), k);
      HeaderHoldsNothing(series, input.help.sessions, k);
      FlatConcat(FigureOn(series), SessionHeader(input.help.sessions), RowTexts(Points(input.latest.value)));
    }
  }

  lemma HeaderHoldsNothing(series: string, help: string, k: nat)
    requires |series| > 0 && series[0] == 'a'
    ensures Figures(series, SessionHeader(help)) == []
  {
    ApartHoldsNothing(series, SessionHeader(help), k);
  }

  // Two comment lines, and a line of the series `own`.
  lemma OneFigure(series: string, own: string, help: string, kind: string, n: nat, k: nat)
    requires help != "" && help[0] == '#' && kind != "" && kind[0] == '#'
    requires |series| > 0 && series[0] == 'a'
    requires series == own || (k < |series| && k < |own| && series[k] != own[k])
    ensures Figures(series, [help, kind, own + Decimal(n)]) == if series == own then [n] else []
  {
    ApartHoldsNothing(series, [help, kind], 0);
    assert [help, kind, own + Decimal(n)][..2] == [help, kind];
    if series == own { OwnFigure(own, n); } else { OtherFigure(series, own + Decimal(n), k); }
  }

  lemma SamplesSection(series: string, help: string, figure: Option<nat>, k: nat)
    requires |series| > 0 && series[0] == 'a'
    requires series == SAMPLES_SERIES || (k < |series| && k < |SAMPLES_SERIES| && series[k] != SAMPLES_SERIES[k])
    ensures Figures(series, Section(figure, SamplesLines(help))) ==
            if series == SAMPLES_SERIES && figure != None then [figure.value] else []
  {
    SamplesName();
    if figure != None { OneFigure(series, SAMPLES_SERIES, Help(SAMPLES, help), Kind(SAMPLES), figure.value, k); }
  }

  lemma AuditSection(series: string, help: string, figure: Option<nat>, k: nat)
    requires |series| > 0 && series[0] == 'a'
    requires series == AUDIT_SERIES || (k < |series| && k < |AUDIT_SERIES| && series[k] != AUDIT_SERIES[k])
    ensures Figures(series, Section(figure, AuditLines(help))) ==
            if series == AUDIT_SERIES && figure != None then [figure.value] else []
  {
    AuditName();
    if figure != None { OneFigure(series, AUDIT_SERIES, Help(AUDIT, help), Kind(AUDIT), figure.value, k); }
  }

  lemma StatesDiffer()
    ensures |OPEN_SERIES| > 35 && OPEN_SERIES[35] == 'o'
    ensures |COMPLETED_SERIES| > 35 && COMPLETED_SERIES[35] == 'c'
  {
  }

  lemma TodosSection(series: string, help: string, todos: Option<Todos>, k: nat, c: nat)
    requires |series| > 0 && series[0] == 'a'
    requires series == OPEN_SERIES || (k < |series| && k < |OPEN_SERIES| && series[k] != OPEN_SERIES[k])
    requires series == COMPLETED_SERIES || (c < |series| && c < |COMPLETED_SERIES| && series[c] != COMPLETED_SERIES[c])
    ensures OPEN_SERIES != COMPLETED_SERIES
    ensures Figures(series, Section(todos, TodosLines(help))) ==
            if todos == None then [] else if series == OPEN_SERIES then [todos.value.open]
            else if series == COMPLETED_SERIES then [todos.value.completed] else []
  {
    OpenName();
    CompletedName();
    StatesDiffer();
    if todos != None {
      assert TodosLines(help)(todos.value) ==
          [Help(TODOS, help), Kind(TODOS), OPEN_SERIES + Decimal(todos.value.open)]
          + [COMPLETED_SERIES + Decimal(todos.value.completed)];
      TwoFigures(series, OPEN_SERIES, COMPLETED_SERIES, Help(TODOS, help), Kind(TODOS), todos.value.open,
                 todos.value.completed, k, c);
    }
  }

  lemma FiguresNext(series: string, lines: seq<string>, line: string)
    ensures Figures(series, lines + [line]) == Figures(series, lines) + FigureOn(series)(line)
  {
    assert (lines + [line])[..|lines|] == lines;
  }

  lemma TwoFigures(series: string, first: string, second: string, help: string, kind: string, n: nat, m: nat,
      k: nat, c: nat)
    requires help != "" && help[0] == '#' && kind != "" && kind[0] == '#'
    requires |series| > 0 && series[0] == 'a' && first != second
    requires series == first || (k < |series| && k < |first| && series[k] != first[k])
    requires series == second || (c < |series| && c < |second| && series[c] != second[c])
    ensures Figures(series, [help, kind, first + Decimal(n)] + [second + Decimal(m)]) ==
            if series == first then [n] else if series == second then [m] else []
  {
    OneFigure(series, first, help, kind, n, k);
    FiguresNext(series, [help, kind, first + Decimal(n)], second + Decimal(m));
    if series == second { OwnFigure(second, m); } else { OtherFigure(series, second + Decimal(m), c); }
  }

  // The series is this one, or differs from it at position k.
  ghost predicate Told(series: string, own: string, k: nat) {
    series == own || (k < |series| && k < |own| && series[k] != own[k])
  }

  // Where a series differs from the other names.
  datatype Apartness = Apartness(row: nat, samples: nat, audit: nat, open: nat, completed: nat)

  ghost predicate TellsApart(series: string, at: Apartness) {
    && |series| > 16 && series[0] == 'a' && series[16] != 'b'
    && at.row < |series| && at.row < |ROW| && series[at.row] != ROW[at.row]
    && Told(series, SAMPLES_SERIES, at.samples) && Told(series, AUDIT_SERIES, at.audit)
    && Told(series, OPEN_SERIES, at.open) && Told(series, COMPLETED_SERIES, at.completed)
  }

  // What each section holds of a series.
  lemma SectionsOf(series: string, input: Input, at: Apartness)
    requires TellsApart(series, at)
    ensures Figures(series, MetricLines(input)) ==
            Figures(series, Section(input.samplesWritten, SamplesLines(input.help.samples)))
            + Figures(series, Section(input.auditBytes, AuditLines(input.help.audit)))
            + Figures(series, Section(input.todos, TodosLines(input.help.todos)))
  {
    BuildHoldsNothing(series, input.help.build, input.version);
    SessionsHoldNothing(series, input, at.row);
    FlatConcat(FigureOn(series), BuildLines(input.help.build, input.version), SessionLines(input));
    var samples := Section(input.samplesWritten, SamplesLines(input.help.samples));
    var audit := Section(input.auditBytes, AuditLines(input.help.audit));
    var todos := Section(input.todos, TodosLines(input.help.todos));
    FlatConcat(FigureOn(series), samples, audit);
    FlatConcat(FigureOn(series), samples + audit, todos);
    FlatConcat(FigureOn(series), BuildLines(input.help.build, input.version) + SessionLines(input),
               samples + audit + todos);
  }

  // So a series is found in the section that has its name.
  lemma FoundUnderItsName(series: string, input: Input, at: Apartness)
    requires TellsApart(series, at)
    ensures Figures(series, MetricLines(input)) ==
      (if series == SAMPLES_SERIES then Known(input.samplesWritten) else [])
      + (if series == AUDIT_SERIES then Known(input.auditBytes) else [])
      + (if input.todos == None then [] else if series == OPEN_SERIES then [input.todos.value.open]
         else if series == COMPLETED_SERIES then [input.todos.value.completed] else [])
  {
    SectionsOf(series, input, at);
    SamplesSection(series, input.help.samples, input.samplesWritten, at.samples);
    AuditSection(series, input.help.audit, input.auditBytes, at.audit);
    TodosSection(series, input.help.todos, input.todos, at.open, at.completed);
  }

  function Known<T>(figure: Option<T>): seq<T> { if figure == None then [] else [figure.value] }

  // A scraper that reads the whole body finds each of these figures once if it was given, under
  // its own name, and nowhere else: no version, provider or help text can add or hide one.
  lemma ScrapeReadsTheFigures(input: Input)
    requires input.help.Valid()
    ensures var lines := Lines(Join(MetricLines(input)) + "\n", "");
      && Figures("agent_conductor_" + "samples_total" + " ", lines) == Known(input.samplesWritten)
      && Figures("agent_conductor_" + "audit_bytes_total" + " ", lines) == Known(input.auditBytes)
      && Figures("agent_conductor_" + "todos_total" + "{state=\"open\"} ", lines)
         == (if input.todos == None then [] else [input.todos.value.open])
      && Figures("agent_conductor_" + "todos_total" + "{state=\"completed\"} ", lines)
         == (if input.todos == None then [] else [input.todos.value.completed])
  {
    ScrapeReadsTheSessions(input);
    SamplesFigure(input);
    AuditFigure(input);
    OpenFigure(input);
    CompletedFigure(input);
  }

  lemma SamplesFigure(input: Input)
    ensures Figures(SAMPLES_SERIES, MetricLines(input)) == Known(input.samplesWritten)
  {
    FoundUnderItsName(SAMPLES_SERIES, input, Apartness(17, 0, 16, 16, 16));
  }

  lemma AuditFigure(input: Input)
    ensures Figures(AUDIT_SERIES, MetricLines(input)) == Known(input.auditBytes)
  {
    FoundUnderItsName(AUDIT_SERIES, input, Apartness(16, 16, 0, 16, 16));
  }

  lemma OpenFigure(input: Input)
    ensures Figures(OPEN_SERIES, MetricLines(input)) == if input.todos == None then [] else [input.todos.value.open]
  {
    StatesDiffer();
    FoundUnderItsName(OPEN_SERIES, input, Apartness(16, 16, 16, 0, 35));
  }

  lemma CompletedFigure(input: Input)
    ensures Figures(COMPLETED_SERIES, MetricLines(input))
         == if input.todos == None then [] else [input.todos.value.completed]
  {
    StatesDiffer();
    FoundUnderItsName(COMPLETED_SERIES, input, Apartness(16, 16, 16, 35, 0));
  }

  // The version a line gives, if it is the build line.
  function VersionOn(line: string): Option<string> {
    var start := After(line, "agent_conductor_" + "build_info" + "{version=\"");
    if start == None then None else
    var version := ReadLabel(start.value);
    if version == None || version.value.1 != "} 1" then None else Some(version.value.0)
  }

  // The third line gives the version back, whatever characters it holds.
  lemma VersionReadsBack(input: Input)
    ensures |MetricLines(input)| >= 3 && VersionOn(MetricLines(input)[2]) == Some(input.version)
  {
    BuildLineReadsBack(BUILD.name + "{version=\"", input.version);
    assert MetricLines(input)[2] == BuildLines(input.help.build, input.version)[2];
  }

  lemma BuildLineReadsBack(start: string, version: string)
    ensures var line := start + EscapeLabel(version) + "\"} 1";
      After(line, start) != None && ReadLabel(After(line, start).value) == Some((version, "} 1"))
  {
    assert "\"" + "} 1" == "\"} 1";
    BuildLineIs(start, EscapeLabel(version), "\"", "} 1");
    AfterIs(start, EscapeLabel(version) + "\"" + "} 1");
    EscapedLabelReadsBack(version, "} 1");
  }

  lemma BuildLineIs<T>(a: seq<T>, v: seq<T>, q: seq<T>, e: seq<T>)
    ensures a + v + (q + e) == a + (v + q + e)
  {
  }
}
