/** The physical-verification suite's decisions: how a tool's standard output is classified as
    PASS, how a violation count is read from it, what status each run records, which report rows
    and banner follow from the recorded statuses, and the exit code the suite ends with. */
module Verification {
  import opened Wrappers
  import opened Text

  // ---------------------------------------------------------------------------------------
  // Tools and their runs.

  datatype Tool = MagicDrc | KlayoutDrc | NetgenLvs | Parasitic | Timing

  /** The key each run records its status under. */
  function Key(tool: Tool): string {
    match tool
    case MagicDrc => "magic_drc"
    case KlayoutDrc => "klayout_drc"
    case NetgenLvs => "netgen_lvs"
    case Parasitic => "parasitic_extraction"
    case Timing => "timing_analysis"
  }

  /** How a run ended: its input files were missing (Magic DRC checks the GDSII file, LVS the
      GDSII file and the netlist, and both return before recording anything), it raised, or the
      tool finished with some standard output. `spiceWritten` says whether the extracted SPICE
      file exists afterwards; only parasitic extraction looks at it. */
  datatype Run = InputsMissing | Raised | Finished(stdout: string, spiceWritten: bool)

  /** The tools that check their input files before starting. */
  predicate ChecksInputs(tool: Tool) {
    tool == MagicDrc || tool == NetgenLvs
  }

  /** `DRC violations:` and `KLayout DRC violations:`: the keys the counts are read under. */
  const MAGIC_CAPTION: string := "DRC violations"
  const KLAYOUT_CAPTION: string := "KLayout " + MAGIC_CAPTION
  const MAGIC_KEY: string := MAGIC_CAPTION + [':']
  const KLAYOUT_KEY: string := KLAYOUT_CAPTION + [':']

  /** A report line: the key, a blank, then the value, as the tools print the count. */
  function ReportLine(key: string, value: string): string {
    key + (" " + value)
  }

  /** Text after a line's value extends the value. */
  lemma ReportLineExtend(key: string, value: string, more: string)
    ensures ReportLine(key, value + more) == ReportLine(key, value) + more
  {
  }

  /** `DRC violations: 0` and `KLayout DRC violations: 0`: the clean lines. */
  const MAGIC_CLEAN: string := ReportLine(MAGIC_KEY, "0")
  const KLAYOUT_CLEAN: string := ReportLine(KLAYOUT_KEY, "0")
  const LVS_MATCH: string := "Circuits match"
  const SETUP_PASS: string := "Setup timing: PASS"
  const HOLD_PASS: string := "Hold timing: PASS"

  /** The PASS test each run applies: a substring test on the tool's standard output, except for
      parasitic extraction, which passes when the SPICE file was written. */
  predicate Passes(tool: Tool, stdout: string, spiceWritten: bool) {
    match tool
    case MagicDrc => Contains(stdout, MAGIC_CLEAN)
    case KlayoutDrc => Contains(stdout, KLAYOUT_CLEAN)
    case NetgenLvs => Contains(stdout, LVS_MATCH)
    case Parasitic => spiceWritten
    case Timing => Contains(stdout, SETUP_PASS) && Contains(stdout, HOLD_PASS)
  }

  /** The KLayout clean line contains the Magic clean line: Magic's test passes on it too. */
  lemma KlayoutCleanPassesMagic(stdout: string)
    requires Contains(stdout, KLAYOUT_CLEAN)
    ensures Passes(MagicDrc, stdout, false)
  {
    var i :| 0 <= i <= |stdout| - |KLAYOUT_CLEAN| && OccursAt(stdout, KLAYOUT_CLEAN, i);
    var skip := |"KLayout "|;
    assert KLAYOUT_CLEAN == "KLayout " + MAGIC_CLEAN;
    assert stdout[i + skip..i + skip + |MAGIC_CLEAN|] == KLAYOUT_CLEAN[skip..];
    assert OccursAt(stdout, MAGIC_CLEAN, i + skip);
  }

  // ---------------------------------------------------------------------------------------
  // Violation counts.

  /** What the extractors return: an integer, or the text `unknown`. */
  datatype Count = Number(n: int) | Unknown

  /** `int(line.split(':')[1].strip())`; `None` where that raises: fewer than two fields or a
      field that is not an integer literal. */
  function FieldValue(line: string): (v: Option<int>)
    ensures ':' !in line ==> v == None
  {
    var fields := Split(line, ':');
    if |fields| < 2 then None else ParseInt(fields[1])
  }

  /** The line mentions the key and its second field reads as an integer. */
  predicate Yields(line: string, key: string) {
    Contains(line, key) && FieldValue(line).Some?
  }

  /** The loop over lines: the value of the first line that yields one; lines that mention the key
      but do not parse are skipped. */
  function ScanLines(lines: seq<string>, key: string): (c: Count)
    ensures c == Unknown <==> forall i :: 0 <= i < |lines| ==> !Yields(lines[i], key)
    ensures c.Number? ==> exists i :: (0 <= i < |lines| && Yields(lines[i], key)
      && FieldValue(lines[i]) == Some(c.n) && forall j :: 0 <= j < i ==> !Yields(lines[j], key))
  {
    if |lines| == 0 then Unknown
    else if Yields(lines[0], key) then Number(FieldValue(lines[0]).value)
    else
      var c := ScanLines(lines[1..], key);
      assert forall i :: 1 <= i < |lines| ==> lines[i] == lines[1..][i - 1];
      if c.Number? then
        var i :| 0 <= i < |lines| - 1 && Yields(lines[1..][i], key)
          && FieldValue(lines[1..][i]) == Some(c.n) && forall j :: 0 <= j < i ==> !Yields(lines[1..][j], key);
        assert Yields(lines[i + 1], key) && FieldValue(lines[i + 1]) == Some(c.n);
        c
      else
        c
  }

  /** `_extract_drc_count` with `MAGIC_KEY`, `_extract_klayout_drc_count` with `KLAYOUT_KEY`. */
  function ExtractCount(output: string, key: string): Count {
    ScanLines(Split(output, '\n'), key)
  }

  /** The extractor reads the output line by line: for output made of lines without line breaks,
      the count is what scanning those lines gives. */
  lemma ExtractFromLines(lines: seq<string>, key: string)
    requires |lines| >= 1 && forall i :: 0 <= i < |lines| ==> '\n' !in lines[i]
    ensures ExtractCount(Join(lines, '\n'), key) == ScanLines(lines, key)
  {
    SplitJoin(lines, '\n');
  }

  /** A line that mentions the key but cannot be read is skipped: the count comes from the rest of
      the output. */
  lemma SkipsUnreadableLine(line: string, rest: string, key: string)
    requires '\n' !in line && FieldValue(line).None?
    ensures ExtractCount(line + "\n" + rest, key) == ExtractCount(rest, key)
  {
    SplitCons(line, rest, '\n');
    var lines := Split(line + "\n" + rest, '\n');
    assert lines[0] == line && lines[1..] == Split(rest, '\n');
  }

  /** The second field of `<caption>: <value>` is `" " + value` when neither part has a colon. */
  lemma FieldAfterCaption(caption: string, value: string)
    requires ':' !in caption && ':' !in value
    ensures FieldValue(ReportLine(caption + [':'], value)) == ParseInt(" " + value)
  {
    assert ReportLine(caption + [':'], value) == caption + [':'] + (" " + value);
    SplitCons(caption, " " + value, ':');
    assert ':' !in " " + value;
  }

  /** Output of a single line gives that line's value if it yields one, else `unknown`. */
  lemma OneLine(line: string, key: string)
    requires '\n' !in line
    ensures ExtractCount(line, key) == if Yields(line, key) then Number(FieldValue(line).value) else Unknown
  {
    assert Split(line, '\n') == [line];
  }

  /** The second field of `<caption>: <n>` reads as `n`. */
  lemma RenderedField(caption: string, n: int)
    requires ':' !in caption
    ensures FieldValue(ReportLine(caption + [':'], Decimal(n))) == Some(n)
  {
    var digits := Decimal(n);
    DecimalChars(n);
    assert ':' !in digits;
    FieldAfterCaption(caption, digits);
    ParseIntLeadingSpace(digits);
    ParseDecimal(n);
  }

  /** `<caption>: <n>` is one line. */
  lemma RenderedOneLine(caption: string, value: string)
    requires '\n' !in caption && '\n' !in value
    ensures '\n' !in ReportLine(caption + [':'], value)
  {
  }

  /** A line `<caption>: <n>` whose caption and colon mention the key reads as `n`, for every
      integer `n`. */
  lemma ReadsRenderedCount(caption: string, n: int, key: string)
    requires ':' !in caption && '\n' !in caption
    requires Contains(caption + [':'], key)
    ensures ExtractCount(ReportLine(caption + [':'], Decimal(n)), key) == Number(n)
  {
    var line := ReportLine(caption + [':'], Decimal(n));
    RenderedField(caption, n);
    ContainsExtend(caption + [':'], " " + Decimal(n), key);
    DecimalChars(n);
    assert '\n' !in Decimal(n);
    RenderedOneLine(caption, Decimal(n));
    OneLine(line, key);
  }

  lemma CaptionChars()
    ensures ':' !in MAGIC_CAPTION && '\n' !in MAGIC_CAPTION
    ensures ':' !in KLAYOUT_CAPTION && '\n' !in KLAYOUT_CAPTION
  {
  }

  /** Magic's own report line reads back as the count it printed. */
  lemma MagicCountLine(n: int)
    ensures ExtractCount(ReportLine(MAGIC_KEY, Decimal(n)), MAGIC_KEY) == Number(n)
  {
    CaptionChars();
    ContainsPrefix(MAGIC_KEY, MAGIC_KEY);
    ReadsRenderedCount(MAGIC_CAPTION, n, MAGIC_KEY);
  }

  /** KLayout's report line reads back as the count it printed. */
  lemma KlayoutCountLine(n: int)
    ensures ExtractCount(ReportLine(KLAYOUT_KEY, Decimal(n)), KLAYOUT_KEY) == Number(n)
  {
    CaptionChars();
    ContainsPrefix(KLAYOUT_KEY, KLAYOUT_KEY);
    ReadsRenderedCount(KLAYOUT_CAPTION, n, KLAYOUT_KEY);
  }

  /** Magic's extractor reads KLayout's report line too: the Magic key is part of it. */
  lemma KlayoutLineUnderMagicKey(n: int)
    ensures ExtractCount(ReportLine(KLAYOUT_KEY, Decimal(n)), MAGIC_KEY) == Number(n)
  {
    CaptionChars();
    ContainsPrefix(MAGIC_KEY, MAGIC_KEY);
    ContainsAfter("KLayout ", MAGIC_KEY, MAGIC_KEY);
    assert "KLayout " + MAGIC_KEY == KLAYOUT_CAPTION + [':'];
    ReadsRenderedCount(KLAYOUT_CAPTION, n, MAGIC_KEY);
  }

  /** `DRC violations: 0<digits of n>` has second field `0<digits of n>`, which reads as `n`. */
  lemma PaddedCountField(n: nat)
    ensures FieldValue(ReportLine(MAGIC_KEY, "0" + Digits(n))) == Some(n)
  {
    var padded := "0" + Digits(n);
    ParseLeadingZero(n);
    CaptionChars();
    assert ':' !in padded;
    FieldAfterCaption(MAGIC_CAPTION, padded);
    ParseIntLeadingSpace(padded);
  }

  /** The PASS test is a substring test, not a numeric one: a count printed as `0` followed by
      more digits passes although it reads as a non-zero count. */
  lemma CleanTestIsTextual(n: nat)
    requires n > 0
    ensures var out := ReportLine(MAGIC_KEY, "0" + Digits(n));
      Passes(MagicDrc, out, false) && ExtractCount(out, MAGIC_KEY) == Number(n)
  {
    var out := ReportLine(MAGIC_KEY, "0" + Digits(n));
    PaddedCountField(n);
    ReportLineExtend(MAGIC_KEY, "0", Digits(n));
    ContainsPrefix(out, MAGIC_CLEAN);
    ContainsPrefix(out, MAGIC_KEY);
    CaptionChars();
    assert forall k :: 0 <= k < |Digits(n)| ==> IsDigit(Digits(n)[k]);
    RenderedOneLine(MAGIC_CAPTION, "0" + Digits(n));
    OneLine(out, MAGIC_KEY);
  }

  /** On the line a tool prints for a count, the clean-line test passes exactly for a count of 0:
      the caption's first letter occurs nowhere else in the line, so the clean line can only match
      where the line starts, and then the count's first character must be `0`. */
  lemma CleanLineOnlyAtZero(caption: string, n: int)
    requires |caption| >= 1 && forall j :: 1 <= j < |caption| ==> caption[j] != caption[0]
    requires !IsDigit(caption[0]) && caption[0] !in {'-', ' ', ':'}
    ensures Contains(ReportLine(caption + [':'], Decimal(n)), ReportLine(caption + [':'], "0")) <==> n == 0
  {
    var line := ReportLine(caption + [':'], Decimal(n));
    var clean := ReportLine(caption + [':'], "0");
    var c := |caption|;
    if n == 0 {
      assert Decimal(n) == "0";
      ContainsPrefix(line, clean);
    }
    if Contains(line, clean) {
      var i :| 0 <= i <= |line| - |clean| && OccursAt(line, clean, i);
      assert line[i] == clean[0] == caption[0];
      DecimalChars(n);
      assert line[c + 2] == clean[c + 2] == '0';
      assert Decimal(n)[0] == '0';
    }
  }

  /** Magic's and KLayout's own count lines pass their clean-line tests exactly for a count of 0. */
  lemma CountLinePasses(n: int)
    ensures Passes(MagicDrc, ReportLine(MAGIC_KEY, Decimal(n)), false) <==> n == 0
    ensures Passes(KlayoutDrc, ReportLine(KLAYOUT_KEY, Decimal(n)), false) <==> n == 0
  {
    assert MAGIC_CAPTION == "DRC violations";
    assert KLAYOUT_CAPTION == "KLayout DRC violations";
    CleanLineOnlyAtZero(MAGIC_CAPTION, n);
    CleanLineOnlyAtZero(KLAYOUT_CAPTION, n);
  }

  // ---------------------------------------------------------------------------------------
  // Recording a run.

  /** How a count appears in a status: the number, or `unknown`. */
  function ShowCount(c: Count): string {
    match c
    case Number(n) => Decimal(n)
    case Unknown => "unknown"
  }

  /** The status a failed run records: DRC runs add the violation count they read. */
  function FailStatus(tool: Tool, stdout: string): (s: string)
    ensures s != "PASS" && s != "NOT RUN" && |s| >= 4 && s[..4] == "FAIL"
  {
    match tool
    case MagicDrc => "FAIL (" + ShowCount(ExtractCount(stdout, MAGIC_KEY)) + " violations)"
    case KlayoutDrc => "FAIL (" + ShowCount(ExtractCount(stdout, KLAYOUT_KEY)) + " violations)"
    case _ => "FAIL"
  }

  type Results = map<string, string>

  /** The statuses a run records: PASS, ERROR, or a text starting with FAIL. */
  predicate Recorded(status: string) {
    status == "PASS" || status == "ERROR" || (|status| >= 4 && status[..4] == "FAIL")
  }

  /** No run records the report's placeholder `NOT RUN`. */
  lemma RecordedIsNotNotRun(status: string)
    requires Recorded(status)
    ensures status != "NOT RUN"
  {
    if |status| >= 4 && status[..4] == "FAIL" {
      assert status[0] == 'F';
    }
  }

  /** One `run_*` method: its return value and the results afterwards. A run whose inputs are
      missing records nothing; one that raised records `ERROR`; otherwise PASS or the failure
      status. The return value is true exactly when PASS was recorded, and no other key changes. */
  function RunStep(results: Results, tool: Tool, run: Run): (step: (bool, Results))
    requires run.InputsMissing? ==> ChecksInputs(tool)
    ensures step.0 <==> run.Finished? && Passes(tool, run.stdout, run.spiceWritten)
    ensures run.InputsMissing? ==> step.1 == results
    ensures !run.InputsMissing? ==> Key(tool) in step.1 && step.1 == results[Key(tool) := step.1[Key(tool)]]
    ensures !run.InputsMissing? ==> Recorded(step.1[Key(tool)]) && (step.1[Key(tool)] == "PASS" <==> step.0)
    ensures run.Raised? ==> step.1[Key(tool)] == "ERROR"
    ensures run.Finished? && !step.0 ==> step.1[Key(tool)] == FailStatus(tool, run.stdout)
  {
    match run
    case InputsMissing => (false, results)
    case Raised => (false, results[Key(tool) := "ERROR"])
    case Finished(stdout, spice) =>
      if Passes(tool, stdout, spice) then (true, results[Key(tool) := "PASS"])
      else (false, results[Key(tool) := FailStatus(tool, stdout)])
  }

  /** Which checks the command line skips. */
  datatype Options = Options(skipDrc: bool, skipLvs: bool, skipPex: bool, skipTiming: bool)

  /** How each tool's run would end. */
  datatype Runs = Runs(magic: Run, klayout: Run, lvs: Run, pex: Run, timing: Run)

  predicate RunsWellFormed(runs: Runs) {
    !runs.klayout.InputsMissing? && !runs.pex.InputsMissing? && !runs.timing.InputsMissing?
  }

  /** Whether the command line skips a tool's check: both DRC runs share one option. */
  predicate Skipped(opts: Options, tool: Tool) {
    match tool
    case MagicDrc => opts.skipDrc
    case KlayoutDrc => opts.skipDrc
    case NetgenLvs => opts.skipLvs
    case Parasitic => opts.skipPex
    case Timing => opts.skipTiming
  }

  /** How a tool's run ends. */
  function RunOf(runs: Runs, tool: Tool): Run {
    match tool
    case MagicDrc => runs.magic
    case KlayoutDrc => runs.klayout
    case NetgenLvs => runs.lvs
    case Parasitic => runs.pex
    case Timing => runs.timing
  }

  /** The check was not skipped and its inputs were there, so it recorded a status. */
  predicate Ran(opts: Options, runs: Runs, tool: Tool) {
    !Skipped(opts, tool) && !RunOf(runs, tool).InputsMissing?
  }

  /** The run finished and its PASS test held. */
  predicate PassedRun(runs: Runs, tool: Tool) {
    var run := RunOf(runs, tool);
    run.Finished? && Passes(tool, run.stdout, run.spiceWritten)
  }

  /** Applies a run unless its check is skipped. A skipped check or one whose inputs are missing
      leaves the results as they are; otherwise the tool's key holds a recorded status, PASS
      exactly when the run passed. Every other key keeps its value. */
  function MaybeRun(results: Results, skip: bool, tool: Tool, run: Run): (r: Results)
    requires run.InputsMissing? ==> ChecksInputs(tool)
    ensures skip || run.InputsMissing? ==> r == results
    ensures !skip && !run.InputsMissing? ==>
      && Key(tool) in r && Recorded(r[Key(tool)])
      && (r[Key(tool)] == "PASS" <==> run.Finished? && Passes(tool, run.stdout, run.spiceWritten))
    ensures forall k :: k in results && k != Key(tool) ==> k in r && r[k] == results[k]
    ensures forall k :: k in r ==> k in results || k == Key(tool)
  {
    if skip then results else RunStep(results, tool, run).1
  }

  /** The results `main` collects: Magic and KLayout DRC, LVS, extraction and timing, each unless
      skipped, starting from nothing. */
  function CollectResults(opts: Options, runs: Runs): (results: Results)
    requires RunsWellFormed(runs)
    ensures forall k :: k in results ==> Recorded(results[k])
    ensures results.Keys <= {Key(MagicDrc), Key(KlayoutDrc), Key(NetgenLvs), Key(Parasitic), Key(Timing)}
    ensures forall t: Tool :: Key(t) in results <==> Ran(opts, runs, t)
    ensures forall t: Tool :: Key(t) in results ==> (results[Key(t)] == "PASS" <==> PassedRun(runs, t))
  {
    var r0: Results := map[];
    var r1 := MaybeRun(r0, opts.skipDrc, MagicDrc, runs.magic);
    var r2 := MaybeRun(r1, opts.skipDrc, KlayoutDrc, runs.klayout);
    var r3 := MaybeRun(r2, opts.skipLvs, NetgenLvs, runs.lvs);
    var r4 := MaybeRun(r3, opts.skipPex, Parasitic, runs.pex);
    var r5 := MaybeRun(r4, opts.skipTiming, Timing, runs.timing);
    CollectedTools(opts, runs, r1, r2, r3, r4, r5);
    r5
  }

  /** The steps of `CollectResults`, one per tool. */
  predicate CollectSteps(opts: Options, runs: Runs, r1: Results, r2: Results, r3: Results, r4: Results, r5: Results)
    requires RunsWellFormed(runs)
  {
    && r1 == MaybeRun(map[], opts.skipDrc, MagicDrc, runs.magic)
    && r2 == MaybeRun(r1, opts.skipDrc, KlayoutDrc, runs.klayout)
    && r3 == MaybeRun(r2, opts.skipLvs, NetgenLvs, runs.lvs)
    && r4 == MaybeRun(r3, opts.skipPex, Parasitic, runs.pex)
    && r5 == MaybeRun(r4, opts.skipTiming, Timing, runs.timing)
  }

  /** After the five steps a tool's key is present exactly when it ran, and then holds PASS
      exactly when the run passed: the later steps write other keys only. */
  lemma CollectedTool(opts: Options, runs: Runs, r1: Results, r2: Results, r3: Results, r4: Results, r5: Results, t: Tool)
    requires RunsWellFormed(runs) && CollectSteps(opts, runs, r1, r2, r3, r4, r5)
    ensures Key(t) in r5 <==> Ran(opts, runs, t)
    ensures Key(t) in r5 ==> (r5[Key(t)] == "PASS" <==> PassedRun(runs, t))
  {
    KeysDistinct();
    assert t == MagicDrc || t == KlayoutDrc || t == NetgenLvs || t == Parasitic || t == Timing;
  }

  lemma CollectedTools(opts: Options, runs: Runs, r1: Results, r2: Results, r3: Results, r4: Results, r5: Results)
    requires RunsWellFormed(runs) && CollectSteps(opts, runs, r1, r2, r3, r4, r5)
    ensures forall k :: k in r5 ==> Recorded(r5[k])
    ensures r5.Keys <= {Key(MagicDrc), Key(KlayoutDrc), Key(NetgenLvs), Key(Parasitic), Key(Timing)}
    ensures forall t: Tool :: Key(t) in r5 <==> Ran(opts, runs, t)
    ensures forall t: Tool :: Key(t) in r5 ==> (r5[Key(t)] == "PASS" <==> PassedRun(runs, t))
  {
    forall t: Tool
      ensures Key(t) in r5 <==> Ran(opts, runs, t)
      ensures Key(t) in r5 ==> (r5[Key(t)] == "PASS" <==> PassedRun(runs, t))
    {
      CollectedTool(opts, runs, r1, r2, r3, r4, r5, t);
    }
  }

  /** The five keys are distinct. */
  lemma KeysDistinct()
    ensures forall a: Tool, b: Tool :: Key(a) == Key(b) ==> a == b
  {
    forall a: Tool, b: Tool | Key(a) == Key(b)
      ensures a == b
    {
      assert |Key(a)| == |Key(b)|;
    }
  }

  // ---------------------------------------------------------------------------------------
  // The report.

  /** The status a report row shows: the recorded one, or `NOT RUN`. */
  function RowStatus(results: Results, tool: Tool): string {
    if Key(tool) in results then results[Key(tool)] else "NOT RUN"
  }

  /** The tools in the report's order. */
  const TOOLS: seq<Tool> := [MagicDrc, KlayoutDrc, NetgenLvs, Parasitic, Timing]

  /** Every tool is listed. */
  lemma ToolsListed()
    ensures forall t: Tool :: t in TOOLS
  {
    forall t: Tool
      ensures t in TOOLS
    {
      match t
      case MagicDrc => assert TOOLS[0] == t;
      case KlayoutDrc => assert TOOLS[1] == t;
      case NetgenLvs => assert TOOLS[2] == t;
      case Parasitic => assert TOOLS[3] == t;
      case Timing => assert TOOLS[4] == t;
    }
  }

  /** The name a report row gives a tool. */
  function Label(tool: Tool): string {
    match tool
    case MagicDrc => "Magic DRC"
    case KlayoutDrc => "KLayout DRC"
    case NetgenLvs => "Netgen LVS"
    case Parasitic => "Parasitic Extraction"
    case Timing => "Timing Analysis"
  }

  /** The summary table's rows, in the report's order: one per tool, every tool once, each
      showing the status its tool recorded or `NOT RUN` when it recorded none. */
  function ReportRows(results: Results): (rows: seq<(string, string)>)
    ensures |rows| == |TOOLS| == 5
    ensures forall t: Tool :: t in TOOLS
    ensures forall i, j :: 0 <= i < j < |TOOLS| ==> TOOLS[i] != TOOLS[j]
    ensures forall i :: 0 <= i < |rows| ==> rows[i].0 == Label(TOOLS[i])
    ensures forall i :: 0 <= i < |rows| && Key(TOOLS[i]) in results ==> rows[i].1 == results[Key(TOOLS[i])]
    ensures forall i :: 0 <= i < |rows| && Key(TOOLS[i]) !in results ==> rows[i].1 == "NOT RUN"
  {
    ToolsListed();
    [(Label(MagicDrc), RowStatus(results, MagicDrc)),
     (Label(KlayoutDrc), RowStatus(results, KlayoutDrc)),
     (Label(NetgenLvs), RowStatus(results, NetgenLvs)),
     (Label(Parasitic), RowStatus(results, Parasitic)),
     (Label(Timing), RowStatus(results, Timing))]
  }

  /** For collected results a row shows `NOT RUN` exactly when its check recorded nothing —
      skipped, or stopped for missing inputs — since no run records that text itself. */
  lemma NotRunMeansAbsent(opts: Options, runs: Runs, tool: Tool)
    requires RunsWellFormed(runs)
    ensures RowStatus(CollectResults(opts, runs), tool) == "NOT RUN" <==> Key(tool) !in CollectResults(opts, runs)
  {
    var results := CollectResults(opts, runs);
    if Key(tool) in results {
      RecordedIsNotNotRun(results[Key(tool)]);
    }
  }

  /** Every recorded status other than `NOT RUN` is PASS; true of no results at all. */
  predicate AllPassed(results: Results) {
    forall k :: k in results && results[k] != "NOT RUN" ==> results[k] == "PASS"
  }

  datatype Banner = ReadyForTapeOut | NotReadyForTapeOut

  /** The report's banner: READY needs every status to be PASS and at least four results. */
  function ReportBanner(results: Results): (b: Banner)
    ensures b == ReadyForTapeOut ==> |results| >= 4
    ensures b == ReadyForTapeOut ==> forall k :: k in results ==> results[k] == "PASS" || results[k] == "NOT RUN"
    ensures AllPassed(results) && |results| >= 4 ==> b == ReadyForTapeOut
  {
    if AllPassed(results) && |results| >= 4 then ReadyForTapeOut else NotReadyForTapeOut
  }

  /** `generate_verification_report` as written: the banner, and the returned `all_passed`,
      which leaves out the banner's count condition. */
  function GenerateReportAsWritten(results: Results): (out: (bool, Banner))
    ensures out.1 == ReportBanner(results)
    ensures out.0 <==> AllPassed(results)
    ensures out.1 == ReadyForTapeOut ==> out.0
  {
    (AllPassed(results), ReportBanner(results))
  }

  /** The exit status `main` ends with: 0 when the report's return value is true, else 1. The
      accumulated `success` of the runs is not consulted. */
  function ExitCodeAsWritten(results: Results): (code: int)
    ensures code == 0 <==> AllPassed(results)
    ensures code == 0 || code == 1
  {
    if GenerateReportAsWritten(results).0 then 0 else 1
  }

  /** Skipping every check leaves no results: the report says NOT READY, yet the suite announces
      readiness and exits 0. */
  lemma AllSkippedExitsZero(runs: Runs)
    requires RunsWellFormed(runs)
    ensures var results := CollectResults(Options(true, true, true, true), runs);
      && results == map[]
      && ReportBanner(results) == NotReadyForTapeOut
      && ExitCodeAsWritten(results) == 0
  {
    var empty: Results := map[];
    assert |empty| == 0;
  }

  /** One passing check is enough for exit code 0 when the rest are skipped. */
  lemma OneCheckExitsZero(runs: Runs)
    requires RunsWellFormed(runs)
    requires runs.timing.Finished? && Passes(Timing, runs.timing.stdout, false)
    ensures var results := CollectResults(Options(true, true, true, false), runs);
      && results == map[Key(Timing) := "PASS"]
      && ReportBanner(results) == NotReadyForTapeOut
      && ExitCodeAsWritten(results) == 0
  {
    var one := map[Key(Timing) := "PASS"];
    assert one.Keys == {Key(Timing)};
  }

  /** The decision the banner states: every check that recorded a status passed, and at least
      four of them did. */
  function TapeOutReady(results: Results): (out: (bool, Banner))
    ensures out.1 == ReportBanner(results)
    ensures out.0 <==> out.1 == ReadyForTapeOut
    ensures out.0 ==> |results| >= 4 && AllPassed(results)
  {
    var banner := ReportBanner(results);
    (banner == ReadyForTapeOut, banner)
  }

  /** The exit status with the banner's decision. */
  function ExitCode(results: Results): (code: int)
    ensures code == 0 <==> ReportBanner(results) == ReadyForTapeOut
    ensures code == 0 || code == 1
  {
    if TapeOutReady(results).0 then 0 else 1
  }

  /** As written, the suite exits 0 exactly when every check that ran passed, however few ran,
      none at all included. */
  lemma ExitAsWrittenOnRuns(opts: Options, runs: Runs)
    requires RunsWellFormed(runs)
    ensures ExitCodeAsWritten(CollectResults(opts, runs)) == 0
      <==> forall t: Tool :: Ran(opts, runs, t) ==> PassedRun(runs, t)
  {
    var results := CollectResults(opts, runs);
    if forall t: Tool :: Ran(opts, runs, t) ==> PassedRun(runs, t) {
      forall k | k in results && results[k] != "NOT RUN"
        ensures results[k] == "PASS"
      {
        assert k == Key(MagicDrc) || k == Key(KlayoutDrc) || k == Key(NetgenLvs)
          || k == Key(Parasitic) || k == Key(Timing);
      }
    } else {
      var t: Tool :| Ran(opts, runs, t) && !PassedRun(runs, t);
      RecordedIsNotNotRun(results[Key(t)]);
    }
  }

  /** With the banner's decision, the suite exits 0 exactly when at least four checks recorded a
      status and every check that ran passed. */
  lemma ExitOnRuns(opts: Options, runs: Runs)
    requires RunsWellFormed(runs)
    ensures ExitCode(CollectResults(opts, runs)) == 0
      <==> |CollectResults(opts, runs)| >= 4 && forall t: Tool :: Ran(opts, runs, t) ==> PassedRun(runs, t)
  {
    ExitAsWrittenOnRuns(opts, runs);
  }

  /** With the banner's decision, exit code 0 means at least four checks recorded a status and
      every one of them is PASS; for collected results, that is at least four of the five checks. */
  lemma ReadyMeansFourPassed(results: Results)
    requires forall k :: k in results ==> Recorded(results[k])
    requires ExitCode(results) == 0
    ensures |results| >= 4 && forall k :: k in results ==> results[k] == "PASS"
  {
    forall k | k in results
      ensures results[k] == "PASS"
    {
      RecordedIsNotNotRun(results[k]);
    }
  }
}
