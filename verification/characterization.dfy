/** Speed-grade binning and the PASS/FAIL columns of the characterization summary: which
    frequency points count as stable, the maximum stable frequency at nominal conditions, the
    grade thresholds, and the speed-grade and peripheral rows of the CSV summary. */
module Characterization {
  import opened Wrappers
  import opened Text

  // ---------------------------------------------------------------------------------------
  // Measurements.

  /** The reply `send_command` hands back: the received line without surrounding whitespace. */
  function Reply(raw: string): string {
    Strip(raw)
  }

  /** One frequency point of the sweep; the current measurement is left out. */
  datatype FreqPoint = FreqPoint(stable: bool)

  /** The point recorded for the raw answer to `FREQ:STABLE?`. */
  function MeasurePoint(raw: string): FreqPoint {
    FreqPoint(Reply(raw) == "TRUE")
  }

  /** A point is stable exactly when the reply, less the whitespace and line end around it, is
      `TRUE`: any other spelling, a lower-case one included, is unstable. */
  lemma StableOnlyOnTrue(lead: string, text: string, ending: string)
    requires forall k :: 0 <= k < |lead| ==> IsSpace(lead[k])
    requires |text| > 0 ==> !IsSpace(text[0]) && !IsSpace(text[|text| - 1])
    requires forall k :: 0 <= k < |ending| ==> IsSpace(ending[k])
    ensures MeasurePoint(lead + (text + ending)).stable <==> text == "TRUE"
  {
    TrimStartSpaces(lead, text + ending);
    StripSpacesAfter(text, ending);
  }

  /** Frequencies in MHz to points, for one voltage and temperature. */
  type Sweep = map<nat, FreqPoint>

  /** Voltage in millivolts to temperature in degrees Celsius to sweep; a missing key is a
      condition that was not characterised. Voltages are keyed in millivolts because the sweep
      visits 1.6, 1.7, 1.8, 1.9 and 2.0 V exactly. */
  type FreqData = map<int, map<int, Sweep>>

  /** The nominal conditions the grade is taken at: 1.8 V and 25 °C. */
  const NOMINAL_MILLIVOLTS: int := 1800
  const NOMINAL_CELSIUS: int := 25
  const TEST_CONDITIONS: string := "1.8V, 25\U{B0}C"

  datatype SpeedGradeRecord = SpeedGradeRecord(grade: string, maxFrequency: nat, testConditions: string)

  /** A functional-validation entry: peripherals carry a status, the instruction-set entry
      does not. Its other fields play no part in the summary. */
  datatype FuncEntry = FuncEntry(status: Option<string>)

  /** The parts of the characterizer's `results` the grade and summary rules read or write. An
      absent `frequency_characterization` or `functional_validation` is the empty map, as
      `results.get(key, {})` reads it. */
  datatype Results = Results(
    frequency: FreqData,
    speedGrade: Option<SpeedGradeRecord>,
    functional: map<string, FuncEntry>)

  // ---------------------------------------------------------------------------------------
  // Maximum stable frequency.

  /** `m` is the largest stable frequency of the sweep, or 0 when no point is stable. */
  predicate IsMaxStable(m: nat, sweep: Sweep) {
    && (forall f :: f in sweep && sweep[f].stable ==> f <= m)
    && (m == 0 || (m in sweep && sweep[m].stable))
  }

  /** The loop over the nominal sweep: starting from 0, every stable frequency raises the
      maximum. The order the dictionary is visited in does not matter. */
  method MaxStableFrequency(sweep: Sweep) returns (m: nat)
    ensures IsMaxStable(m, sweep)
  {
    m := 0;
    var todo := sweep.Keys;
    while todo != {}
      invariant todo <= sweep.Keys
      invariant forall f :: f in sweep && f !in todo && sweep[f].stable ==> f <= m
      invariant m == 0 || (m in sweep && sweep[m].stable)
      decreases |todo|
    {
      var f :| f in todo;
      if sweep[f].stable && f > m {
        m := f;
      }
      todo := todo - {f};
    }
  }

  /** The maximum is determined by the sweep. */
  lemma MaxStableUnique(a: nat, b: nat, sweep: Sweep)
    requires IsMaxStable(a, sweep) && IsMaxStable(b, sweep)
    ensures a == b
  {
  }

  // ---------------------------------------------------------------------------------------
  // Grades.

  datatype Grade = Grade32P | Grade25P | Grade20P | Grade16P | Grade8I | Fail

  /** The grade's name as recorded and printed. */
  function Name(g: Grade): string {
    match g
    case Grade32P => "A328-32P"
    case Grade25P => "A328-25P"
    case Grade20P => "A328-20P"
    case Grade16P => "A328-16P"
    case Grade8I => "A328-8I"
    case Fail => "FAIL"
  }

  /** Better grades rank higher. */
  function Rank(g: Grade): nat {
    match g
    case Grade32P => 5
    case Grade25P => 4
    case Grade20P => 3
    case Grade16P => 2
    case Grade8I => 1
    case Fail => 0
  }

  /** The lowest maximum stable frequency, in MHz, a grade admits. */
  function MinFrequency(g: Grade): nat {
    match g
    case Grade32P => 32
    case Grade25P => 25
    case Grade20P => 20
    case Grade16P => 16
    case Grade8I => 8
    case Fail => 0
  }

  /** The binning rule: the best grade whose frequency the chip reaches, and FAIL below 8 MHz. */
  function GradeFor(maxFrequency: int): (g: Grade)
    ensures g == Fail <==> maxFrequency < 8
    ensures MinFrequency(g) <= maxFrequency || g == Fail
    ensures forall h: Grade :: Rank(h) > Rank(g) ==> maxFrequency < MinFrequency(h)
  {
    if maxFrequency >= 32 then Grade32P
    else if maxFrequency >= 25 then Grade25P
    else if maxFrequency >= 20 then Grade20P
    else if maxFrequency >= 16 then Grade16P
    else if maxFrequency >= 8 then Grade8I
    else Fail
  }

  /** A higher maximum stable frequency never yields a lower grade. */
  lemma GradeMonotone(f1: int, f2: int)
    requires f1 <= f2
    ensures Rank(GradeFor(f1)) <= Rank(GradeFor(f2))
  {
  }

  /** Reads a grade name back; `None` for any other text. */
  function GradeOfName(s: string): (g: Option<Grade>)
    ensures g.Some? ==> Name(g.value) == s
  {
    if s == "A328-32P" then Some(Grade32P)
    else if s == "A328-25P" then Some(Grade25P)
    else if s == "A328-20P" then Some(Grade20P)
    else if s == "A328-16P" then Some(Grade16P)
    else if s == "A328-8I" then Some(Grade8I)
    else if s == "FAIL" then Some(Fail)
    else None
  }

  /** Distinct grades have distinct names, and every name reads back as its grade. */
  lemma NameRoundTrip(g: Grade)
    ensures GradeOfName(Name(g)) == Some(g)
  {
  }

  /** Of the six names only `FAIL` contains `FAIL`. */
  lemma NameContainsFail(g: Grade)
    ensures Contains(Name(g), "FAIL") <==> g == Fail
  {
    if g == Fail {
      ContainsPrefix(Name(g), "FAIL");
    } else if Contains(Name(g), "FAIL") {
      ContainsFirstChar(Name(g), "FAIL");
    }
  }

  /** Of the six names only `FAIL` contains `FAIL`, for every grade at once. */
  lemma NamesContainFail()
    ensures forall g: Grade :: Contains(Name(g), "FAIL") <==> g == Fail
  {
    forall g: Grade
      ensures Contains(Name(g), "FAIL") <==> g == Fail
    {
      NameContainsFail(g);
    }
  }

  // ---------------------------------------------------------------------------------------
  // determine_speed_grade.

  /** Data exists for 1.8 V and 25 °C. */
  predicate HasNominal(results: Results) {
    NOMINAL_MILLIVOLTS in results.frequency && NOMINAL_CELSIUS in results.frequency[NOMINAL_MILLIVOLTS]
  }

  function Nominal(results: Results): Sweep
    requires HasNominal(results)
  {
    results.frequency[NOMINAL_MILLIVOLTS][NOMINAL_CELSIUS]
  }

  /** Without nominal data the answer is `UNKNOWN` and nothing is recorded. Otherwise the grade
      is the binning of the maximum stable nominal frequency, and `speed_grade` records exactly
      that grade, that frequency and the nominal conditions; nothing else changes. */
  method DetermineSpeedGrade(results: Results) returns (grade: string, updated: Results)
    ensures !HasNominal(results) ==> grade == "UNKNOWN" && updated == results
    ensures HasNominal(results) ==>
      && updated.speedGrade.Some?
      && var rec := updated.speedGrade.value;
      && IsMaxStable(rec.maxFrequency, Nominal(results))
      && grade == rec.grade == Name(GradeFor(rec.maxFrequency))
      && rec.testConditions == TEST_CONDITIONS
      && updated == results.(speedGrade := updated.speedGrade)
  {
    if !HasNominal(results) {
      return "UNKNOWN", results;
    }
    var m := MaxStableFrequency(Nominal(results));
    grade := Name(GradeFor(m));
    updated := results.(speedGrade := Some(SpeedGradeRecord(grade, m, TEST_CONDITIONS)));
  }

  // ---------------------------------------------------------------------------------------
  // The CSV summary.

  datatype CsvRow = CsvRow(parameter: string, value: string, units: string, specification: string, status: string)

  const GRADE_SPECIFICATION: string := "A328-16P or better"

  /** The stored grade text, `''` when no grade was recorded. */
  function StoredGrade(results: Results): string {
    if results.speedGrade.Some? then results.speedGrade.value.grade else ""
  }

  /** The speed-grade row as written: the status is PASS whenever the stored grade text does not
      contain `FAIL`. For a recorded grade that is every grade but FAIL, whatever the
      specification column asks, and a missing grade passes too. */
  function SpeedGradeRowAsWritten(results: Results): (row: CsvRow)
    ensures row.specification == GRADE_SPECIFICATION
    ensures row.value == if results.speedGrade.Some? then results.speedGrade.value.grade else "UNKNOWN"
    ensures row.status == "PASS" || row.status == "FAIL"
    ensures row.status == "PASS" <==> !Contains(StoredGrade(results), "FAIL")
    ensures results.speedGrade.None? ==> row.status == "PASS"
    ensures forall g: Grade :: StoredGrade(results) == Name(g) ==> (row.status == "PASS" <==> g != Fail)
  {
    NamesContainFail();
    var shown := if results.speedGrade.Some? then results.speedGrade.value.grade else "UNKNOWN";
    CsvRow("Speed Grade", shown, "", GRADE_SPECIFICATION,
      if !Contains(StoredGrade(results), "FAIL") then "PASS" else "FAIL")
  }

  /** A summary written before any grade was determined reports `UNKNOWN` with status PASS. */
  lemma MissingGradePasses(results: Results)
    requires results.speedGrade.None?
    ensures SpeedGradeRowAsWritten(results).value == "UNKNOWN"
    ensures SpeedGradeRowAsWritten(results).status == "PASS"
  {
  }

  /** A chip graded A328-8I passes the row although the row's specification asks for A328-16P
      or better. */
  lemma EightMhzGradePasses(results: Results, m: nat)
    requires 8 <= m < 16
    requires results.speedGrade == Some(SpeedGradeRecord(Name(GradeFor(m)), m, TEST_CONDITIONS))
    ensures GradeFor(m) == Grade8I && Rank(GradeFor(m)) < Rank(Grade16P)
    ensures SpeedGradeRowAsWritten(results).status == "PASS"
  {
    NameContainsFail(Grade8I);
  }

  /** The speed-grade row against its own specification: PASS exactly when a grade of A328-16P
      or better was recorded. */
  function SpeedGradeRow(results: Results): (row: CsvRow)
    ensures row.specification == GRADE_SPECIFICATION
    ensures row.value == if results.speedGrade.Some? then results.speedGrade.value.grade else "UNKNOWN"
    ensures row.status == "PASS" <==>
      exists g: Grade :: StoredGrade(results) == Name(g) && Rank(g) >= Rank(Grade16P)
  {
    var shown := if results.speedGrade.Some? then results.speedGrade.value.grade else "UNKNOWN";
    var g := GradeOfName(StoredGrade(results));
    var pass := g.Some? && Rank(g.value) >= Rank(Grade16P);
    assert pass <== exists h: Grade :: StoredGrade(results) == Name(h) && Rank(h) >= Rank(Grade16P) by {
      if h: Grade :| StoredGrade(results) == Name(h) && Rank(h) >= Rank(Grade16P) {
        NameRoundTrip(h);
      }
    }
    CsvRow("Speed Grade", shown, "", GRADE_SPECIFICATION, if pass then "PASS" else "FAIL")
  }

  /** After grading, the corrected row passes exactly when the chip reached 16 MHz; the row as
      written passes from 8 MHz on. */
  lemma GradedRowStatus(results: Results, m: nat)
    requires results.speedGrade == Some(SpeedGradeRecord(Name(GradeFor(m)), m, TEST_CONDITIONS))
    ensures SpeedGradeRow(results).status == "PASS" <==> m >= 16
    ensures SpeedGradeRowAsWritten(results).status == "PASS" <==> m >= 8
  {
    var g := GradeFor(m);
    NameRoundTrip(g);
    NameContainsFail(g);
    if SpeedGradeRow(results).status == "PASS" {
      var h: Grade :| StoredGrade(results) == Name(h) && Rank(h) >= Rank(Grade16P);
      NameRoundTrip(h);
    }
  }

  // ---------------------------------------------------------------------------------------
  // Functional peripherals.

  /** The entries that carry a status. */
  function WithStatus(entries: map<string, FuncEntry>): set<string> {
    set k | k in entries && entries[k].status.Some?
  }

  /** The entries whose status is PASS. */
  function Passed(entries: map<string, FuncEntry>): set<string> {
    set k | k in entries && entries[k].status == Some("PASS")
  }

  lemma {:induction false} SubsetSize<T>(a: set<T>, b: set<T>)
    requires a <= b
    ensures |a| <= |b|
    ensures |a| == |b| ==> a == b
    decreases |a|
  {
    if a == {} {
      if b != {} {
        var x :| x in b;
        assert |b| >= 1 by { assert {x} <= b; assert b == {x} + (b - {x}); }
      }
    } else {
      var x :| x in a;
      SubsetSize(a - {x}, b - {x});
      assert |a - {x}| == |a| - 1 && |b - {x}| == |b| - 1;
      if |a| == |b| {
        assert a == (a - {x}) + {x} && b == (b - {x}) + {x};
      }
    }
  }

  /** The functional row, written only when validation results exist: passed over total, counting
      just the entries with a status (the instruction-set entry has none), and PASS exactly when
      every entry with a status passed. */
  function PeripheralRow(entries: map<string, FuncEntry>): (row: Option<CsvRow>)
    ensures row.Some? <==> |entries| > 0
    ensures row.Some? ==>
      (row.value.status == "PASS" <==> forall k :: k in entries && entries[k].status.Some? ==> entries[k].status == Some("PASS"))
    ensures row.Some? ==>
      row.value.value == Decimal(|Passed(entries)|) + "/" + Decimal(|WithStatus(entries)|)
  {
    if |entries| == 0 then None
    else
      var passed := Passed(entries);
      var total := WithStatus(entries);
      SubsetSize(passed, total);
      assert (forall k :: k in entries && entries[k].status.Some? ==> entries[k].status == Some("PASS")) ==> passed == total;
      assert passed == total ==> forall k :: k in entries && entries[k].status.Some? ==> k in total && k in passed;
      Some(CsvRow("Functional Peripherals", Decimal(|passed|) + "/" + Decimal(|total|), "",
        Decimal(|total|) + "/" + Decimal(|total|), if |passed| == |total| then "PASS" else "FAIL"))
  }

  /** An entry without a status, such as the instruction-set results, changes neither the counts
      nor the status of a row that is written anyway. */
  lemma EntryWithoutStatusIgnored(entries: map<string, FuncEntry>, key: string, entry: FuncEntry)
    requires |entries| > 0 && key !in entries && entry.status.None?
    ensures PeripheralRow(entries[key := entry]) == PeripheralRow(entries)
  {
    var more := entries[key := entry];
    assert |more| > 0 by { assert key in more; }
    assert Passed(more) == Passed(entries);
    assert WithStatus(more) == WithStatus(entries);
  }
}
