/** The `detect` goal of com.github.ELiJuY.TestSmellsMojo: it correlates every
    walked `.java` test file with a production file of the same name, writes
    the detector's input CSV with forward slashes, picks the newest
    `Output_TestSmellDetection*.csv` the detector left behind, and reads the
    numeric smell counts out of it. */
module ElijuyMojo {
  import opened Results
  import opened JavaText
  import opened Streams
  import opened Correlation

  // ==================================================================
  // generateCsv
  // ==================================================================

  /** Any walked path ending in `.java` is treated as a test file. */
  predicate IsTestSource(path: string) {
    EndsWith(path, ".java")
  }

  /** The walk of the test tree filtered to test files. */
  function TestFiles(testWalk: seq<string>): seq<string> {
    Filter(IsTestSource, testWalk)
  }

  /** The record for one test file: the production file looked up under the
      test file's own name. */
  function RecordFor(artifactId: string, testPath: string, mainWalk: seq<string>): CorrelationRecord {
    CorrelationRecord(artifactId, testPath, FindProductionFile(mainWalk, FileName(testPath)))
  }

  /** `path.replace("\\", "/")` */
  function Normalize(path: string): string {
    Replace(path, "\\", "/")
  }

  /** A normalised path holds no backslash. */
  lemma NormalizeRemovesBackslashes(path: string)
    ensures '\\' !in Normalize(path)
  {
    ReplaceRemovesChar(path, '\\', "/");
  }

  /** Normalising adds no comma. */
  lemma NormalizeKeepsCommaFree(path: string)
    requires ',' !in path
    ensures ',' !in Normalize(path)
  {
    ReplaceKeepsAbsent(path, "\\", "/", ',');
  }

  /** The line written for a record: artifact id and normalised test path,
      then a comma and the normalised production path only when there is
      one. */
  function CsvLine(rec: CorrelationRecord): string {
    rec.projectId + "," + Normalize(rec.testPath)
    + match rec.productionPath
      case Some(p) => "," + Normalize(p)
      case None => ""
  }

  /** The record with both paths normalised: what the line carries. */
  function Normalized(rec: CorrelationRecord): CorrelationRecord {
    CorrelationRecord(
      rec.projectId,
      Normalize(rec.testPath),
      match rec.productionPath
      case Some(p) => Some(Normalize(p))
      case None => None)
  }

  /** How a reader of the input CSV takes a line apart: two fields are a
      test file without production file, three fields one with it. */
  function ParseCsvLine(line: string): Option<CorrelationRecord> {
    var fields := SplitAll(line);
    if |fields| == 2 then Some(CorrelationRecord(fields[0], fields[1], None))
    else if |fields| == 3 then Some(CorrelationRecord(fields[0], fields[1], Some(fields[2])))
    else None
  }

  /** With comma-free ids and paths, reading a written line back gives the
      record with normalised paths, which contain no backslash; the line has
      three fields exactly when a production path was written. */
  lemma CsvLineRoundTrip(rec: CorrelationRecord)
    requires ',' !in rec.projectId && ',' !in rec.testPath
    requires rec.productionPath.Some? ==> ',' !in rec.productionPath.value
    ensures ParseCsvLine(CsvLine(rec)) == Some(Normalized(rec))
    ensures |SplitAll(CsvLine(rec))| == if rec.productionPath.Some? then 3 else 2
    ensures forall k :: 1 <= k < |SplitAll(CsvLine(rec))| ==> '\\' !in SplitAll(CsvLine(rec))[k]
  {
    var n := Normalized(rec);
    NormalizeKeepsCommaFree(rec.testPath);
    NormalizeRemovesBackslashes(rec.testPath);
    var fields := [n.projectId, n.testPath];
    if rec.productionPath.Some? {
      NormalizeKeepsCommaFree(rec.productionPath.value);
      NormalizeRemovesBackslashes(rec.productionPath.value);
      fields := fields + [n.productionPath.value];
      assert fields[1..][1..] == [n.productionPath.value];
      assert JoinFields(fields[1..]) == n.testPath + "," + n.productionPath.value;
      assert JoinFields(fields) == CsvLine(rec);
    } else {
      assert JoinFields(fields) == CsvLine(rec);
    }
    SplitAllJoinFields(fields);
  }

  /** The `,productionPath` suffix is written exactly when some walked
      production path has the test file's name, and it is the first such. */
  lemma CsvLineFieldCount(artifactId: string, testPath: string, mainWalk: seq<string>)
    requires ',' !in artifactId && ',' !in testPath
    requires forall k :: 0 <= k < |mainWalk| ==> ',' !in mainWalk[k]
    ensures |SplitAll(CsvLine(RecordFor(artifactId, testPath, mainWalk)))| ==
              if exists k :: 0 <= k < |mainWalk| && FileName(mainWalk[k]) == FileName(testPath) then 3 else 2
  {
    var rec := RecordFor(artifactId, testPath, mainWalk);
    CsvLineRoundTrip(rec);
  }

  /** The writes of one iteration of `generateCsv`: artifact id, comma,
      normalised test path, and the comma and normalised production path
      only when one was found. */
  method WriteRecord(artifactId: string, testFile: string, mainWalk: seq<string>) returns (line: string)
    ensures line == CsvLine(RecordFor(artifactId, testFile, mainWalk))
  {
    var productionFile := FindProductionFile(mainWalk, FileName(testFile));
    line := artifactId + "," + Normalize(testFile);
    if productionFile.Some? {
      line := line + "," + Normalize(productionFile.value);
    }
  }

  /** The lines written for a list of test files, in its order. */
  function CsvLines(artifactId: string, testFiles: seq<string>, mainWalk: seq<string>): (lines: seq<string>)
    ensures |lines| == |testFiles|
    decreases |testFiles|
  {
    if |testFiles| == 0 then []
    else
      CsvLines(artifactId, testFiles[..|testFiles| - 1], mainWalk)
      + [CsvLine(RecordFor(artifactId, testFiles[|testFiles| - 1], mainWalk))]
  }

  /** Line `k` is the line of the record for test file `k`. */
  lemma {:induction false} CsvLinesAt(artifactId: string, testFiles: seq<string>, mainWalk: seq<string>, k: int)
    requires 0 <= k < |testFiles|
    ensures CsvLines(artifactId, testFiles, mainWalk)[k] == CsvLine(RecordFor(artifactId, testFiles[k], mainWalk))
    decreases |testFiles|
  {
    if k < |testFiles| - 1 {
      CsvLinesAt(artifactId, testFiles[..|testFiles| - 1], mainWalk, k);
    }
  }

  /** `generateCsv`: one line per walked test file, in walk order, each the
      line of the record for that file. */
  method GenerateCsv(artifactId: string, testWalk: seq<string>, mainWalk: seq<string>)
    returns (lines: seq<string>)
    ensures |lines| == |TestFiles(testWalk)|
    ensures forall k :: 0 <= k < |lines| ==>
              lines[k] == CsvLine(RecordFor(artifactId, TestFiles(testWalk)[k], mainWalk))
  {
    var testFiles := Filter(IsTestSource, testWalk);
    lines := [];
    for k := 0 to |testFiles|
      invariant lines == CsvLines(artifactId, testFiles[..k], mainWalk)
    {
      var line := WriteRecord(artifactId, testFiles[k], mainWalk);
      assert testFiles[..k + 1][..k] == testFiles[..k];
      lines := lines + [line];
    }
    assert testFiles[..|testFiles|] == testFiles;
    forall k | 0 <= k < |lines|
      ensures lines[k] == CsvLine(RecordFor(artifactId, testFiles[k], mainWalk))
    {
      CsvLinesAt(artifactId, testFiles, mainWalk, k);
    }
  }

  // ==================================================================
  // runTsDetect: exit code and output selection
  // ==================================================================

  /** A file of the detector's working directory, with its `lastModified`. */
  datatype ListedFile = ListedFile(name: string, lastModified: int)

  /** The name pattern of the detector's report. */
  predicate IsReport(f: ListedFile) {
    StartsWith(f.name, "Output_TestSmellDetection") && EndsWith(f.name, ".csv")
  }

  /** `files[i]` is the newest file, and every earlier file is strictly
      older: the first of the newest. */
  predicate IsFirstNewest(files: seq<ListedFile>, i: int) {
    && 0 <= i < |files|
    && (forall j :: 0 <= j < |files| ==> files[j].lastModified <= files[i].lastModified)
    && (forall j :: 0 <= j < i ==> files[j].lastModified < files[i].lastModified)
  }

  /** The tail of `runTsDetect`, after the detector process ended with
      `exitCode` and left `workDir` as listed: a non-zero exit code fails; no
      report fails; otherwise the first of the newest reports. */
  method RunTsDetect(exitCode: int, workDir: seq<ListedFile>) returns (r: Result<ListedFile, Error>)
    ensures exitCode != 0 ==> r == Failure(ExitFailure(exitCode))
    ensures exitCode == 0 && Filter(IsReport, workDir) == [] ==>
              r == Failure(MissingOutput)
    ensures exitCode == 0 && Filter(IsReport, workDir) != [] ==>
              exists i :: IsFirstNewest(Filter(IsReport, workDir), i) && r == Success(Filter(IsReport, workDir)[i])
    ensures r.Success? ==> r.value in workDir && IsReport(r.value)
  {
    if exitCode != 0 {
      return Failure(ExitFailure(exitCode));
    }
    var outputs := Filter(IsReport, workDir);
    if |outputs| == 0 {
      return Failure(MissingOutput);
    }
    var outputCsv := outputs[0];
    ghost var newest := 0;
    for i := 0 to |outputs|
      invariant 0 <= newest < |outputs| && outputCsv == outputs[newest]
      invariant forall j :: 0 <= j < i ==> outputs[j].lastModified <= outputCsv.lastModified
      invariant forall j :: 0 <= j < newest ==> outputs[j].lastModified < outputCsv.lastModified
    {
      if outputs[i].lastModified > outputCsv.lastModified {
        outputCsv := outputs[i];
        newest := i;
      }
    }
    assert IsFirstNewest(outputs, newest);
    return Success(outputCsv);
  }

  // ==================================================================
  // printTestSmells
  // ==================================================================

  /** The column holding the test file's path. */
  const TestPathColumn := 2

  /** The first smell column. */
  const SmellOffset := 7

  /** A positive count read from a smell column, with the column's trimmed
      header as the smell's name. */
  datatype Finding = Finding(smell: string, count: int)

  /** The count in a cell: the cell without its surrounding characters at
      or below U+0020, parsed as an `int`; none when nothing is left or it
      does not parse. */
  function CellCount(cell: string): Option<int>
    decreases |cell|
  {
    if |cell| > 0 && cell[0] <= ' ' then CellCount(cell[1..])
    else if |cell| > 0 && cell[|cell| - 1] <= ' ' then CellCount(cell[..|cell| - 1])
    else if |cell| == 0 then None
    else ParseInt(cell)
  }

  /** The count is what the column loop computes: `trim`, skip when empty,
      then `Integer.parseInt`. */
  lemma {:induction false} CellCountOfTrim(cell: string)
    ensures CellCount(cell) == if |Trim(cell)| == 0 then None else ParseInt(Trim(cell))
    decreases |cell|
  {
    if |cell| > 0 && cell[0] <= ' ' {
      CellCountOfTrim(cell[1..]);
    } else if |cell| > 0 && cell[|cell| - 1] <= ' ' {
      var front := cell[..|cell| - 1];
      CellCountOfTrim(front);
      assert TrimStart(cell) == cell;
      assert |front| == 0 || front[0] == cell[0];
      assert TrimStart(front) == front;
    } else {
      assert TrimStart(cell) == cell;
    }
  }

  /** The counts of all cells of a row, cell by cell. */
  function CellCounts(values: seq<string>): (counts: seq<Option<int>>)
    ensures |counts| == |values|
    decreases |values|
  {
    if |values| == 0 then []
    else CellCounts(values[..|values| - 1]) + [CellCount(values[|values| - 1])]
  }

  /** Entry `k` of the counts is the count of cell `k`. */
  lemma {:induction false} CellCountsAt(values: seq<string>, k: int)
    requires 0 <= k < |values|
    ensures CellCounts(values)[k] == CellCount(values[k])
    decreases |values|
  {
    if k < |values| - 1 {
      CellCountsAt(values[..|values| - 1], k);
    }
  }

  /** Column `i` is examined (at or after the offset, inside both the header
      and the row) and its count is above zero. */
  predicate IsPositive(headers: seq<string>, counts: seq<Option<int>>, i: int) {
    && SmellOffset <= i < |headers|
    && i < |counts|
    && counts[i].Some?
    && counts[i].value > 0
  }

  /** The findings of the columns before `n`, in column order. */
  function FindingsBefore(headers: seq<string>, counts: seq<Option<int>>, n: int): seq<Finding>
    decreases n
  {
    if n <= SmellOffset then []
    else
      FindingsBefore(headers, counts, n - 1)
      + if IsPositive(headers, counts, n - 1)
        then [Finding(Trim(headers[n - 1]), counts[n - 1].value)]
        else []
  }

  /** There are no findings before `n` exactly when no column before `n` is
      examined with a positive count. */
  lemma {:induction false} FindingsBeforeEmpty(headers: seq<string>, counts: seq<Option<int>>, n: int)
    ensures FindingsBefore(headers, counts, n) == [] <==>
              forall i :: SmellOffset <= i < n ==> !IsPositive(headers, counts, i)
    decreases n
  {
    if n > SmellOffset {
      FindingsBeforeEmpty(headers, counts, n - 1);
    }
  }

  /** Each finding is the trimmed header and the count of an examined
      column with a positive count. */
  lemma {:induction false} FindingsBeforeSource(headers: seq<string>, counts: seq<Option<int>>, n: int, f: Finding)
    requires f in FindingsBefore(headers, counts, n)
    ensures exists i :: SmellOffset <= i < n && IsPositive(headers, counts, i)
                        && f == Finding(Trim(headers[i]), counts[i].value)
    decreases n
  {
    if f !in FindingsBefore(headers, counts, n - 1) {
      assert IsPositive(headers, counts, n - 1);
    } else {
      FindingsBeforeSource(headers, counts, n - 1, f);
    }
  }

  /** An examined column adds a finding exactly when its count is positive. */
  lemma FindingsBeforeStep(headers: seq<string>, counts: seq<Option<int>>, n: int)
    requires SmellOffset <= n
    ensures FindingsBefore(headers, counts, n + 1) ==
              FindingsBefore(headers, counts, n)
              + if IsPositive(headers, counts, n) then [Finding(Trim(headers[n]), counts[n].value)] else []
  {
  }

  /** The findings of a row: every column up to the shorter of header and row. */
  function Findings(headers: seq<string>, values: seq<string>): seq<Finding> {
    FindingsBefore(headers, CellCounts(values), if |headers| < |values| then |headers| else |values|)
  }

  /** Some examined column of the row holds a positive count. */
  predicate RowHasSmell(headers: seq<string>, values: seq<string>) {
    exists i :: 0 <= i < |headers| && IsPositive(headers, CellCounts(values), i)
  }

  /** A row has findings exactly when it has a positive examined column. */
  lemma FindingsIffSmell(headers: seq<string>, values: seq<string>)
    ensures Findings(headers, values) != [] <==> RowHasSmell(headers, values)
  {
    FindingsBeforeEmpty(headers, CellCounts(values), if |headers| < |values| then |headers| else |values|);
  }

  /** The log line of a finding: `smellName + ": " + count`. */
  function SmellLine(f: Finding): string {
    f.smell + ": " + IntToString(f.count)
  }

  function SmellLines(fs: seq<Finding>): seq<string>
    decreases |fs|
  {
    if |fs| == 0 then [] else SmellLines(fs[..|fs| - 1]) + [SmellLine(fs[|fs| - 1])]
  }

  /** One more finding adds its line at the end. */
  lemma SmellLinesAppend(fs: seq<Finding>, f: Finding)
    ensures SmellLines(fs + [f]) == SmellLines(fs) + [SmellLine(f)]
  {
    assert (fs + [f])[..|fs|] == fs;
  }

  const NoSmellsMessage := "No code smells found."

  /** The log of one row: its file name, a line per finding, the no-smells
      message when there is none, and a blank line. */
  function RowLog(headers: seq<string>, values: seq<string>): seq<string>
    requires |values| > TestPathColumn
  {
    var findings := Findings(headers, values);
    ["Code smells for file " + FileName(values[TestPathColumn]) + ":"]
    + SmellLines(findings)
    + (if findings == [] then [NoSmellsMessage] else [])
    + [""]
  }

  /** A finding's line ends in a digit, so it never reads as the no-smells
      message. */
  lemma {:induction false} SmellLinesOmitMessage(fs: seq<Finding>)
    ensures NoSmellsMessage !in SmellLines(fs)
    decreases |fs|
  {
    if |fs| > 0 {
      SmellLinesOmitMessage(fs[..|fs| - 1]);
      var f := fs[|fs| - 1];
      var digits := IntToString(f.count);
      IntToStringEndsInDigit(f.count);
      assert SmellLine(f)[|SmellLine(f)| - 1] == digits[|digits| - 1];
      assert NoSmellsMessage[|NoSmellsMessage| - 1] == '.';
    }
  }

  /** "No code smells found." is logged for a row exactly when none of its
      examined cells holds a positive count. */
  lemma NoSmellsLoggedIff(headers: seq<string>, values: seq<string>)
    requires |values| > TestPathColumn
    ensures NoSmellsMessage in RowLog(headers, values) <==> !RowHasSmell(headers, values)
  {
    FindingsIffSmell(headers, values);
    SmellLinesOmitMessage(Findings(headers, values));
    var first := "Code smells for file " + FileName(values[TestPathColumn]) + ":";
    assert first[|first| - 1] == ':';
  }

  /** What the reader has done after some rows: the log so far, the global
      flag, and the exception that stopped it, if one did. */
  datatype ReportState = ReportState(log: seq<string>, found: bool, failure: Option<Error>)

  /** One row: a row of fewer than three fields fails at `values[2]`,
      before anything of it is logged. */
  function Step(st: ReportState, headers: seq<string>, line: string): ReportState {
    if st.failure.Some? then st
    else
      var values := SplitAll(line);
      if |values| <= TestPathColumn then
        ReportState(st.log, st.found, Some(IndexOutOfBounds(TestPathColumn)))
      else
        ReportState(st.log + RowLog(headers, values), st.found || Findings(headers, values) != [], None)
  }

  function Process(st: ReportState, headers: seq<string>, rows: seq<string>): ReportState
    decreases |rows|
  {
    if |rows| == 0 then st else Process(Step(st, headers, rows[0]), headers, rows[1..])
  }

  /** Nothing happens after an exception. */
  lemma {:induction false} ProcessAfterFailure(st: ReportState, headers: seq<string>, rows: seq<string>)
    requires st.failure.Some?
    ensures Process(st, headers, rows) == st
    decreases |rows|
  {
    if |rows| > 0 {
      ProcessAfterFailure(st, headers, rows[1..]);
    }
  }

  /** A row too short to have a test path column. */
  predicate IsShortRow(line: string) {
    |SplitAll(line)| <= TestPathColumn
  }

  /** Starting without failure, reading fails exactly when some row is too
      short, always at index 2; otherwise the flag is set exactly when it
      was already or some row has an examined positive cell. */
  lemma {:induction false} ProcessOutcome(st: ReportState, headers: seq<string>, rows: seq<string>)
    requires st.failure.None?
    ensures Process(st, headers, rows).failure.Some? <==> exists r :: r in rows && IsShortRow(r)
    ensures Process(st, headers, rows).failure.Some? ==>
              Process(st, headers, rows).failure == Some(IndexOutOfBounds(TestPathColumn))
    ensures Process(st, headers, rows).failure.None? ==>
              (Process(st, headers, rows).found <==>
                 st.found || exists r :: r in rows && RowHasSmell(headers, SplitAll(r)))
    decreases |rows|
  {
    if |rows| > 0 {
      var next := Step(st, headers, rows[0]);
      assert forall r :: r in rows <==> r == rows[0] || r in rows[1..] by {
        assert rows == [rows[0]] + rows[1..];
      }
      if next.failure.Some? {
        ProcessAfterFailure(next, headers, rows[1..]);
        assert IsShortRow(rows[0]) && rows[0] in rows;
      } else {
        FindingsIffSmell(headers, SplitAll(rows[0]));
        ProcessOutcome(next, headers, rows[1..]);
      }
    }
  }

  /** What `printTestSmells` logs and returns, or the exception it throws. */
  datatype Report = Report(log: seq<string>, outcome: Result<bool, Error>)

  /** The whole report: no header line means `false` and nothing logged;
      otherwise the header is split with `split(",")` and the rows read in
      order. */
  function Interpret(reportLines: seq<string>): Report {
    if |reportLines| == 0 then Report([], Success(false))
    else
      var st := Process(ReportState([], false, None), Split(reportLines[0]), reportLines[1..]);
      Report(st.log, if st.failure.Some? then Failure(st.failure.value) else Success(st.found))
  }

  /** The result is an index error when some data row is too short, and
      otherwise true exactly when some data row has an examined cell that
      parses to a positive `int`. */
  lemma InterpretOutcome(reportLines: seq<string>)
    requires |reportLines| > 0
    ensures Interpret(reportLines).outcome ==
              if exists r :: r in reportLines[1..] && IsShortRow(r)
              then Failure(IndexOutOfBounds(TestPathColumn))
              else Success(exists r :: r in reportLines[1..] && RowHasSmell(Split(reportLines[0]), SplitAll(r)))
  {
    ProcessOutcome(ReportState([], false, None), Split(reportLines[0]), reportLines[1..]);
  }

  /** The result does not depend on the order of the data rows. */
  lemma OutcomeIgnoresRowOrder(header: string, rows: seq<string>, reordered: seq<string>)
    requires multiset(rows) == multiset(reordered)
    ensures Interpret([header] + rows).outcome == Interpret([header] + reordered).outcome
  {
    assert ([header] + rows)[1..] == rows;
    assert ([header] + reordered)[1..] == reordered;
    InterpretOutcome([header] + rows);
    InterpretOutcome([header] + reordered);
    assert forall r :: r in rows <==> r in reordered by {
      forall r ensures r in rows <==> r in reordered {
        assert r in rows <==> r in multiset(rows);
        assert r in reordered <==> r in multiset(reordered);
      }
    }
  }

  /** Cell `i` of a row, as the column loop reads it: trimmed, skipped when
      empty, skipped when it does not parse. */
  method ReadCount(values: seq<string>, i: int) returns (count: Option<int>)
    requires 0 <= i < |values|
    ensures count == CellCounts(values)[i]
  {
    CellCountsAt(values, i);
    CellCountOfTrim(values[i]);
    var rawValue := Trim(values[i]);
    if |rawValue| == 0 {
      return None;
    }
    count := ParseInt(rawValue);
  }

  /** The column loop of `printTestSmells` for one row: from the first smell
      column while both the header and the row last, a line per trimmed cell
      that parses to a positive `int`; the flag says whether there was one. */
  method LogSmells(headers: seq<string>, values: seq<string>) returns (lines: seq<string>, smellsFoundInTest: bool)
    ensures lines == SmellLines(Findings(headers, values))
    ensures smellsFoundInTest <==> Findings(headers, values) != []
  {
    lines := [];
    smellsFoundInTest := false;
    ghost var counts := CellCounts(values);
    ghost var findings: seq<Finding> := [];
    var i := SmellOffset;
    while i < |headers| && i < |values|
      invariant SmellOffset <= i
      invariant i == SmellOffset || (i <= |headers| && i <= |values|)
      invariant findings == FindingsBefore(headers, counts, i)
      invariant lines == SmellLines(findings)
      invariant smellsFoundInTest <==> findings != []
    {
      var smellName := Trim(headers[i]);
      var count := ReadCount(values, i);
      FindingsBeforeStep(headers, counts, i);
      if count.Some? && count.value > 0 {
        var f := Finding(smellName, count.value);
        SmellLinesAppend(findings, f);
        findings := findings + [f];
        smellsFoundInTest := true;
        lines := lines + [smellName + ": " + IntToString(count.value)];
      }
      i := i + 1;
    }
    assert FindingsBefore(headers, counts, i) == Findings(headers, values);
  }

  /** The body of the row loop of `printTestSmells` for a row that has a test
      path column: the file's line, the smell lines or the no-smells message,
      and a blank line; the flag says whether the row had a finding. */
  method LogRow(headers: seq<string>, values: seq<string>) returns (rowLog: seq<string>, smellsFoundInTest: bool)
    requires |values| > TestPathColumn
    ensures rowLog == RowLog(headers, values)
    ensures smellsFoundInTest <==> Findings(headers, values) != []
  {
    var testFileName := FileName(values[TestPathColumn]);
    var smellLines;
    smellLines, smellsFoundInTest := LogSmells(headers, values);
    rowLog := ["Code smells for file " + testFileName + ":"] + smellLines;
    if !smellsFoundInTest {
      rowLog := rowLog + [NoSmellsMessage];
    }
    rowLog := rowLog + [""];
  }

  /** `printTestSmells`: reads the report line by line, logging as it goes,
      and returns whether any smell was found. */
  method PrintTestSmells(reportLines: seq<string>) returns (log: seq<string>, outcome: Result<bool, Error>)
    ensures reportLines == [] ==> log == [] && outcome == Success(false)
    ensures Report(log, outcome) == Interpret(reportLines)
  {
    var smellsFoundGlobal := false;
    log := [];
    if |reportLines| == 0 {
      return log, Success(false);
    }
    var headers := Split(reportLines[0]);
    var rows := reportLines[1..];
    var k := 0;
    while k < |rows|
      invariant 0 <= k <= |rows|
      invariant Process(ReportState([], false, None), headers, rows)
                == Process(ReportState(log, smellsFoundGlobal, None), headers, rows[k..])
    {
      assert rows[k..][0] == rows[k] && rows[k..][1..] == rows[k + 1..];
      var values := SplitAll(rows[k]);
      if |values| <= TestPathColumn {
        ProcessAfterFailure(ReportState(log, smellsFoundGlobal, Some(IndexOutOfBounds(TestPathColumn))), headers, rows[k + 1..]);
        return log, Failure(IndexOutOfBounds(TestPathColumn));
      }
      var rowLog, smellsFoundInTest := LogRow(headers, values);
      log := log + rowLog;
      smellsFoundGlobal := smellsFoundGlobal || smellsFoundInTest;
      k := k + 1;
    }
    return log, Success(smellsFoundGlobal);
  }
}
