/** The `detect` goal of es.upm.elias.testsmells.TestSmellsMojo: it correlates
    every walked `*Test.java` file with the production file named without the
    `Test`, writes the detector's input CSV with the paths as they are, checks
    that the detector left its fixed report behind, and lists the smell
    columns of each row that hold `true`. */
module UpmMojo {
  import opened Results
  import opened JavaText
  import opened Streams
  import opened Correlation

  // ==================================================================
  // generateCsv
  // ==================================================================

  /** The suffix of a test file's name. */
  const TestSuffix := "Test.java"

  /** Only walked paths ending in `Test.java` are test files. */
  predicate IsTestSource(path: string) {
    EndsWith(path, TestSuffix)
  }

  /** The walk of the test tree filtered to test files. */
  function TestFiles(testWalk: seq<string>): seq<string> {
    Filter(IsTestSource, testWalk)
  }

  /** There is no test file exactly when no walked path ends in `Test.java`. */
  lemma TestFilesEmptyIff(testWalk: seq<string>)
    ensures TestFiles(testWalk) == [] <==> forall k :: 0 <= k < |testWalk| ==> !IsTestSource(testWalk[k])
  {
    FilterEmpty(IsTestSource, testWalk);
  }

  /** `name.replace("Test.java", ".java")` */
  function DeriveName(name: string): string {
    Replace(name, TestSuffix, ".java")
  }

  /** A name ending in `Test.java` loses that `Test`; when the text before it
      holds no other `Test.java`, nothing else changes: `FooTest.java`
      becomes `Foo.java`. */
  lemma DeriveNameStripsTest(stem: string)
    ensures DeriveName(stem + TestSuffix) == DeriveName(stem) + ".java"
    ensures !Occurs(stem, TestSuffix) ==> DeriveName(stem + TestSuffix) == stem + ".java"
  {
    assert forall d :: 0 < d < |TestSuffix| ==> TestSuffix[d] != TestSuffix[0];
    ReplaceTrailingTarget(stem, TestSuffix, ".java");
    if !Occurs(stem, TestSuffix) {
      ReplaceWithoutOccurrence(stem, TestSuffix, ".java");
    }
  }

  /** The name looked up for `FooTest.java` is `Foo.java`. */
  lemma DeriveNameExample()
    ensures DeriveName("FooTest.java") == "Foo.java"
  {
    assert "FooTest.java" == "Foo" + TestSuffix;
    DeriveNameStripsTest("Foo");
  }

  /** The production name looked up for a test file. */
  function ProductionName(testPath: string): string {
    DeriveName(FileName(testPath))
  }

  /** A test file's production name ends in `.java`, so it is never empty. */
  lemma ProductionNameOfTest(testPath: string)
    requires IsTestSource(testPath)
    ensures EndsWith(ProductionName(testPath), ".java")
  {
    FileNameKeepsSuffix(testPath, TestSuffix);
    var name := FileName(testPath);
    var stem := name[..|name| - |TestSuffix|];
    assert name == stem + TestSuffix;
    DeriveNameStripsTest(stem);
  }

  /** The record for one test file: the production file looked up under the
      derived name. */
  function RecordFor(artifactId: string, testPath: string, mainWalk: seq<string>): CorrelationRecord {
    CorrelationRecord(artifactId, testPath, FindProductionFile(mainWalk, ProductionName(testPath)))
  }

  /** The line written for a record: artifact id, test path and production
      path, unnormalised, always separated by two commas; an empty third
      field when there is no production file. */
  function CsvLine(rec: CorrelationRecord): string {
    rec.projectId + "," + rec.testPath + ","
    + match rec.productionPath
      case Some(p) => p
      case None => ""
  }

  /** How a reader of the input CSV takes a line apart: three fields, the
      third empty when there is no production file. */
  function ParseCsvLine(line: string): Option<CorrelationRecord> {
    var fields := SplitAll(line);
    if |fields| != 3 then None
    else Some(CorrelationRecord(fields[0], fields[1], if fields[2] == "" then None else Some(fields[2])))
  }

  /** With comma-free ids and paths and a non-empty production path, reading
      a written line back gives the record, and the line has three fields. */
  lemma CsvLineRoundTrip(rec: CorrelationRecord)
    requires ',' !in rec.projectId && ',' !in rec.testPath
    requires rec.productionPath.Some? ==> ',' !in rec.productionPath.value && rec.productionPath.value != ""
    ensures SplitAll(CsvLine(rec)) ==
              [rec.projectId, rec.testPath, if rec.productionPath.Some? then rec.productionPath.value else ""]
    ensures ParseCsvLine(CsvLine(rec)) == Some(rec)
  {
    var third := if rec.productionPath.Some? then rec.productionPath.value else "";
    var fields := [rec.projectId, rec.testPath, third];
    assert fields[1..][1..] == [third];
    assert JoinFields(fields[1..]) == rec.testPath + "," + third;
    assert JoinFields(fields) == CsvLine(rec);
    SplitAllJoinFields(fields);
  }

  /** For a test file and comma-free paths, the line always has three
      fields, and the third is empty exactly when no walked production path
      has the derived name. */
  lemma CsvLineFields(artifactId: string, testPath: string, mainWalk: seq<string>)
    requires ',' !in artifactId && ',' !in testPath && IsTestSource(testPath)
    requires forall k :: 0 <= k < |mainWalk| ==> ',' !in mainWalk[k]
    ensures |SplitAll(CsvLine(RecordFor(artifactId, testPath, mainWalk)))| == 3
    ensures SplitAll(CsvLine(RecordFor(artifactId, testPath, mainWalk)))[2] == "" <==>
              forall k :: 0 <= k < |mainWalk| ==> FileName(mainWalk[k]) != ProductionName(testPath)
  {
    var rec := RecordFor(artifactId, testPath, mainWalk);
    if rec.productionPath.Some? {
      ProductionNameOfTest(testPath);
      var p := rec.productionPath.value;
      assert |FileName(p)| > 0;
    }
    CsvLineRoundTrip(rec);
  }

  /** The writes of one iteration of `generateCsv`. */
  method WriteRecord(artifactId: string, testFile: string, mainWalk: seq<string>) returns (line: string)
    ensures line == CsvLine(RecordFor(artifactId, testFile, mainWalk))
  {
    var testName := DeriveName(FileName(testFile));
    var productionFile := FindProductionFile(mainWalk, testName);
    line := artifactId + "," + testFile + ",";
    if productionFile.Some? {
      line := line + productionFile.value;
    }
  }

  /** The lines written for a list of test files, in its order. */
  function CsvLines(artifactId: string, testFiles: seq<string>, mainWalk: seq<string>): (lines: seq<string>)
    ensures |lines| == |testFiles|
    decreases |testFiles|
  {
    if |testFiles| == 0 then []
    else
      CsvLines(artifactId, testFiles[..|testFiles| - 1], mainWalk)
      + [CsvLine(RecordFor(artifactId, testFiles[|testFiles| - 1], mainWalk))]
  }

  /** Line `k` is the line of the record for test file `k`. */
  lemma {:induction false} CsvLinesAt(artifactId: string, testFiles: seq<string>, mainWalk: seq<string>, k: int)
    requires 0 <= k < |testFiles|
    ensures CsvLines(artifactId, testFiles, mainWalk)[k] == CsvLine(RecordFor(artifactId, testFiles[k], mainWalk))
    decreases |testFiles|
  {
    if k < |testFiles| - 1 {
      CsvLinesAt(artifactId, testFiles[..|testFiles| - 1], mainWalk, k);
    }
  }

  /** `generateCsv`: no file at all when there is no test file; otherwise
      one line per walked test file, in walk order, each the line of the
      record for that file. */
  method GenerateCsv(artifactId: string, testWalk: seq<string>, mainWalk: seq<string>)
    returns (csv: Option<seq<string>>)
    ensures csv.None? <==> TestFiles(testWalk) == []
    ensures csv.Some? ==> |csv.value| == |TestFiles(testWalk)|
    ensures csv.Some? ==> forall k :: 0 <= k < |csv.value| ==>
              csv.value[k] == CsvLine(RecordFor(artifactId, TestFiles(testWalk)[k], mainWalk))
  {
    var testFiles := Filter(IsTestSource, testWalk);
    if |testFiles| == 0 {
      return None;
    }
    var lines := [];
    for k := 0 to |testFiles|
      invariant lines == CsvLines(artifactId, testFiles[..k], mainWalk)
    {
      var line := WriteRecord(artifactId, testFiles[k], mainWalk);
      assert testFiles[..k + 1][..k] == testFiles[..k];
      lines := lines + [line];
    }
    assert testFiles[..|testFiles|] == testFiles;
    forall k | 0 <= k < |lines|
      ensures lines[k] == CsvLine(RecordFor(artifactId, testFiles[k], mainWalk))
    {
      CsvLinesAt(artifactId, testFiles, mainWalk, k);
    }
    return Some(lines);
  }

  // ==================================================================
  // runTsDetect: exit code and output check
  // ==================================================================

  /** The fixed name of the detector's report. */
  const OutputName := "TestSmellDetectionResults.csv"

  /** The tail of `runTsDetect`, after the detector process ended with
      `exitCode`: `jarDir` is the directory of the extracted jar and
      `listing` the names of the files in it. A non-zero exit code fails,
      then a missing report fails; otherwise the report inside `jarDir`. */
  function RunTsDetect(exitCode: int, jarDir: string, listing: seq<string>): (r: Result<string, Error>)
    ensures r.Success? <==> exitCode == 0 && OutputName in listing
    ensures exitCode != 0 ==> r == Failure(ExitFailure(exitCode))
    ensures exitCode == 0 && OutputName !in listing ==> r == Failure(MissingOutput)
    ensures r.Success? ==> r.value == jarDir + "/" + OutputName
    ensures r.Success? ==> FileName(r.value) == OutputName && StartsWith(r.value, jarDir)
  {
    var outputCsv := jarDir + "/" + OutputName;
    FileNameOfChild(jarDir, OutputName);
    assert outputCsv[..|jarDir|] == jarDir;
    if exitCode != 0 then Failure(ExitFailure(exitCode))
    else if OutputName !in listing then Failure(MissingOutput)
    else Success(outputCsv)
  }

  // ==================================================================
  // printTestSmells
  // ==================================================================

  /** The column holding the test file's path. */
  const TestPathColumn := 1

  /** The first smell column. */
  const SmellOffset := 3

  /** `"true".equalsIgnoreCase(cell)`, on the cell as it is. */
  predicate IsTrue(cell: string) {
    EqualsIgnoreCase("true", cell)
  }

  /** The sixteen spellings of `true` in any case, and nothing else, not
      even with surrounding blanks. */
  lemma IsTrueSpellings(cell: string)
    ensures IsTrue(cell) <==>
              |cell| == 4 && cell[0] in "tT" && cell[1] in "rR" && cell[2] in "uU" && cell[3] in "eE"
  {
    if |cell| == 4 && cell[0] in "tT" && cell[1] in "rR" && cell[2] in "uU" && cell[3] in "eE" {
      forall k | 0 <= k < 4 ensures ToLowerAscii("true"[k]) == ToLowerAscii(cell[k]) {
      }
    }
    if IsTrue(cell) {
      assert ToLowerAscii(cell[0]) == 't' && ToLowerAscii(cell[1]) == 'r';
      assert ToLowerAscii(cell[2]) == 'u' && ToLowerAscii(cell[3]) == 'e';
    }
  }

  /** The line a listed column adds: `"  - " + header + "\n"`. */
  function Bullet(header: string): string {
    "  - " + header + "\n"
  }

  /** The `StringBuilder` after the columns before `n`: for each column
      holding `true`, its header's line; `headers[i]` past the header's end
      throws. */
  function SmellsBefore(headers: seq<string>, values: seq<string>, n: int): Result<string, Error>
    requires n <= |values|
    decreases n
  {
    if n <= SmellOffset then Success("")
    else
      match SmellsBefore(headers, values, n - 1)
      case Failure(e) => Failure(e)
      case Success(acc) =>
        if !IsTrue(values[n - 1]) then Success(acc)
        else if n - 1 < |headers| then Success(acc + Bullet(headers[n - 1]))
        else Failure(IndexOutOfBounds(n - 1))
  }

  /** The columns before `n`, from the first smell column on, that hold
      `true`, in column order. */
  function ListedColumns(values: seq<string>, n: int): (cols: seq<int>)
    requires n <= |values|
    ensures forall k :: 0 <= k < |cols| ==> SmellOffset <= cols[k] < n
    decreases n
  {
    if n <= SmellOffset then []
    else ListedColumns(values, n - 1) + if IsTrue(values[n - 1]) then [n - 1] else []
  }

  /** A column is listed exactly when it is a smell column holding `true`;
      the listed columns are in increasing order. */
  lemma {:induction false} ListedColumnsSpec(values: seq<string>, n: int)
    requires n <= |values|
    ensures forall i :: i in ListedColumns(values, n) <==> SmellOffset <= i < n && IsTrue(values[i])
    ensures forall a, b :: 0 <= a < b < |ListedColumns(values, n)| ==>
              ListedColumns(values, n)[a] < ListedColumns(values, n)[b]
    decreases n
  {
    if n > SmellOffset {
      ListedColumnsSpec(values, n - 1);
    }
  }

  /** The lines of the listed columns, in order. */
  function Bullets(headers: seq<string>, cols: seq<int>): string
    requires forall k :: 0 <= k < |cols| ==> 0 <= cols[k] < |headers|
    decreases |cols|
  {
    if |cols| == 0 then ""
    else Bullets(headers, cols[..|cols| - 1]) + Bullet(headers[cols[|cols| - 1]])
  }

  /** Only an empty list of columns gives no text. */
  lemma BulletsEmpty(headers: seq<string>, cols: seq<int>)
    requires forall k :: 0 <= k < |cols| ==> 0 <= cols[k] < |headers|
    ensures Bullets(headers, cols) == "" <==> cols == []
  {
    if |cols| > 0 {
      var b := Bullet(headers[cols[|cols| - 1]]);
      assert |b| > 0;
    }
  }

  /** Every listed column inside the header. */
  predicate AllNamed(headers: seq<string>, cols: seq<int>) {
    forall k :: 0 <= k < |cols| ==> cols[k] < |headers|
  }

  /** The builder fails exactly when some listed column lies past the
      header's end; otherwise it holds the lines of the listed columns'
      headers, in column order. */
  lemma {:induction false} SmellsBeforeListing(headers: seq<string>, values: seq<string>, n: int)
    requires n <= |values|
    ensures SmellsBefore(headers, values, n).Success? <==> AllNamed(headers, ListedColumns(values, n))
    ensures SmellsBefore(headers, values, n).Success? ==>
              SmellsBefore(headers, values, n).value == Bullets(headers, ListedColumns(values, n))
    decreases n
  {
    if n > SmellOffset {
      SmellsBeforeListing(headers, values, n - 1);
      var prev := ListedColumns(values, n - 1);
      var cols := ListedColumns(values, n);
      if !IsTrue(values[n - 1]) {
        assert cols == prev;
      } else {
        assert cols == prev + [n - 1];
        assert cols[..|cols| - 1] == prev;
        assert AllNamed(headers, cols) <==> AllNamed(headers, prev) && n - 1 < |headers|;
      }
    }
  }

  /** When the builder fails, it fails at the first listed column past the
      header's end. */
  lemma {:induction false} SmellsBeforeFirstUnnamed(headers: seq<string>, values: seq<string>, n: int)
    requires n <= |values|
    ensures SmellsBefore(headers, values, n).Failure? ==>
              exists k :: 0 <= k < |ListedColumns(values, n)| && ListedColumns(values, n)[k] >= |headers|
                          && SmellsBefore(headers, values, n).error == IndexOutOfBounds(ListedColumns(values, n)[k])
                          && AllNamed(headers, ListedColumns(values, n)[..k])
    decreases n
  {
    if n > SmellOffset && SmellsBefore(headers, values, n).Failure? {
      var prev := ListedColumns(values, n - 1);
      var cols := ListedColumns(values, n);
      assert cols[..|prev|] == prev;
      if SmellsBefore(headers, values, n - 1).Failure? {
        SmellsBeforeFirstUnnamed(headers, values, n - 1);
        var k :| 0 <= k < |prev| && prev[k] >= |headers|
                 && SmellsBefore(headers, values, n - 1).error == IndexOutOfBounds(prev[k])
                 && AllNamed(headers, prev[..k]);
        assert cols[k] == prev[k];
        assert cols[..k] == prev[..k];
      } else {
        SmellsBeforeListing(headers, values, n - 1);
        assert cols[|prev|] == n - 1;
      }
    }
  }

  /** Once the builder has failed, later columns change nothing. */
  lemma {:induction false} SmellsAfterFailure(headers: seq<string>, values: seq<string>, n: int, m: int)
    requires n <= m <= |values|
    requires SmellsBefore(headers, values, n).Failure?
    ensures SmellsBefore(headers, values, m) == SmellsBefore(headers, values, n)
    decreases m - n
  {
    if n < m {
      SmellsAfterFailure(headers, values, n + 1, m);
    }
  }

  /** What the column loop leaves in the builder for a whole row. */
  function Smells(headers: seq<string>, values: seq<string>): Result<string, Error> {
    SmellsBefore(headers, values, |values|)
  }

  /** Some smell column of the row holds `true` past the header's end. */
  predicate HasUnnamedTrue(headers: seq<string>, values: seq<string>) {
    exists i :: SmellOffset <= i < |values| && IsTrue(values[i]) && i >= |headers|
  }

  /** Some smell column of the row holds `true`. */
  predicate HasTrue(values: seq<string>) {
    exists i :: SmellOffset <= i < |values| && IsTrue(values[i])
  }

  /** A `true` past the header's end is a listed column outside it. */
  lemma UnnamedTrueIsListed(headers: seq<string>, values: seq<string>)
    ensures HasUnnamedTrue(headers, values) <==> !AllNamed(headers, ListedColumns(values, |values|))
  {
    var cols := ListedColumns(values, |values|);
    ListedColumnsSpec(values, |values|);
    if HasUnnamedTrue(headers, values) {
      var i :| SmellOffset <= i < |values| && IsTrue(values[i]) && i >= |headers|;
      assert i in cols;
    }
    if !AllNamed(headers, cols) {
      var k :| 0 <= k < |cols| && cols[k] >= |headers|;
      assert cols[k] in cols;
    }
  }

  /** Some smell column holds `true` exactly when some column is listed. */
  lemma TrueIsListed(values: seq<string>)
    ensures HasTrue(values) <==> ListedColumns(values, |values|) != []
  {
    var cols := ListedColumns(values, |values|);
    ListedColumnsSpec(values, |values|);
    if HasTrue(values) {
      var i :| SmellOffset <= i < |values| && IsTrue(values[i]);
      assert i in cols;
    }
    if cols != [] {
      assert cols[0] in cols;
    }
  }

  /** The row's column loop throws exactly when some `true` lies past the
      header's end; when it does not, the builder is empty exactly when no
      smell column holds `true`. */
  lemma SmellsOutcome(headers: seq<string>, values: seq<string>)
    ensures Smells(headers, values).Failure? <==> HasUnnamedTrue(headers, values)
    ensures Smells(headers, values).Success? ==> (Smells(headers, values).value == "" <==> !HasTrue(values))
  {
    SmellsBeforeListing(headers, values, |values|);
    UnnamedTrueIsListed(headers, values);
    TrueIsListed(values);
    if Smells(headers, values).Success? {
      BulletsEmpty(headers, ListedColumns(values, |values|));
    }
  }

  /** The message that names a test file. */
  function FileLine(testFileName: string): string {
    "Test file: " + testFileName
  }

  /** One row: fewer than two fields fail at `values[1]`; the column loop
      may fail; otherwise the file name and the builder are logged, only
      when the builder is not empty. */
  function RowLog(headers: seq<string>, values: seq<string>): Result<seq<string>, Error> {
    if |values| <= TestPathColumn then Failure(IndexOutOfBounds(TestPathColumn))
    else
      match Smells(headers, values)
      case Failure(e) => Failure(e)
      case Success(smells) =>
        Success(if |smells| > 0 then [FileLine(FileName(values[TestPathColumn])), smells] else [])
  }

  /** A row fails to be read: too short, or a `true` past the header's end. */
  predicate RowFails(headers: seq<string>, values: seq<string>) {
    |values| <= TestPathColumn || HasUnnamedTrue(headers, values)
  }

  /** A row fails exactly as `RowFails` says; a row read without failure
      logs its file name (first, then the listed lines) exactly when some
      smell column holds `true`, and nothing otherwise. */
  lemma RowLogOutcome(headers: seq<string>, values: seq<string>)
    ensures RowLog(headers, values).Failure? <==> RowFails(headers, values)
    ensures RowLog(headers, values).Success? ==>
              (RowLog(headers, values).value != [] <==> HasTrue(values))
    ensures RowLog(headers, values).Success? && HasTrue(values) ==>
              RowLog(headers, values).value[0] == FileLine(FileName(values[TestPathColumn]))
  {
    SmellsOutcome(headers, values);
  }

  /** What the reader has done after some rows: the log so far and the
      exception that stopped it, if one did. */
  datatype ReportState = ReportState(log: seq<string>, failure: Option<Error>)

  function Step(st: ReportState, headers: seq<string>, line: string): ReportState {
    if st.failure.Some? then st
    else
      match RowLog(headers, SplitAll(line))
      case Failure(e) => ReportState(st.log, Some(e))
      case Success(lines) => ReportState(st.log + lines, None)
  }

  function Process(st: ReportState, headers: seq<string>, rows: seq<string>): ReportState
    decreases |rows|
  {
    if |rows| == 0 then st else Process(Step(st, headers, rows[0]), headers, rows[1..])
  }

  /** Nothing happens after an exception. */
  lemma {:induction false} ProcessAfterFailure(st: ReportState, headers: seq<string>, rows: seq<string>)
    requires st.failure.Some?
    ensures Process(st, headers, rows) == st
    decreases |rows|
  {
    if |rows| > 0 {
      ProcessAfterFailure(st, headers, rows[1..]);
    }
  }

  /** Starting without failure, reading fails exactly when some row fails,
      with the exception of the first failing row; without failure,
      nothing is logged exactly when no row has a `true` smell column. */
  lemma {:induction false} ProcessOutcome(st: ReportState, headers: seq<string>, rows: seq<string>)
    requires st.failure.None?
    ensures Process(st, headers, rows).failure.Some? <==>
              exists k :: 0 <= k < |rows| && RowFails(headers, SplitAll(rows[k]))
    ensures Process(st, headers, rows).failure.Some? ==>
              exists k :: 0 <= k < |rows| && RowFails(headers, SplitAll(rows[k]))
                          && RowLog(headers, SplitAll(rows[k])) == Failure(Process(st, headers, rows).failure.value)
                          && forall j :: 0 <= j < k ==> !RowFails(headers, SplitAll(rows[j]))
    ensures Process(st, headers, rows).failure.None? ==>
              (Process(st, headers, rows).log == st.log <==>
                 forall k :: 0 <= k < |rows| ==> !HasTrue(SplitAll(rows[k])))
    decreases |rows|
  {
    if |rows| > 0 {
      var next := Step(st, headers, rows[0]);
      var rest := rows[1..];
      RowLogOutcome(headers, SplitAll(rows[0]));
      assert forall k :: 0 < k < |rows| ==> rows[k] == rest[k - 1];
      if next.failure.Some? {
        ProcessAfterFailure(next, headers, rest);
      } else {
        ProcessOutcome(next, headers, rest);
        var result := Process(next, headers, rest);
        if result.failure.Some? {
          var k :| 0 <= k < |rest| && RowFails(headers, SplitAll(rest[k]))
                   && RowLog(headers, SplitAll(rest[k])) == Failure(result.failure.value)
                   && forall j :: 0 <= j < k ==> !RowFails(headers, SplitAll(rest[j]));
          assert RowFails(headers, SplitAll(rows[k + 1]));
          assert forall j :: 0 <= j < k + 1 ==> !RowFails(headers, SplitAll(rows[j])) by {
            forall j | 0 <= j < k + 1 ensures !RowFails(headers, SplitAll(rows[j])) {
              if j > 0 { assert rows[j] == rest[j - 1]; }
            }
          }
        } else {
          if forall k :: 0 <= k < |rest| ==> !RowFails(headers, SplitAll(rest[k])) {
            forall k | 0 <= k < |rows| ensures !RowFails(headers, SplitAll(rows[k])) {
              if k > 0 { assert rows[k] == rest[k - 1]; }
            }
          }
          ProcessLogGrows(next, headers, rest);
          if forall k :: 0 <= k < |rest| ==> !HasTrue(SplitAll(rest[k])) {
            forall k | 0 <= k < |rows| && k > 0 ensures !HasTrue(SplitAll(rows[k])) {
              assert rows[k] == rest[k - 1];
            }
          }
          if !HasTrue(SplitAll(rows[0])) && result.log == st.log {
            assert forall k :: 0 <= k < |rest| ==> !HasTrue(SplitAll(rest[k]));
          }
        }
      }
    }
  }

  /** The log only grows. */
  lemma {:induction false} ProcessLogGrows(st: ReportState, headers: seq<string>, rows: seq<string>)
    ensures st.log <= Process(st, headers, rows).log
    decreases |rows|
  {
    if |rows| > 0 {
      ProcessLogGrows(Step(st, headers, rows[0]), headers, rows[1..]);
    }
  }

  /** What `printTestSmells` logs, and the exception it throws, if any. */
  datatype Report = Report(log: seq<string>, failure: Option<Error>)

  /** The whole report: no header line means nothing logged; otherwise the
      header is split with `split(",")` and the rows read in order. */
  function Interpret(reportLines: seq<string>): Report {
    if |reportLines| == 0 then Report([], None)
    else
      var st := Process(ReportState([], None), Split(reportLines[0]), reportLines[1..]);
      Report(st.log, st.failure)
  }

  /** The column loop of `printTestSmells` for one row: from the first smell
      column to the row's end, a header's line per cell holding `true`. */
  method CollectSmells(headers: seq<string>, values: seq<string>) returns (r: Result<string, Error>)
    ensures r == Smells(headers, values)
  {
    var smells := "";
    var i := SmellOffset;
    while i < |values|
      invariant SmellOffset <= i
      invariant i == SmellOffset || i <= |values|
      invariant SmellsBefore(headers, values, if i <= |values| then i else |values|) == Success(smells)
    {
      assert SmellsBefore(headers, values, i) == Success(smells);
      if IsTrue(values[i]) {
        if i >= |headers| {
          SmellsAfterFailure(headers, values, i + 1, |values|);
          return Failure(IndexOutOfBounds(i));
        }
        ghost var before := smells;
        smells := smells + "  - " + headers[i] + "\n";
        assert smells == before + Bullet(headers[i]);
      }
      assert SmellsBefore(headers, values, i + 1) == Success(smells);
      i := i + 1;
    }
    return Success(smells);
  }

  /** `printTestSmells`: reads the report line by line, logging as it goes. */
  method PrintTestSmells(reportLines: seq<string>) returns (log: seq<string>, failure: Option<Error>)
    ensures reportLines == [] ==> log == [] && failure == None
    ensures Report(log, failure) == Interpret(reportLines)
  {
    log := [];
    if |reportLines| == 0 {
      return log, None;
    }
    var headers := Split(reportLines[0]);
    var rows := reportLines[1..];
    var k := 0;
    while k < |rows|
      invariant 0 <= k <= |rows|
      invariant Process(ReportState([], None), headers, rows) == Process(ReportState(log, None), headers, rows[k..])
    {
      assert rows[k..][0] == rows[k] && rows[k..][1..] == rows[k + 1..];
      ghost var next := Step(ReportState(log, None), headers, rows[k]);
      var values := SplitAll(rows[k]);
      if |values| <= TestPathColumn {
        ProcessAfterFailure(next, headers, rows[k + 1..]);
        return log, Some(IndexOutOfBounds(TestPathColumn));
      }
      var testFileName := FileName(values[TestPathColumn]);
      var smells := CollectSmells(headers, values);
      if smells.Failure? {
        ProcessAfterFailure(next, headers, rows[k + 1..]);
        return log, Some(smells.error);
      }
      if |smells.value| > 0 {
        log := log + ["Test file: " + testFileName, smells.value];
      }
      assert log == next.log;
      k := k + 1;
    }
    return log, None;
  }

  /** A report with a header line fails exactly when some data row fails,
      with the exception of the first failing row; without failure, nothing
      is logged exactly when no data row holds `true` in a smell column. */
  lemma InterpretOutcome(reportLines: seq<string>)
    requires |reportLines| > 0
    ensures Interpret(reportLines).failure.Some? <==>
              exists k :: 1 <= k < |reportLines| && RowFails(Split(reportLines[0]), SplitAll(reportLines[k]))
    ensures Interpret(reportLines).failure.None? ==>
              (Interpret(reportLines).log == [] <==>
                 forall k :: 1 <= k < |reportLines| ==> !HasTrue(SplitAll(reportLines[k])))
  {
    var rows := reportLines[1..];
    var headers := Split(reportLines[0]);
    ProcessOutcome(ReportState([], None), headers, rows);
    assert forall k :: 1 <= k < |reportLines| ==> reportLines[k] == rows[k - 1];
    if exists k :: 1 <= k < |reportLines| && RowFails(headers, SplitAll(reportLines[k])) {
      var k :| 1 <= k < |reportLines| && RowFails(headers, SplitAll(reportLines[k]));
      assert RowFails(headers, SplitAll(rows[k - 1]));
    }
    if forall k :: 0 <= k < |rows| ==> !HasTrue(SplitAll(rows[k])) {
      forall k | 1 <= k < |reportLines| ensures !HasTrue(SplitAll(reportLines[k])) {
        assert reportLines[k] == rows[k - 1];
      }
    }
  }
}
