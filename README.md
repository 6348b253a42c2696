# testsmells-maven-plugin — a Dafny model of the `detect` goal

The plugin runs the external test-smell detector `tsDetect.jar` on a Maven
project. It ships as two near-duplicate Mojo classes:

- `com.github.ELiJuY.TestSmellsMojo` (module `ElijuyMojo`, `elijuy_mojo.dfy`);
- `es.upm.elias.testsmells.TestSmellsMojo` (module `UpmMojo`, `upm_mojo.dfy`).

Each class does three things:

- **`generateCsv`** walks the test tree, pairs each test file with the first
  production file of the matching name, and writes one line per test file
  into the detector's input CSV.
- **`runTsDetect`** checks the detector's exit code and locates its report.
  - Variant A uses the newest `Output_TestSmellDetection*.csv` in the working
    directory.
  - Variant B uses the fixed `TestSmellDetectionResults.csv` beside the jar.
- **`printTestSmells`** reads the report.
  - Variant A parses integer smell counts from column 7 onwards and returns
    whether any count is positive.
  - Variant B lists the columns from index 3 onwards whose untrimmed cell
    equals `true` ignoring case.

The model takes the plugin's inputs as plain values:

- directory walks are sequences of path strings, in walk order;
- the detector's directory is a sequence of file names, with timestamps for
  variant A;
- the exit code is an integer;
- the report is a sequence of text lines.

The plugin's log is returned as a sequence of messages, and exceptions are
`Results.Error` values.

The Java library calls both classes rely on are stated once, in
`java_text.dfy` (module `JavaText`):

- `String.replace`;
- the two `split` forms;
- `trim`;
- `Integer.parseInt` and `Integer.toString`;
- `equalsIgnoreCase`;
- `File.getName`.

`Stream.filter(...).collect(...)` is `Streams.Filter`. The correlation code
that both classes share (`findProductionFile` and the two `runTsDetect`
exceptions) is in `correlation.dfy` (module `Correlation`).

Loops of the source are methods with loop invariants, each proved equal to a
specification function. The properties of that function are proved as
lemmas. The methods are:

- the writer loop of `generateCsv`;
- the newest-report loop of variant A;
- the row and column loops of `printTestSmells`;
- the `StringBuilder` loop of variant B.

## Model

| member | source | states |
|---|---|---|
| Streams.Filter | src/main/java/com/github/ELiJuY/TestSmellsMojo.java:72-75 | the collected list holds exactly the walked elements the filter accepts, and is no longer than the walk |
| Streams.FilterMultiplicity | src/main/java/com/github/ELiJuY/TestSmellsMojo.java:72-75 | in both variants, an accepted element is kept as often as it was walked; a rejected element is not kept at all |
| Streams.FilterConcat | src/main/java/com/github/ELiJuY/TestSmellsMojo.java:72-75 | filtering keeps the walk order: the filter of a concatenation is the concatenation of the filters |
| Streams.FilterSnoc | src/main/java/es/upm/elias/testsmells/TestSmellsMojo.java:85-88 | a path walked later lands later in the list, and only when the filter accepts it: test files keep walk order in both variants |
| Streams.FilterEmpty | src/main/java/com/github/ELiJuY/TestSmellsMojo.java:99-104 | the collected list is empty iff no walked element is accepted |
| Streams.FilterFirst | src/main/java/com/github/ELiJuY/TestSmellsMojo.java:99-104 | a non-empty result's head is the first accepted element of the walk |
| Correlation.FindProductionFile | src/main/java/com/github/ELiJuY/TestSmellsMojo.java:97-105 | `null` (None) iff no walked path has the wanted file name; otherwise the first walked path with that name |
| Correlation.ExitFailureCarriesCode | src/main/java/com/github/ELiJuY/TestSmellsMojo.java:158-161 | the exit-code message starts with `tsDetect exited with code `, and the rest parses back to the exit code |
| JavaText.ReplaceRemovesChar | src/main/java/com/github/ELiJuY/TestSmellsMojo.java:85 | `replace("\\", "/")` leaves no backslash |
| JavaText.ReplaceKeepsAbsent | src/main/java/com/github/ELiJuY/TestSmellsMojo.java:89 | a character in neither the text nor the replacement is not in the result |
| JavaText.ReplaceWithoutOccurrence | src/main/java/es/upm/elias/testsmells/TestSmellsMojo.java:98 | text without an occurrence of the target is returned unchanged |
| JavaText.ReplaceTrailingTarget | src/main/java/es/upm/elias/testsmells/TestSmellsMojo.java:98 | a target at the very end of the text is replaced there, whatever precedes it, when its first character does not recur inside it |
| JavaText.SplitAll | src/main/java/com/github/ELiJuY/TestSmellsMojo.java:205 | `split(",", -1)` yields at least one field and no field contains a comma |
| JavaText.JoinSplitAll | src/main/java/es/upm/elias/testsmells/TestSmellsMojo.java:185 | joining the fields of `split(",", -1)` with commas gives back the line |
| JavaText.SplitAllLeadingField | src/main/java/es/upm/elias/testsmells/TestSmellsMojo.java:185 | a comma-free first field followed by a comma splits off as the first field |
| JavaText.SplitAllSingleField | src/main/java/com/github/ELiJuY/TestSmellsMojo.java:205 | text without a comma is a single field |
| JavaText.SplitAllJoinFields | src/main/java/com/github/ELiJuY/TestSmellsMojo.java:83-90 | comma-free fields joined with commas split back into the same fields |
| JavaText.DropTrailingEmpty | src/main/java/com/github/ELiJuY/TestSmellsMojo.java:200 | a prefix of the fields that drops only empty fields and does not end in an empty field |
| JavaText.Split | src/main/java/com/github/ELiJuY/TestSmellsMojo.java:200 | `split(",")` is a single field without a comma; otherwise it is the `split(",", -1)` fields less the trailing empty ones |
| JavaText.TrimStartSpec | src/main/java/com/github/ELiJuY/TestSmellsMojo.java:217-218 | the front trim is a suffix of the text, only characters at or below U+0020 are cut, and what remains starts above U+0020 |
| JavaText.TrimEndSpec | src/main/java/com/github/ELiJuY/TestSmellsMojo.java:217-218 | the back trim is a prefix of the text, only characters at or below U+0020 are cut, and what remains ends above U+0020 |
| JavaText.TrimSpec | src/main/java/com/github/ELiJuY/TestSmellsMojo.java:217-218 | `trim` is a slice of the text that is empty or has non-blank ends, with only blanks cut around it |
| JavaText.DigitsInEach | src/main/java/com/github/ELiJuY/TestSmellsMojo.java:226 | a range is all digits iff each character in it is an ASCII digit |
| JavaText.DigitsAgree | src/main/java/com/github/ELiJuY/TestSmellsMojo.java:226 | equal slices hold the same digits with the same value |
| JavaText.ParseInt | src/main/java/com/github/ELiJuY/TestSmellsMojo.java:224-229 | `Integer.parseInt` succeeds only on text that starts with a digit or a sign, and only with a value inside the `int` range |
| JavaText.NatToString | src/main/java/com/github/ELiJuY/TestSmellsMojo.java:234 | the decimal text of a natural number is non-empty, all digits, and without a leading zero |
| JavaText.IntToStringEndsInDigit | src/main/java/com/github/ELiJuY/TestSmellsMojo.java:234 | the text of an `int` is never empty and ends in a digit |
| JavaText.DigitsValueOfNatToString | src/main/java/com/github/ELiJuY/TestSmellsMojo.java:234 | the digits written for a number read back as that number |
| JavaText.ParseIntToString | src/main/java/com/github/ELiJuY/TestSmellsMojo.java:160 | `Integer.parseInt(Integer.toString(n)) == n` for every `int` |
| JavaText.LastSegment | src/main/java/com/github/ELiJuY/TestSmellsMojo.java:208 | the last segment has no `/`, ends the path, and is preceded by a `/` unless it is the whole path |
| JavaText.FileName | src/main/java/es/upm/elias/testsmells/TestSmellsMojo.java:188 | `getName` has no `/`; for a path not ending in `/`, it is the path's tail after its last `/`, or the whole path |
| JavaText.FileNameOfChild | src/main/java/es/upm/elias/testsmells/TestSmellsMojo.java:137-140 | the name of `new File(dir, name)` is `name` |
| JavaText.LastSegmentOfChild | src/main/java/es/upm/elias/testsmells/TestSmellsMojo.java:137-140 | the text after the last `/` of `dir/name` is `name` when `name` has no `/` |
| JavaText.FileNameKeepsSuffix | src/main/java/es/upm/elias/testsmells/TestSmellsMojo.java:98 | a path ending in a slash-free suffix has a file name ending in it |
| ElijuyMojo.NormalizeRemovesBackslashes | src/main/java/com/github/ELiJuY/TestSmellsMojo.java:85 | a written path holds no backslash |
| ElijuyMojo.NormalizeKeepsCommaFree | src/main/java/com/github/ELiJuY/TestSmellsMojo.java:89 | normalising a path adds no comma |
| ElijuyMojo.CsvLineRoundTrip | src/main/java/com/github/ELiJuY/TestSmellsMojo.java:83-90 | for comma-free ids and paths, a written line reads back as the record with normalised paths; it has three fields iff a production path was written, and no written path field holds a backslash |
| ElijuyMojo.CsvLineFieldCount | src/main/java/com/github/ELiJuY/TestSmellsMojo.java:87-90 | the line has three fields iff some walked production path has the test file's name, and two fields otherwise |
| ElijuyMojo.WriteRecord | src/main/java/com/github/ELiJuY/TestSmellsMojo.java:81-92 | one iteration of the writer loop writes exactly the line of the test file's record |
| ElijuyMojo.CsvLines | src/main/java/com/github/ELiJuY/TestSmellsMojo.java:79-93 | one line per test file |
| ElijuyMojo.CsvLinesAt | src/main/java/com/github/ELiJuY/TestSmellsMojo.java:79-93 | line `k` is the line of the record for test file `k` |
| ElijuyMojo.GenerateCsv | src/main/java/com/github/ELiJuY/TestSmellsMojo.java:70-95 | exactly one line per walked `.java` path, in walk order, each the line of its record |
| ElijuyMojo.RunTsDetect | src/main/java/com/github/ELiJuY/TestSmellsMojo.java:158-179 | a non-zero exit code fails with its message; no `Output_TestSmellDetection*.csv` fails with `tsDetect output CSV not found`; otherwise the result is a report with the greatest `lastModified`, with ties going to the earliest listed |
| ElijuyMojo.CellCountOfTrim | src/main/java/com/github/ELiJuY/TestSmellsMojo.java:218-229 | a cell's count is `parseInt` of the trimmed cell, and none when the trimmed cell is empty |
| ElijuyMojo.CellCounts | src/main/java/com/github/ELiJuY/TestSmellsMojo.java:215-229 | one count per cell |
| ElijuyMojo.CellCountsAt | src/main/java/com/github/ELiJuY/TestSmellsMojo.java:215-229 | count `k` is the count of cell `k` |
| ElijuyMojo.FindingsBeforeEmpty | src/main/java/com/github/ELiJuY/TestSmellsMojo.java:215-235 | no findings before column `n` iff no examined column before `n` has a positive count |
| ElijuyMojo.FindingsBeforeSource | src/main/java/com/github/ELiJuY/TestSmellsMojo.java:215-235 | each finding is the trimmed header and the count of an examined column with a positive count |
| ElijuyMojo.FindingsBeforeStep | src/main/java/com/github/ELiJuY/TestSmellsMojo.java:231-235 | an examined column adds a finding exactly when its count is positive |
| ElijuyMojo.FindingsIffSmell | src/main/java/com/github/ELiJuY/TestSmellsMojo.java:212-235 | a row has findings iff some column `7 <= i < min(headers, values)` holds a positive count |
| ElijuyMojo.SmellLinesAppend | src/main/java/com/github/ELiJuY/TestSmellsMojo.java:234 | each finding logs its line after the earlier ones |
| ElijuyMojo.SmellLinesOmitMessage | src/main/java/com/github/ELiJuY/TestSmellsMojo.java:234-239 | a smell line never reads as `No code smells found.` |
| ElijuyMojo.NoSmellsLoggedIff | src/main/java/com/github/ELiJuY/TestSmellsMojo.java:238-240 | `No code smells found.` is logged for a row exactly when none of its examined cells is positive |
| ElijuyMojo.ProcessAfterFailure | src/main/java/com/github/ELiJuY/TestSmellsMojo.java:203-207 | after an exception, no later row is read |
| ElijuyMojo.ProcessOutcome | src/main/java/com/github/ELiJuY/TestSmellsMojo.java:203-243 | reading fails at index 2 iff some row has fewer than three fields; otherwise the flag is set iff some row has an examined positive cell |
| ElijuyMojo.InterpretOutcome | src/main/java/com/github/ELiJuY/TestSmellsMojo.java:188-246 | with a header line: an index-2 error when some data row is too short, otherwise true iff some data row has an examined cell that parses to an `int` above zero |
| ElijuyMojo.OutcomeIgnoresRowOrder | src/main/java/com/github/ELiJuY/TestSmellsMojo.java:190-245 | the result does not depend on the order of the data rows |
| ElijuyMojo.ReadCount | src/main/java/com/github/ELiJuY/TestSmellsMojo.java:218-229 | the count read for column `i` is the cell's count: trimmed, skipped when empty or not an `int` |
| ElijuyMojo.LogSmells | src/main/java/com/github/ELiJuY/TestSmellsMojo.java:212-236 | the column loop logs one `name: count` line per finding, in column order, and its flag is set iff there is a finding |
| ElijuyMojo.LogRow | src/main/java/com/github/ELiJuY/TestSmellsMojo.java:207-242 | the body of the row loop logs exactly the row's log (file line, smell lines or the no-smells message, blank line), and its flag is set iff the row has a finding |
| ElijuyMojo.PrintTestSmells | src/main/java/com/github/ELiJuY/TestSmellsMojo.java:188-246 | no header line returns false and logs nothing; otherwise the log and the result (or the exception) are those of reading the rows in order |
| UpmMojo.TestFilesEmptyIff | src/main/java/es/upm/elias/testsmells/TestSmellsMojo.java:85-93 | no test file (and so no CSV) iff no walked path ends in `Test.java` |
| UpmMojo.DeriveNameStripsTest | src/main/java/es/upm/elias/testsmells/TestSmellsMojo.java:98 | a trailing `Test.java` becomes `.java`; with no other occurrence nothing else changes |
| UpmMojo.DeriveNameExample | src/main/java/es/upm/elias/testsmells/TestSmellsMojo.java:98 | `FooTest.java` becomes `Foo.java` |
| UpmMojo.ProductionNameOfTest | src/main/java/es/upm/elias/testsmells/TestSmellsMojo.java:98 | the name derived from a test file ends in `.java` |
| UpmMojo.CsvLineRoundTrip | src/main/java/es/upm/elias/testsmells/TestSmellsMojo.java:101-108 | with comma-free parts, a line splits into artifact id, test path and production path (empty when absent), and reads back as the record |
| UpmMojo.CsvLineFields | src/main/java/es/upm/elias/testsmells/TestSmellsMojo.java:98-108 | every line of a test file has three fields; the third is empty iff no walked production path has the derived name |
| UpmMojo.WriteRecord | src/main/java/es/upm/elias/testsmells/TestSmellsMojo.java:98-110 | one iteration of the writer loop writes exactly the line of the test file's record |
| UpmMojo.CsvLines | src/main/java/es/upm/elias/testsmells/TestSmellsMojo.java:96-111 | one line per test file |
| UpmMojo.CsvLinesAt | src/main/java/es/upm/elias/testsmells/TestSmellsMojo.java:96-111 | line `k` is the line of the record for test file `k` |
| UpmMojo.GenerateCsv | src/main/java/es/upm/elias/testsmells/TestSmellsMojo.java:83-115 | no file iff there is no test file; otherwise one line per walked `Test.java` path, in walk order, each the line of its record |
| UpmMojo.RunTsDetect | src/main/java/es/upm/elias/testsmells/TestSmellsMojo.java:137-168 | success iff the exit code is 0 and `TestSmellDetectionResults.csv` is in the jar's directory; otherwise it fails with the exit-code message or, on exit code 0, the missing-output message; for a `jarDir` other than the root `/`, the result is `jarDir + "/" + "TestSmellDetectionResults.csv"`, whose file name is the fixed report name |
| UpmMojo.IsTrueSpellings | src/main/java/es/upm/elias/testsmells/TestSmellsMojo.java:193 | a cell counts iff it is one of the sixteen case spellings of `true`, untrimmed |
| UpmMojo.ListedColumns | src/main/java/es/upm/elias/testsmells/TestSmellsMojo.java:192-193 | listed columns lie between the first smell column and the bound |
| UpmMojo.ListedColumnsSpec | src/main/java/es/upm/elias/testsmells/TestSmellsMojo.java:192-193 | column `i` is listed iff `3 <= i` inside the row and `values[i]` is `true` ignoring case; listed columns are in increasing order |
| UpmMojo.BulletsEmpty | src/main/java/es/upm/elias/testsmells/TestSmellsMojo.java:194 | the builder text is empty iff no column was appended |
| UpmMojo.SmellsBeforeListing | src/main/java/es/upm/elias/testsmells/TestSmellsMojo.java:190-196 | the builder fails iff some listed column lies past the header's end; otherwise it holds one `  - header` line per listed column, in column order |
| UpmMojo.SmellsBeforeFirstUnnamed | src/main/java/es/upm/elias/testsmells/TestSmellsMojo.java:192-194 | a failing builder fails at the first listed column past the header's end |
| UpmMojo.SmellsAfterFailure | src/main/java/es/upm/elias/testsmells/TestSmellsMojo.java:192-196 | once `headers[i]` has thrown, later columns change nothing |
| UpmMojo.UnnamedTrueIsListed | src/main/java/es/upm/elias/testsmells/TestSmellsMojo.java:192-194 | a `true` past the header's end is exactly a listed column outside the header |
| UpmMojo.TrueIsListed | src/main/java/es/upm/elias/testsmells/TestSmellsMojo.java:192-194 | some smell column holds `true` iff some column is listed |
| UpmMojo.SmellsOutcome | src/main/java/es/upm/elias/testsmells/TestSmellsMojo.java:190-196 | a row's column loop throws iff a `true` lies at an index at or past `headers.length`; otherwise the builder is empty iff no smell column holds `true` |
| UpmMojo.RowLogOutcome | src/main/java/es/upm/elias/testsmells/TestSmellsMojo.java:185-201 | a row fails iff it has fewer than two fields or an unnamed `true`; otherwise the file name is logged, first, iff some smell column holds `true`, and nothing is logged otherwise |
| UpmMojo.ProcessAfterFailure | src/main/java/es/upm/elias/testsmells/TestSmellsMojo.java:183-202 | after an exception, no later row is read |
| UpmMojo.ProcessOutcome | src/main/java/es/upm/elias/testsmells/TestSmellsMojo.java:183-202 | reading fails iff some row fails, with the exception of the first failing row; without failure nothing is logged iff no row holds a `true` smell cell |
| UpmMojo.ProcessLogGrows | src/main/java/es/upm/elias/testsmells/TestSmellsMojo.java:198-201 | reading rows only appends to the log |
| UpmMojo.CollectSmells | src/main/java/es/upm/elias/testsmells/TestSmellsMojo.java:190-196 | the `StringBuilder` loop computes the row's builder text, or throws at the column where `SmellsBefore` fails |
| UpmMojo.PrintTestSmells | src/main/java/es/upm/elias/testsmells/TestSmellsMojo.java:171-204 | no header line logs nothing; otherwise the log and the exception are those of reading the rows in order |
| UpmMojo.InterpretOutcome | src/main/java/es/upm/elias/testsmells/TestSmellsMojo.java:175-202 | with a header line: an exception iff some data row fails; otherwise nothing is logged iff no data row holds `true` in a smell column |

## Left out

- Maven plumbing (`@Mojo`, `@Parameter`, `MavenProject`) is not modelled: the artifact id is an input string.
- `execute` of both classes is not modelled. It builds directories and calls the three steps in order; this includes variant B calling `runTsDetect` twice, which is orchestration.
  - Variant A wraps every exception in `MojoExecutionException`.
  - Variant B wraps only `IOException` and `InterruptedException`, so the index errors of its `printTestSmells` (`UpmMojo.RowLog`, `UpmMojo.SmellsBefore`) escape `execute` unwrapped.
- Filesystem I/O is not modelled: `Files.walk`, `listFiles`, `exists`, `FileWriter` and `FileReader`. Walks and listings are input sequences in the order Java returns them; the CSV and the log are returned sequences.
- A walk that throws (for example over a missing directory) is not modelled.
- Variant A's `listFiles` returning `null` is not modelled separately. It leads to the same `tsDetect output CSV not found` as an empty listing.
- `getAbsolutePath` is taken as the identity: walked paths are taken to be absolute already.
- `extractTsDetectJar` is not modelled: it streams a classpath resource into a temporary file, which is pure I/O.
- Process handling is not modelled: `ProcessBuilder`, draining the output, `waitFor`. Only the exit code is kept, as an input.
- `lastModified` values are given integers.
- The log messages of `generateCsv` (variant B's warning and information lines) are not modelled, and neither are the summary messages of `execute`.
- Smell detection itself happens inside `tsDetect.jar`, which is not part of this model.
- JavaText.ParseInt: accepts only ASCII digits, while `Integer.parseInt` also accepts other Unicode decimal digits.
- JavaText.EqualsIgnoreCase: folds only ASCII letters, while Java also folds other letters.
  - Variant B compares only against `true`.
- JavaText.FileName: knows only `/` as the separator, as on Unix. A Windows path with `\` is one segment here.
- UpmMojo.RunTsDetect: the report path is always `jarDir + "/" + name`. For the root directory Java's `new File("/", name)` gives `/` + name, while the model gives `//` + name; both name the same file.
- ElijuyMojo.RunTsDetect: the order of `listFiles` is platform-defined. The model takes the listing as given, so "earliest listed" refers to that given order.
