/** What both mojos share: the record written per test file,
    `findProductionFile`, which is the same code in both, and the two
    exceptions `runTsDetect` throws in both. */
module Correlation {
  import opened Results
  import opened JavaText
  import opened Streams

  /** One line of the detector's input: the project's artifact id, a test
      file, and the production file found for it, if any. */
  datatype CorrelationRecord = CorrelationRecord(
    projectId: string,
    testPath: string,
    productionPath: Option<string>)

  /** `findProductionFile(mainDir, fileName)`: the walk of the production
      tree, filtered to the paths whose file name is `fileName`; the first of
      them, or none. The result is the first walked path with that name, and
      there is none exactly when no walked path has it. */
  function FindProductionFile(mainWalk: seq<string>, fileName: string): (r: Option<string>)
    ensures r.None? <==> forall k :: 0 <= k < |mainWalk| ==> FileName(mainWalk[k]) != fileName
    ensures r.Some? ==>
              exists i :: 0 <= i < |mainWalk| && mainWalk[i] == r.value && FileName(mainWalk[i]) == fileName
                          && forall j :: 0 <= j < i ==> FileName(mainWalk[j]) != fileName
  {
    var named := p => FileName(p) == fileName;
    var matches := Filter(named, mainWalk);
    FilterEmpty(named, mainWalk);
    FilterFirst(named, mainWalk);
    if |matches| == 0 then None else Some(matches[0])
  }

  /** The start of the message of a failed detector run. */
  const ExitPrefix := "tsDetect exited with code "

  /** `new IOException("tsDetect exited with code " + exitCode)` */
  function ExitFailure(exitCode: int): Error {
    IOException(ExitPrefix + IntToString(exitCode))
  }

  /** `new IOException("tsDetect output CSV not found")` */
  const MissingOutput := IOException("tsDetect output CSV not found")

  /** The message of a failed run carries its exit code: what follows the
      prefix parses back to the code. */
  lemma ExitFailureCarriesCode(exitCode: int)
    requires MinInt <= exitCode <= MaxInt
    ensures StartsWith(ExitFailure(exitCode).message, ExitPrefix)
    ensures ParseInt(ExitFailure(exitCode).message[|ExitPrefix|..]) == Some(exitCode)
  {
    var message := ExitFailure(exitCode).message;
    assert message[..|ExitPrefix|] == ExitPrefix;
    assert message[|ExitPrefix|..] == IntToString(exitCode);
    ParseIntToString(exitCode);
  }
}
