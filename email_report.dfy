/** The test-result tally of scripts/send-email-report.js: the Allure result files of a run
    are filtered by name, parsed one by one, and folded into pass/fail/broken/skip counters,
    a list of failed tests and an overall verdict. Reading the directory and the files is
    replaced by a sequence of directory entries that carry what `JSON.parse` made of each. */
module EmailReport {
  import opened Wrappers
  import opened JsString

  /** The fields of one parsed Allure result that the report reads; an absent field, or a
      JSON value that is not a string, is `None`. */
  datatype TestResult = TestResult(
    name: Option<string>,
    fullName: Option<string>,
    status: Option<string>,
    message: Option<string>)

  /** What reading a file and `JSON.parse` make of it: an exception (`Unreadable`), the JSON
      literal `null`, or a value whose fields the report reads. */
  datatype Parsed = Unreadable | JsonNull | Record(result: TestResult)

  datatype ResultFile = ResultFile(fileName: string, parsed: Parsed)

  /** One entry of `failedTests`. */
  datatype FailedTest = FailedTest(name: Option<string>, fullName: Option<string>, statusDetails: string)

  datatype Summary = Summary(
    passed: nat,
    failed: nat,
    broken: nat,
    skipped: nat,
    total: nat,
    failedTests: seq<FailedTest>)

  datatype RunStatus = Passed | Failed

  const ResultSuffix := "-result.json"
  const NoDetails := "No details"

  /** JavaScript truthiness of an optional string: present and not empty. */
  predicate Truthy(v: Option<string>) {
    v.Some? && v.value != ""
  }

  predicate IsFailure(status: Option<string>) {
    status == Some("failed") || status == Some("broken")
  }

  // ---------------------------------------------------------------- specification

  /** The directory entries whose names end in `-result.json`, in listing order. */
  function ResultFiles(dir: seq<ResultFile>): (files: seq<ResultFile>)
    ensures forall f :: f in files <==> f in dir && EndsWith(f.fileName, ResultSuffix)
  {
    if |dir| == 0 then []
    else
      var last := dir[|dir| - 1];
      ResultFiles(dir[..|dir| - 1]) + (if EndsWith(last.fileName, ResultSuffix) then [last] else [])
  }

  /** Number of files that parsed, whatever they parsed to. */
  function Parsable(files: seq<ResultFile>): nat {
    if |files| == 0 then 0
    else Parsable(files[..|files| - 1]) + (if files[|files| - 1].parsed.Unreadable? then 0 else 1)
  }

  /** The records whose fields the report reads, in file order. */
  function Records(files: seq<ResultFile>): seq<TestResult> {
    if |files| == 0 then []
    else
      var last := files[|files| - 1];
      Records(files[..|files| - 1]) + (if last.parsed.Record? then [last.parsed.result] else [])
  }

  /** Number of records whose status is exactly `status`. */
  function CountStatus(records: seq<TestResult>, status: string): nat {
    if |records| == 0 then 0
    else CountStatus(records[..|records| - 1], status) + (if records[|records| - 1].status == Some(status) then 1 else 0)
  }

  /** The `failedTests` entry of a failed or broken record: `fullName` falls back to `name`
      and the details to "No details". */
  function ToFailedTest(r: TestResult): FailedTest {
    FailedTest(
      r.name,
      if Truthy(r.fullName) then r.fullName else r.name,
      if Truthy(r.message) then r.message.value else NoDetails)
  }

  /** The entries of the failed and broken records, in file order. */
  function FailedEntries(records: seq<TestResult>): seq<FailedTest> {
    if |records| == 0 then []
    else
      var last := records[|records| - 1];
      FailedEntries(records[..|records| - 1]) + (if IsFailure(last.status) then [ToFailedTest(last)] else [])
  }

  /** The summary the report computes for the given result files. */
  function Summarize(files: seq<ResultFile>): Summary {
    var records := Records(files);
    Summary(
      CountStatus(records, "passed"),
      CountStatus(records, "failed"),
      CountStatus(records, "broken"),
      CountStatus(records, "skipped"),
      Parsable(files),
      FailedEntries(records))
  }

  function Verdict(s: Summary): RunStatus {
    if s.failed > 0 || s.broken > 0 then Failed else Passed
  }

  /** The figure the email shows under "Failed". */
  function ShownFailures(s: Summary): nat {
    s.failed + s.broken
  }

  // ---------------------------------------------------------------- the tally loop

  method Tally(dir: seq<ResultFile>) returns (s: Summary)
    ensures s == Summarize(ResultFiles(dir))
    ensures s.passed + s.failed + s.broken + s.skipped <= s.total
    ensures |s.failedTests| == ShownFailures(s)
    ensures Verdict(s) == Failed <==> exists r :: r in Records(ResultFiles(dir)) && IsFailure(r.status)
  {
    var resultFiles := ResultFiles(dir);
    var passed, failed, broken, skipped, total := 0, 0, 0, 0, 0;
    var failedTests: seq<FailedTest> := [];
    var i := 0;
    while i < |resultFiles|
      invariant 0 <= i <= |resultFiles|
      invariant passed == CountStatus(Records(resultFiles[..i]), "passed")
      invariant failed == CountStatus(Records(resultFiles[..i]), "failed")
      invariant broken == CountStatus(Records(resultFiles[..i]), "broken")
      invariant skipped == CountStatus(Records(resultFiles[..i]), "skipped")
      invariant total == Parsable(resultFiles[..i])
      invariant failedTests == FailedEntries(Records(resultFiles[..i]))
    {
      var file := resultFiles[i];
      assert resultFiles[..i + 1] == resultFiles[..i] + [file];
      FileStep(resultFiles[..i], file);
      match file.parsed {
        case Unreadable =>
          // the read or the parse threw, and the catch drops the file
          assert Records(resultFiles[..i + 1]) == Records(resultFiles[..i]);
        case JsonNull =>
          // `total++` runs before reading `status` of `null` throws
          assert Records(resultFiles[..i + 1]) == Records(resultFiles[..i]);
          total := total + 1;
        case Record(result) =>
          RecordStep(Records(resultFiles[..i]), result);
          total := total + 1;
          if result.status == Some("passed") {
            passed := passed + 1;
          } else if result.status == Some("failed") {
            failed := failed + 1;
            failedTests := failedTests + [ToFailedTest(result)];
          } else if result.status == Some("broken") {
            broken := broken + 1;
            failedTests := failedTests + [ToFailedTest(result)];
          } else if result.status == Some("skipped") {
            skipped := skipped + 1;
          }
      }
      i := i + 1;
    }
    assert resultFiles[..i] == resultFiles;
    s := Summary(passed, failed, broken, skipped, total, failedTests);
    SummaryConsistent(resultFiles);
  }

  /** One more file adds its record, if any, and counts once if it parsed. */
  lemma FileStep(files: seq<ResultFile>, f: ResultFile)
    ensures Records(files + [f]) == Records(files) + (if f.parsed.Record? then [f.parsed.result] else [])
    ensures Parsable(files + [f]) == Parsable(files) + (if f.parsed.Unreadable? then 0 else 1)
  {
    assert (files + [f])[..|files|] == files;
  }

  /** One more record adds one to the counter of its status and, when it failed or broke,
      one entry to `failedTests`. */
  lemma RecordStep(records: seq<TestResult>, r: TestResult)
    ensures CountStatus(records + [r], "passed") == CountStatus(records, "passed") + (if r.status == Some("passed") then 1 else 0)
    ensures CountStatus(records + [r], "failed") == CountStatus(records, "failed") + (if r.status == Some("failed") then 1 else 0)
    ensures CountStatus(records + [r], "broken") == CountStatus(records, "broken") + (if r.status == Some("broken") then 1 else 0)
    ensures CountStatus(records + [r], "skipped") == CountStatus(records, "skipped") + (if r.status == Some("skipped") then 1 else 0)
    ensures FailedEntries(records + [r])
      == FailedEntries(records) + (if IsFailure(r.status) then [ToFailedTest(r)] else [])
  {
    assert (records + [r])[..|records|] == records;
  }

  // ---------------------------------------------------------------- properties

  /** The four known statuses never outnumber the records, nor the records the parsed files. */
  lemma {:induction false} CountsBounded(files: seq<ResultFile>)
    ensures var records := Records(files);
      CountStatus(records, "passed") + CountStatus(records, "failed")
      + CountStatus(records, "broken") + CountStatus(records, "skipped") <= |records| <= Parsable(files)
  {
    if |files| > 0 {
      var init := files[..|files| - 1];
      CountsBounded(init);
      var last := files[|files| - 1];
      assert files == init + [last];
      FileStep(init, last);
      if last.parsed.Record? {
        RecordStep(Records(init), last.parsed.result);
      } else {
        assert Records(files) == Records(init);
      }
    }
  }

  /** `failedTests` holds one entry per failed or broken record. */
  lemma {:induction false} FailedEntriesCount(records: seq<TestResult>)
    ensures |FailedEntries(records)| == CountStatus(records, "failed") + CountStatus(records, "broken")
  {
    if |records| > 0 {
      FailedEntriesCount(records[..|records| - 1]);
    }
  }

  /** Every entry of `failedTests` is made from a failed or broken record. */
  lemma {:induction false} FailedEntriesSound(records: seq<TestResult>)
    ensures forall e :: e in FailedEntries(records) ==>
      exists r :: r in records && IsFailure(r.status) && e == ToFailedTest(r)
  {
    if |records| > 0 {
      var init := records[..|records| - 1];
      FailedEntriesSound(init);
      forall e | e in FailedEntries(records)
        ensures exists r :: r in records && IsFailure(r.status) && e == ToFailedTest(r)
      {
        if e in FailedEntries(init) {
          var r :| r in init && IsFailure(r.status) && e == ToFailedTest(r);
          assert r in records;
        } else {
          assert records[|records| - 1] in records;
        }
      }
    }
  }

  /** Some record is failed or broken exactly when one of the two counters is positive. */
  lemma {:induction false} FailureCounted(records: seq<TestResult>)
    ensures (CountStatus(records, "failed") > 0 || CountStatus(records, "broken") > 0)
      <==> exists r :: r in records && IsFailure(r.status)
  {
    if |records| > 0 {
      var init := records[..|records| - 1];
      FailureCounted(init);
      assert records == init + [records[|records| - 1]];
      if exists r :: r in init && IsFailure(r.status) {
        var r :| r in init && IsFailure(r.status);
        assert r in records;
      }
    }
  }

  lemma SummaryConsistent(files: seq<ResultFile>)
    ensures var s := Summarize(files);
      && s.passed + s.failed + s.broken + s.skipped <= s.total
      && |s.failedTests| == ShownFailures(s)
      && (Verdict(s) == Failed <==> exists r :: r in Records(files) && IsFailure(r.status))
  {
    CountsBounded(files);
    FailedEntriesCount(Records(files));
    FailureCounted(Records(files));
  }

  /** The tally of a concatenation of files is built from the tallies of the parts. */
  lemma {:induction false} RecordsAppend(a: seq<ResultFile>, b: seq<ResultFile>)
    ensures Records(a + b) == Records(a) + Records(b)
    ensures Parsable(a + b) == Parsable(a) + Parsable(b)
    decreases |b|
  {
    if |b| == 0 {
      assert a + b == a;
    } else {
      assert (a + b)[..|a + b| - 1] == a + b[..|b| - 1];
      RecordsAppend(a, b[..|b| - 1]);
    }
  }

  /** A file that cannot be read or parsed changes nothing in the summary, not even the total. */
  lemma UnreadableIgnored(a: seq<ResultFile>, name: string, b: seq<ResultFile>)
    ensures Summarize(a + [ResultFile(name, Unreadable)] + b) == Summarize(a + b)
  {
    var u := ResultFile(name, Unreadable);
    RecordsAppend(a + [u], b);
    FileStep(a, u);
    RecordsAppend(a, b);
    assert Records(a + [u] + b) == Records(a + b);
    assert Parsable(a + [u] + b) == Parsable(a + b);
  }

  /** A directory entry whose name does not end in `-result.json` is never looked at. */
  lemma {:induction false} ResultFilesSkipOthers(a: seq<ResultFile>, f: ResultFile, b: seq<ResultFile>)
    requires !EndsWith(f.fileName, ResultSuffix)
    ensures ResultFiles(a + [f] + b) == ResultFiles(a + b)
    decreases |b|
  {
    if |b| == 0 {
      assert a + [f] + b == a + [f];
      assert (a + [f])[..|a|] == a;
      assert a + b == a;
    } else {
      assert (a + [f] + b)[..|a + [f] + b| - 1] == a + [f] + b[..|b| - 1];
      assert (a + b)[..|a + b| - 1] == a + b[..|b| - 1];
      ResultFilesSkipOthers(a, f, b[..|b| - 1]);
    }
  }

  /** A record with a status other than the four known ones counts towards the total only. */
  lemma UnknownStatusCountsInTotalOnly(a: seq<ResultFile>, f: ResultFile)
    requires f.parsed.Record?
    requires f.parsed.result.status !in {Some("passed"), Some("failed"), Some("broken"), Some("skipped")}
    ensures var before, after := Summarize(a), Summarize(a + [f]);
      && after.total == before.total + 1
      && after == before.(total := before.total + 1)
  {
    assert (a + [f])[..|a|] == a;
  }
}
