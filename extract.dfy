/**
 * The report-to-text extraction layer: summary details, assertion details,
 * the failing-test digest and the label filter over the raw test output.
 * Each loop of the Python code is a method proved equal to a specification
 * function; the lemmas state what those functions promise.
 */
module Extract {
  import opened Text
  import opened ReportModel

  // ---------------------------------------------------------------------------
  // is_failing_test_details_empty

  /** A failing-details digest that holds nothing but its leading newline. */
  predicate IsFailingTestDetailsEmpty(details: string): (empty: bool)
    ensures empty <==> |details| == 1 && details[0] == '\n'
  {
    details == "\n"
  }

  // ---------------------------------------------------------------------------
  // extract_details, extract_test_run_details

  /** The text `f"{value} {key}"` of one summary entry. */
  function DetailEntry(p: Pair): string {
    p.1 + " " + p.0
  }

  function DetailEntries(d: seq<Pair>): seq<string> {
    seq(|d|, i requires 0 <= i < |d| => DetailEntry(d[i]))
  }

  /** The summary line: nothing for no entries, else "Details: " and the entries joined by ", ". */
  function Details(d: seq<Pair>): (r: string)
    ensures r == "" <==> d == []
    ensures d != [] ==> |r| >= 9 && r[..9] == "Details: "
  {
    if d == [] then "" else "Details: " + Join(DetailEntries(d), ", ")
  }

  /** Entries appear in insertion order: one more entry extends the line by ", <value> <key>". */
  lemma DetailsAppend(d: seq<Pair>, key: string, value: string)
    ensures Details(d + [(key, value)])
         == (if d == [] then "Details: " else Details(d) + ", ") + value + " " + key
  {
    assert DetailEntries(d + [(key, value)]) == DetailEntries(d) + [value + " " + key];
    if d != [] {
      JoinAppend(DetailEntries(d), value + " " + key, ", ");
    }
  }

  method ExtractDetails(details: Dict) returns (s: string)
    ensures s == Details(details)
  {
    var output: seq<string> := [];
    for i := 0 to |details|
      invariant output == DetailEntries(details[..i])
    {
      var (key, value) := details[i];
      output := output + [value + " " + key];
    }
    assert details[..|details|] == details;
    if |output| == 0 {
      return "";
    }
    s := "Details: " + Join(output, ", ");
  }

  method ExtractTestRunDetails(details: Report) returns (r: Result<string>)
    ensures details.summary.None? ==> r == Err(KeyError("summary"))
    ensures details.summary.Some? ==> r == Ok(Details(details.summary.value))
  {
    if details.summary.None? {
      return Err(KeyError("summary"));
    }
    var summaryText := ExtractDetails(details.summary.value);
    r := Ok(summaryText);
  }

  // ---------------------------------------------------------------------------
  // extract_test_assertion_details, extract_test_assertion_details_list

  /** The line of one assertion entry: the first is marked "  - ", later ones are indented by four spaces. */
  function AssertionLine(index: nat, p: Pair): string {
    (if index == 0 then "  - " else "    ") + p.0 + ": " + p.1
  }

  function AssertionLines(d: seq<Pair>): seq<string> {
    seq(|d|, i requires 0 <= i < |d| => AssertionLine(i, d[i]))
  }

  /** The assertion block: one newline-terminated line per entry, in insertion order. */
  function AssertionDetails(d: seq<Pair>): (r: string)
    ensures r == "" <==> d == []
  {
    Unlines(AssertionLines(d))
  }

  /** The block opens with "  - <k1>: <v1>\n", and each later entry adds "    <k>: <v>\n". */
  lemma AssertionDetailsShape(d: seq<Pair>, key: string, value: string)
    ensures AssertionDetails([(key, value)]) == "  - " + key + ": " + value + "\n"
    ensures d != [] ==>
      AssertionDetails(d + [(key, value)]) == AssertionDetails(d) + "    " + key + ": " + value + "\n"
  {
    assert AssertionLines([(key, value)]) == [] + ["  - " + key + ": " + value];
    UnlinesAppend([], "  - " + key + ": " + value);
    assert AssertionLines(d + [(key, value)]) == AssertionLines(d) + [AssertionLine(|d|, (key, value))];
    UnlinesAppend(AssertionLines(d), AssertionLine(|d|, (key, value)));
  }

  lemma NoLineBoundaryConcat(a: string, b: string)
    requires NoLineBoundary(a) && NoLineBoundary(b)
    ensures NoLineBoundary(a + b)
  {
    assert forall i :: 0 <= i < |a + b| ==> (a + b)[i] == if i < |a| then a[i] else b[i - |a|];
  }

  /** Read back line by line, the block gives exactly one line per entry, as long as no key or value spans lines. */
  lemma AssertionDetailsReadBack(d: seq<Pair>)
    requires PairsFree(d)
    ensures SplitLines(AssertionDetails(d)) == AssertionLines(d)
  {
    var lines := AssertionLines(d);
    forall i | 0 <= i < |lines| ensures NoLineBoundary(lines[i]) {
      var prefix: string := if i == 0 then "  - " else "    ";
      assert NoLineBoundary(prefix);
      assert NoLineBoundary(": ");
      NoLineBoundaryConcat(prefix, d[i].0);
      NoLineBoundaryConcat(prefix + d[i].0, ": ");
      NoLineBoundaryConcat(prefix + d[i].0 + ": ", d[i].1);
    }
    SplitLinesUnlines(lines);
  }

  /** Appending an entry's pieces one by one appends its line. */
  lemma EntryText(before: string, prefix: string, key: string, value: string)
    ensures before + (prefix + key + ": " + value + "\n") == before + prefix + key + ": " + value + "\n"
    ensures before + (key + ": " + value + "\n") == before + key + ": " + value + "\n"
  {
  }

  method ExtractTestAssertionDetails(testDetails: Dict) returns (s: string)
    ensures s == AssertionDetails(testDetails)
  {
    var output: seq<string> := [];
    var first := true;
    for i := 0 to |testDetails|
      invariant first <==> i == 0
      invariant Concat(output) == AssertionDetails(testDetails[..i])
    {
      var (key, value) := testDetails[i];
      assert testDetails[..i + 1] == testDetails[..i] + [(key, value)];
      AssertionDetailsShape(testDetails[..i], key, value);
      if first {
        assert testDetails[..i + 1] == [(key, value)];
        ConcatAppend([], "  - ");
        assert [] + ["  - "] == ["  - "];
        ConcatAppend(["  - "], key + ": " + value + "\n");
        EntryText("  - ", "", key, value);
        output := ["  - "];
        output := output + [key + ": " + value + "\n"];
        first := false;
      } else {
        ConcatAppend(output, "    " + key + ": " + value + "\n");
        EntryText(Concat(output), "    ", key, value);
        output := output + ["    " + key + ": " + value + "\n"];
      }
    }
    assert testDetails[..|testDetails|] == testDetails;
    s := Concat(output);
  }

  /** The blocks of a list of assertion dictionaries, in list order. */
  function AssertionDetailsList(ds: seq<seq<Pair>>): string
    decreases |ds|
  {
    if ds == [] then "" else AssertionDetailsList(ds[..|ds| - 1]) + AssertionDetails(ds[|ds| - 1])
  }

  lemma AssertionDetailsListSnoc(ds: seq<seq<Pair>>, d: seq<Pair>)
    ensures AssertionDetailsList(ds + [d]) == AssertionDetailsList(ds) + AssertionDetails(d)
  {
    assert (ds + [d])[..|ds|] == ds;
  }

  /** The list's text is the in-order concatenation of its parts' texts. */
  lemma {:induction false} AssertionDetailsListConcat(a: seq<seq<Pair>>, b: seq<seq<Pair>>)
    ensures AssertionDetailsList(a + b) == AssertionDetailsList(a) + AssertionDetailsList(b)
    decreases |b|
  {
    if b == [] {
      assert a + b == a;
    } else {
      var init, last := b[..|b| - 1], b[|b| - 1];
      assert b == init + [last];
      assert a + b == (a + init) + [last];
      AssertionDetailsListSnoc(a + init, last);
      AssertionDetailsListSnoc(init, last);
      AssertionDetailsListConcat(a, init);
      AppendAssoc(AssertionDetailsList(a), AssertionDetailsList(init), AssertionDetails(last));
    }
  }

  /** A list of one assertion dictionary contributes exactly that dictionary's block. */
  lemma AssertionDetailsListSingle(d: seq<Pair>)
    ensures AssertionDetailsList([d]) == AssertionDetails(d)
  {
    assert [d][..0] == [];
  }

  method ExtractTestAssertionDetailsList(details: seq<Dict>) returns (s: string)
    ensures s == AssertionDetailsList(details)
  {
    var output: seq<string> := [];
    for i := 0 to |details|
      invariant Concat(output) == AssertionDetailsList(details[..i])
    {
      var text := ExtractTestAssertionDetails(details[i]);
      assert details[..i + 1][..i] == details[..i];
      ConcatAppend(output, text);
      output := output + [text];
    }
    assert details[..|details|] == details;
    s := Concat(output);
  }

  // ---------------------------------------------------------------------------
  // extract_test_assertions_details

  /** A test's heading: its nodeid after the last "/", between newlines. */
  function Heading(nodeid: string): string {
    "\n" + AfterLast(nodeid, '/') + "\n"
  }

  /** One test's section: its heading, then its assertion blocks when the key "assertions" is present. */
  function Section(t: TestEntry): Result<string> {
    if t.nodeid.None? then Err(KeyError("nodeid"))
    else Ok(Heading(t.nodeid.value) + (if t.assertions.Some? then AssertionDetailsList(t.assertions.value) else ""))
  }

  /** The sections of all reports in order; the first report without a nodeid aborts with its `KeyError`. */
  function AssertionsReport(reports: seq<TestEntry>): Result<string>
    decreases |reports|
  {
    if reports == [] then Ok("")
    else
      var prefix := AssertionsReport(reports[..|reports| - 1]);
      var section := Section(reports[|reports| - 1]);
      if prefix.Err? then prefix
      else if section.Err? then section
      else Ok(prefix.value + section.value)
  }

  /** The report can be built exactly when every test has a nodeid. */
  lemma {:induction false} AssertionsReportOkIff(reports: seq<TestEntry>)
    ensures AssertionsReport(reports).Ok? <==> forall i :: 0 <= i < |reports| ==> reports[i].nodeid.Some?
    ensures AssertionsReport(reports).Err? ==> AssertionsReport(reports) == Err(KeyError("nodeid"))
    decreases |reports|
  {
    if reports != [] {
      var init, last := reports[..|reports| - 1], reports[|reports| - 1];
      AssertionsReportOkIff(init);
      assert reports == init + [last];
      if forall i :: 0 <= i < |reports| ==> reports[i].nodeid.Some? {
        assert forall i :: 0 <= i < |init| ==> init[i].nodeid.Some?;
      }
    }
  }

  lemma AssertionsReportSnoc(init: seq<TestEntry>, t: TestEntry)
    ensures AssertionsReport(init + [t])
         == var prefix, section := AssertionsReport(init), Section(t);
            if prefix.Err? then prefix else if section.Err? then section else Ok(prefix.value + section.value)
  {
    assert (init + [t])[..|init|] == init;
  }

  /** Sections are laid out in report order: the report of a concatenation is the concatenation of the reports. */
  lemma {:induction false} AssertionsReportConcat(a: seq<TestEntry>, b: seq<TestEntry>)
    requires AssertionsReport(a).Ok? && AssertionsReport(b).Ok?
    ensures AssertionsReport(a + b) == Ok(AssertionsReport(a).value + AssertionsReport(b).value)
    decreases |b|
  {
    if b == [] {
      assert a + b == a;
      assert AssertionsReport(a).value + "" == AssertionsReport(a).value;
    } else {
      var init, last := b[..|b| - 1], b[|b| - 1];
      assert b == init + [last];
      assert a + b == (a + init) + [last];
      AssertionsReportSnoc(init, last);
      AssertionsReportSnoc(a + init, last);
      AssertionsReportConcat(a, init);
      AppendAssoc(AssertionsReport(a).value, AssertionsReport(init).value, Section(last).value);
    }
  }

  /** A single test's report is its own section, or that section's `KeyError`. */
  lemma AssertionsReportSingle(t: TestEntry)
    ensures AssertionsReport([t]) == Section(t)
  {
    assert [t][..0] == [];
    if Section(t).Ok? {
      assert "" + Section(t).value == Section(t).value;
    }
  }

  /** Errors are reported for the first offending test: a failing prefix fails the whole list with the same error. */
  lemma {:induction false} AssertionsReportErrPersists(reports: seq<TestEntry>, n: nat)
    requires n <= |reports| && AssertionsReport(reports[..n]).Err?
    ensures AssertionsReport(reports) == AssertionsReport(reports[..n])
    decreases |reports| - n
  {
    if n < |reports| {
      assert reports[..n + 1][..n] == reports[..n];
      AssertionsReportErrPersists(reports, n + 1);
    } else {
      assert reports[..n] == reports;
    }
  }

  /** The loop's appends of the heading, then of the blocks, add one section to the text built so far. */
  lemma HeadingAppend(before: string, nodeid: string, details: string)
    ensures before + "\n" + AfterLast(nodeid, '/') + "\n" == before + (Heading(nodeid) + "")
    ensures (before + "\n" + AfterLast(nodeid, '/') + "\n") + details == before + (Heading(nodeid) + details)
  {
  }

  method ExtractTestAssertionsDetails(testReports: seq<TestEntry>) returns (r: Result<string>)
    ensures r == AssertionsReport(testReports)
  {
    var testReportString := "";
    for i := 0 to |testReports|
      invariant AssertionsReport(testReports[..i]) == Ok(testReportString)
    {
      var testReport := testReports[i];
      assert testReports[..i + 1] == testReports[..i] + [testReport];
      AssertionsReportSnoc(testReports[..i], testReport);
      if testReport.nodeid.None? {
        AssertionsReportErrPersists(testReports, i + 1);
        return Err(KeyError("nodeid"));
      }
      ghost var before := testReportString;
      var displayTestName := AfterLast(testReport.nodeid.value, '/');
      testReportString := testReportString + "\n" + displayTestName + "\n";
      if testReport.assertions.Some? {
        var details := ExtractTestAssertionDetailsList(testReport.assertions.value);
        HeadingAppend(before, testReport.nodeid.value, details);
        testReportString := testReportString + details;
      } else {
        HeadingAppend(before, testReport.nodeid.value, "");
      }
    }
    assert testReports[..|testReports|] == testReports;
    r := Ok(testReportString);
  }

  // ---------------------------------------------------------------------------
  // extract_failing_test_details

  /** What is recorded about one failing test: its name and the path of the file that holds it. */
  datatype FailingTest<P> = FailingTest(testName: string, testPath: P)

  /** The second argument passed to `convert.path_to_string`. */
  const PathDepth := 4

  /** The test file's path: `root` joined with the nodeid's part before the first "::". */
  function TestPath<P>(root: string, nodeid: string, join: (string, string) -> P): P {
    join(root, Split(nodeid, "::")[0])
  }

  /** The test's name: the nodeid's part after the last "::". */
  function TestName(nodeid: string): string {
    var parts := Split(nodeid, "::");
    parts[|parts| - 1]
  }

  /** The file part and the name part are free of "::", the parts rejoin to the nodeid, and a nodeid without "::" is both. */
  lemma NodeidParts(nodeid: string)
    ensures Join(Split(nodeid, "::"), "::") == nodeid
    ensures !Contains(Split(nodeid, "::")[0], "::") && !Contains(TestName(nodeid), "::")
    ensures !Contains(nodeid, "::") ==> Split(nodeid, "::")[0] == nodeid && TestName(nodeid) == nodeid
  {
    SplitJoin(nodeid, "::");
    SplitPartsFree(nodeid, "::");
    SplitSingleIff(nodeid, "::");
  }

  /** The four lines the digest holds for one failing test, in the order they are appended. */
  function FailureLines(nodeid: string, pathText: string, lineno: string, message: string): seq<string> {
    ["  Name: " + nodeid, "  Path: " + pathText, "  Line number: " + lineno, "  Message: " + message]
  }

  /** The text appended to the digest for one failing test. */
  function FailureBlock(nodeid: string, pathText: string, lineno: string, message: string): string {
    "  Name: " + nodeid + "\n" + "  Path: " + pathText + "\n"
    + "  Line number: " + lineno + "\n" + "  Message: " + message + "\n"
  }

  lemma FailureBlockLines(nodeid: string, pathText: string, lineno: string, message: string)
    ensures FailureBlock(nodeid, pathText, lineno, message) == Unlines(FailureLines(nodeid, pathText, lineno, message))
  {
    var lines := FailureLines(nodeid, pathText, lineno, message);
    assert lines[3..][1..] == [];
    assert Unlines(lines[3..]) == lines[3] + "\n";
    assert lines[2..][1..] == lines[3..];
    assert Unlines(lines[2..]) == lines[2] + "\n" + Unlines(lines[3..]);
    assert lines[1..][1..] == lines[2..];
    assert Unlines(lines[1..]) == lines[1] + "\n" + Unlines(lines[2..]);
    assert Unlines(lines) == lines[0] + "\n" + Unlines(lines[1..]);
  }

  /** Read back line by line, a block gives its four lines, as long as no field spans lines. */
  lemma FailureBlockReadBack(nodeid: string, pathText: string, lineno: string, message: string)
    requires NoLineBoundary(nodeid) && NoLineBoundary(pathText) && NoLineBoundary(lineno) && NoLineBoundary(message)
    ensures SplitLines(FailureBlock(nodeid, pathText, lineno, message)) == FailureLines(nodeid, pathText, lineno, message)
  {
    var lines := FailureLines(nodeid, pathText, lineno, message);
    assert NoLineBoundary("  Name: ") && NoLineBoundary("  Path: ");
    assert NoLineBoundary("  Line number: ") && NoLineBoundary("  Message: ");
    NoLineBoundaryConcat("  Name: ", nodeid);
    NoLineBoundaryConcat("  Path: ", pathText);
    NoLineBoundaryConcat("  Line number: ", lineno);
    NoLineBoundaryConcat("  Message: ", message);
    FailureBlockLines(nodeid, pathText, lineno, message);
    SplitLinesUnlines(lines);
  }

  /**
   * One test's contribution: `None` unless its outcome is exactly "failed";
   * a missing key aborts with its `KeyError`, checked in the order the keys are read.
   */
  function TestFailure<P>(root: Option<string>, t: TestEntry, join: (string, string) -> P, pathToString: (P, int) -> string)
    : Result<Option<(string, FailingTest<P>)>>
  {
    if t.outcome.None? then Err(KeyError("outcome"))
    else if t.outcome.value != "failed" then Ok(None)
    else if t.nodeid.None? then Err(KeyError("nodeid"))
    else if t.call.None? then Err(KeyError("call"))
    else if t.call.value.crash.None? then Err(KeyError("crash"))
    else if root.None? then Err(KeyError("root"))
    else
      var nodeid, crash := t.nodeid.value, t.call.value.crash.value;
      var path := TestPath(root.value, nodeid, join);
      if crash.lineno.None? then Err(KeyError("lineno"))
      else if crash.message.None? then Err(KeyError("message"))
      else
        var block := FailureBlock(nodeid, pathToString(path, PathDepth), crash.lineno.value, crash.message.value);
        Ok(Some((block, FailingTest(TestName(nodeid), path))))
  }

  /** The digest text (without its leading newline) and the path records of `tests`, or the first `KeyError`. */
  function FailingFrom<P>(root: Option<string>, tests: seq<TestEntry>, join: (string, string) -> P, pathToString: (P, int) -> string)
    : Result<(string, seq<FailingTest<P>>)>
    decreases |tests|
  {
    if tests == [] then Ok(("", []))
    else
      var prefix := FailingFrom(root, tests[..|tests| - 1], join, pathToString);
      var step := TestFailure(root, tests[|tests| - 1], join, pathToString);
      if prefix.Err? then prefix
      else if step.Err? then Err(step.error)
      else if step.value.None? then prefix
      else Ok((prefix.value.0 + step.value.value.0, prefix.value.1 + [step.value.value.1]))
  }

  /** The result of `extract_failing_test_details`: the digest, which starts with "\n", and one path record per failing test. */
  function FailingDetails<P>(details: Report, join: (string, string) -> P, pathToString: (P, int) -> string)
    : Result<(string, seq<FailingTest<P>>)>
  {
    if details.tests.None? then Err(KeyError("tests"))
    else
      var r := FailingFrom(details.root, details.tests.value, join, pathToString);
      if r.Err? then Err(r.error) else Ok(("\n" + r.value.0, r.value.1))
  }

  lemma {:induction false} FailingFromErrPersists<P>(root: Option<string>, tests: seq<TestEntry>, n: nat,
                                                     join: (string, string) -> P, pathToString: (P, int) -> string)
    requires n <= |tests| && FailingFrom(root, tests[..n], join, pathToString).Err?
    ensures FailingFrom(root, tests, join, pathToString) == FailingFrom(root, tests[..n], join, pathToString)
    decreases |tests| - n
  {
    if n < |tests| {
      assert tests[..n + 1][..n] == tests[..n];
      FailingFromErrPersists(root, tests, n + 1, join, pathToString);
    } else {
      assert tests[..n] == tests;
    }
  }

  /** The four appends of the loop body add one `FailureBlock` after the leading newline's text. */
  lemma AppendFailureBlock(before: string, nodeid: string, pathText: string, lineno: string, message: string)
    requires |before| >= 1
    ensures var after := before + "  Name: " + nodeid + "\n" + "  Path: " + pathText + "\n"
                         + "  Line number: " + lineno + "\n" + "  Message: " + message + "\n";
            |after| >= 1 && after[0] == before[0]
            && after[1..] == before[1..] + FailureBlock(nodeid, pathText, lineno, message)
  {
    var l1, l2 := "  Name: " + nodeid + "\n", "  Path: " + pathText + "\n";
    var l3, l4 := "  Line number: " + lineno + "\n", "  Message: " + message + "\n";
    AppendLine(before, "  Name: ", nodeid);
    AppendLine(before + l1, "  Path: ", pathText);
    AppendLine(before + l1 + l2, "  Line number: ", lineno);
    AppendLine(before + l1 + l2 + l3, "  Message: ", message);
    AppendLine("", "  Name: ", nodeid);
    AppendLine(l1, "  Path: ", pathText);
    AppendLine(l1 + l2, "  Line number: ", lineno);
    AppendLine(l1 + l2 + l3, "  Message: ", message);
    assert "" + l1 == l1;
    AppendAssoc(before, l1, l2);
    AppendAssoc(before, l1 + l2, l3);
    AppendAssoc(before, l1 + l2 + l3, l4);
    DropFirst(before, FailureBlock(nodeid, pathText, lineno, message));
  }

  /** Appending a tag, a value and "\n" appends the line they make. */
  lemma AppendLine(before: string, tag: string, value: string)
    ensures before + tag + value + "\n" == before + (tag + value + "\n")
  {
  }

  lemma DropFirst(before: string, rest: string)
    requires |before| >= 1
    ensures (before + rest)[1..] == before[1..] + rest
  {
  }

  lemma FailingFromSnoc<P>(root: Option<string>, tests: seq<TestEntry>, i: nat,
                           join: (string, string) -> P, pathToString: (P, int) -> string)
    requires i < |tests|
    ensures var prefix := FailingFrom(root, tests[..i], join, pathToString);
            var step := TestFailure(root, tests[i], join, pathToString);
            FailingFrom(root, tests[..i + 1], join, pathToString)
            == if prefix.Err? then prefix
               else if step.Err? then Err(step.error)
               else if step.value.None? then prefix
               else Ok((prefix.value.0 + step.value.value.0, prefix.value.1 + [step.value.value.1]))
  {
    assert tests[..i + 1][..i] == tests[..i];
    assert tests[..i + 1][i] == tests[i];
  }

  method ExtractFailingTestDetails<P>(details: Report, join: (string, string) -> P, pathToString: (P, int) -> string)
    returns (r: Result<(string, seq<FailingTest<P>>)>)
    ensures r == FailingDetails(details, join, pathToString)
  {
    if details.tests.None? {
      return Err(KeyError("tests"));
    }
    var tests := details.tests.value;
    var failingDetailsStr := "\n";
    var failingTestPaths: seq<FailingTest<P>> := [];
    assert tests[..0] == [] && failingDetailsStr[1..] == "";
    assert FailingFrom(details.root, tests[..0], join, pathToString) == Ok(("", []));
    for i := 0 to |tests|
      invariant |failingDetailsStr| >= 1 && failingDetailsStr[0] == '\n'
      invariant FailingFrom(details.root, tests[..i], join, pathToString) == Ok((failingDetailsStr[1..], failingTestPaths))
    {
      var test := tests[i];
      FailingFromSnoc(details.root, tests, i, join, pathToString);
      TestFailureCases(details.root, test, join, pathToString);
      if test.outcome.None? {
        FailingFromErrPersists(details.root, tests, i + 1, join, pathToString);
        return Err(KeyError("outcome"));
      }
      if test.outcome.value == "failed" {
        ghost var before := failingDetailsStr;
        if test.nodeid.None? {
          FailingFromErrPersists(details.root, tests, i + 1, join, pathToString);
          return Err(KeyError("nodeid"));
        }
        var failingTestNodeid := test.nodeid.value;
        failingDetailsStr := failingDetailsStr + "  Name: " + failingTestNodeid + "\n";
        if test.call.None? {
          FailingFromErrPersists(details.root, tests, i + 1, join, pathToString);
          return Err(KeyError("call"));
        }
        if test.call.value.crash.None? {
          FailingFromErrPersists(details.root, tests, i + 1, join, pathToString);
          return Err(KeyError("crash"));
        }
        var failingTestCrash := test.call.value.crash.value;
        if details.root.None? {
          FailingFromErrPersists(details.root, tests, i + 1, join, pathToString);
          return Err(KeyError("root"));
        }
        var failingTestNodeidSplit := Split(failingTestNodeid, "::");
        var failingTestPath := join(details.root.value, failingTestNodeidSplit[0]);
        var failingTestName := failingTestNodeidSplit[|failingTestNodeidSplit| - 1];
        failingTestPaths := failingTestPaths + [FailingTest(failingTestName, failingTestPath)];
        var failingTestPathStr := pathToString(failingTestPath, PathDepth);
        if failingTestCrash.lineno.None? {
          FailingFromErrPersists(details.root, tests, i + 1, join, pathToString);
          return Err(KeyError("lineno"));
        }
        if failingTestCrash.message.None? {
          FailingFromErrPersists(details.root, tests, i + 1, join, pathToString);
          return Err(KeyError("message"));
        }
        var failingTestLineno := failingTestCrash.lineno.value;
        var failingTestMessage := failingTestCrash.message.value;
        failingDetailsStr := failingDetailsStr + "  Path: " + failingTestPathStr + "\n";
        failingDetailsStr := failingDetailsStr + "  Line number: " + failingTestLineno + "\n";
        failingDetailsStr := failingDetailsStr + "  Message: " + failingTestMessage + "\n";
        AppendFailureBlock(before, failingTestNodeid, failingTestPathStr, failingTestLineno, failingTestMessage);
      }
    }
    assert tests[..|tests|] == tests;
    r := Ok((failingDetailsStr, failingTestPaths));
    assert failingDetailsStr == "\n" + failingDetailsStr[1..];
  }

  // A reference description of the digest: select the failed tests first, then format each.

  /** The tests whose outcome is exactly "failed", in report order. */
  function FailedTests(tests: seq<TestEntry>): (failed: seq<TestEntry>)
    ensures |failed| <= |tests|
    ensures forall i :: 0 <= i < |failed| ==> failed[i].outcome == Some("failed")
    decreases |tests|
  {
    if tests == [] then []
    else
      var last := tests[|tests| - 1];
      FailedTests(tests[..|tests| - 1]) + (if last.outcome == Some("failed") then [last] else [])
  }

  /** A test is selected exactly when it is in the report and its outcome is "failed"; "error" and every other outcome are not. */
  lemma {:induction false} FailedTestsMembers(tests: seq<TestEntry>, t: TestEntry)
    ensures t in FailedTests(tests) <==> t in tests && t.outcome == Some("failed")
    decreases |tests|
  {
    if tests != [] {
      var init := tests[..|tests| - 1];
      FailedTestsMembers(init, t);
      assert tests == init + [tests[|tests| - 1]];
    }
  }

  /** Every key the failing branch reads is present. */
  predicate FailureComplete(t: TestEntry) {
    && t.nodeid.Some? && t.call.Some? && t.call.value.crash.Some?
    && t.call.value.crash.value.lineno.Some? && t.call.value.crash.value.message.Some?
  }

  predicate AllComplete(failed: seq<TestEntry>) {
    forall i :: 0 <= i < |failed| ==> FailureComplete(failed[i])
  }

  /** The report can be digested: every test has an outcome, and every failed test has all its keys, and then a root is needed too. */
  predicate Extractable(root: Option<string>, tests: seq<TestEntry>) {
    forall i :: 0 <= i < |tests| ==>
      tests[i].outcome.Some? && (tests[i].outcome == Some("failed") ==> root.Some? && FailureComplete(tests[i]))
  }

  /** The root as text; it is read only when some test failed. */
  function RootText(root: Option<string>): string {
    if root.Some? then root.value else ""
  }

  /** The block of one complete failed test. */
  function BlockOf<P>(root: string, t: TestEntry, join: (string, string) -> P, pathToString: (P, int) -> string): string
    requires FailureComplete(t)
  {
    var crash := t.call.value.crash.value;
    FailureBlock(t.nodeid.value, pathToString(TestPath(root, t.nodeid.value, join), PathDepth),
                 crash.lineno.value, crash.message.value)
  }

  /** The blocks of the failed tests, in order. */
  function FailedText<P>(root: string, failed: seq<TestEntry>, join: (string, string) -> P, pathToString: (P, int) -> string)
    : (text: string)
    requires AllComplete(failed)
    ensures text == "" <==> failed == []
    decreases |failed|
  {
    if failed == [] then ""
    else FailedText(root, failed[..|failed| - 1], join, pathToString) + BlockOf(root, failed[|failed| - 1], join, pathToString)
  }

  /** One record per failed test, in order: its name and its file's path. */
  function FailedPaths<P>(root: string, failed: seq<TestEntry>, join: (string, string) -> P): (paths: seq<FailingTest<P>>)
    requires AllComplete(failed)
    ensures |paths| == |failed|
  {
    seq(|failed|, i requires 0 <= i < |failed| =>
      FailingTest(TestName(failed[i].nodeid.value), TestPath(root, failed[i].nodeid.value, join)))
  }

  /** One test's step: it succeeds exactly when its outcome is present and, for a failed test, the root and all its keys are; a failed test yields its block and record, any other outcome nothing. */
  lemma TestFailureCases<P>(root: Option<string>, t: TestEntry, join: (string, string) -> P, pathToString: (P, int) -> string)
    ensures TestFailure(root, t, join, pathToString).Ok?
            <==> t.outcome.Some? && (t.outcome == Some("failed") ==> root.Some? && FailureComplete(t))
    ensures t.outcome.Some? && t.outcome != Some("failed") ==> TestFailure(root, t, join, pathToString) == Ok(None)
    ensures t.outcome == Some("failed") && root.Some? && FailureComplete(t) ==>
      TestFailure(root, t, join, pathToString)
      == Ok(Some((BlockOf(root.value, t, join, pathToString),
                  FailingTest(TestName(t.nodeid.value), TestPath(root.value, t.nodeid.value, join)))))
  {
  }

  /**
   * Which key a test's step reports missing: the outcome of every test first; then,
   * for a failed test, nodeid, call, crash, the report's root, lineno and message,
   * in that order, the first absent one.
   */
  lemma TestFailureKeyErrors<P>(root: Option<string>, t: TestEntry, join: (string, string) -> P, pathToString: (P, int) -> string)
    ensures t.outcome.None? ==> TestFailure(root, t, join, pathToString) == Err(KeyError("outcome"))
    ensures t.outcome == Some("failed") && t.nodeid.None? ==>
      TestFailure(root, t, join, pathToString) == Err(KeyError("nodeid"))
    ensures t.outcome == Some("failed") && t.nodeid.Some? && t.call.None? ==>
      TestFailure(root, t, join, pathToString) == Err(KeyError("call"))
    ensures t.outcome == Some("failed") && t.nodeid.Some? && t.call.Some? && t.call.value.crash.None? ==>
      TestFailure(root, t, join, pathToString) == Err(KeyError("crash"))
    ensures t.outcome == Some("failed") && t.nodeid.Some? && t.call.Some? && t.call.value.crash.Some? && root.None? ==>
      TestFailure(root, t, join, pathToString) == Err(KeyError("root"))
    ensures t.outcome == Some("failed") && t.nodeid.Some? && t.call.Some? && t.call.value.crash.Some? && root.Some?
            && t.call.value.crash.value.lineno.None? ==>
      TestFailure(root, t, join, pathToString) == Err(KeyError("lineno"))
    ensures t.outcome == Some("failed") && t.nodeid.Some? && t.call.Some? && t.call.value.crash.Some? && root.Some?
            && t.call.value.crash.value.lineno.Some? && t.call.value.crash.value.message.None? ==>
      TestFailure(root, t, join, pathToString) == Err(KeyError("message"))
  {
  }

  /** The first test whose step fails decides the whole digest: its `KeyError` is the result. */
  lemma FirstKeyErrorDecides<P>(details: Report, i: nat, join: (string, string) -> P, pathToString: (P, int) -> string)
    requires details.tests.Some? && i < |details.tests.value|
    requires FailingFrom(details.root, details.tests.value[..i], join, pathToString).Ok?
    requires TestFailure(details.root, details.tests.value[i], join, pathToString).Err?
    ensures FailingDetails(details, join, pathToString)
         == Err(TestFailure(details.root, details.tests.value[i], join, pathToString).error)
  {
    var tests := details.tests.value;
    FailingFromSnoc(details.root, tests, i, join, pathToString);
    FailingFromErrPersists(details.root, tests, i + 1, join, pathToString);
  }

  /** Extractability of a report extended by one test. */
  lemma ExtractableSnoc(root: Option<string>, init: seq<TestEntry>, last: TestEntry)
    ensures Extractable(root, init + [last]) <==>
      Extractable(root, init)
      && last.outcome.Some? && (last.outcome == Some("failed") ==> root.Some? && FailureComplete(last))
  {
    var tests := init + [last];
    assert forall i :: 0 <= i < |init| ==> tests[i] == init[i];
    assert tests[|init|] == last;
  }

  /** The reference text and records of the failed tests extended by one complete failed test. */
  lemma FailedAppend<P>(root: string, failed: seq<TestEntry>, last: TestEntry,
                        join: (string, string) -> P, pathToString: (P, int) -> string)
    requires AllComplete(failed) && FailureComplete(last)
    ensures AllComplete(failed + [last])
    ensures FailedText(root, failed + [last], join, pathToString)
         == FailedText(root, failed, join, pathToString) + BlockOf(root, last, join, pathToString)
    ensures FailedPaths(root, failed + [last], join)
         == FailedPaths(root, failed, join) + [FailingTest(TestName(last.nodeid.value), TestPath(root, last.nodeid.value, join))]
  {
    var G := failed + [last];
    assert forall i :: 0 <= i < |G| ==> G[i] == if i < |failed| then failed[i] else last;
    assert G[..|G| - 1] == failed;
  }

  lemma FailedTestsSnoc(init: seq<TestEntry>, last: TestEntry)
    ensures FailedTests(init + [last]) == FailedTests(init) + (if last.outcome == Some("failed") then [last] else [])
  {
    assert (init + [last])[..|init|] == init;
  }

  lemma FailingFromAppend<P>(root: Option<string>, init: seq<TestEntry>, last: TestEntry,
                             join: (string, string) -> P, pathToString: (P, int) -> string)
    ensures var prefix := FailingFrom(root, init, join, pathToString);
            var step := TestFailure(root, last, join, pathToString);
            FailingFrom(root, init + [last], join, pathToString)
            == if prefix.Err? then prefix
               else if step.Err? then Err(step.error)
               else if step.value.None? then prefix
               else Ok((prefix.value.0 + step.value.value.0, prefix.value.1 + [step.value.value.1]))
  {
    assert (init + [last])[..|init|] == init;
  }

  /** The loop's result agrees with the reference: it succeeds exactly on extractable reports, and then yields the reference text and records. */
  lemma {:induction false} FailingFromReference<P>(root: Option<string>, tests: seq<TestEntry>,
                                                   join: (string, string) -> P, pathToString: (P, int) -> string)
    ensures FailingFrom(root, tests, join, pathToString).Ok? <==> Extractable(root, tests)
    ensures Extractable(root, tests) ==>
      && AllComplete(FailedTests(tests))
      && FailingFrom(root, tests, join, pathToString)
         == Ok((FailedText(RootText(root), FailedTests(tests), join, pathToString),
                FailedPaths(RootText(root), FailedTests(tests), join)))
    decreases |tests|
  {
    if tests == [] {
      assert FailedTests(tests) == [];
    } else {
      var init, last := tests[..|tests| - 1], tests[|tests| - 1];
      assert tests == init + [last];
      FailingFromReference(root, init, join, pathToString);
      FailingFromAppend(root, init, last, join, pathToString);
      TestFailureCases(root, last, join, pathToString);
      ExtractableSnoc(root, init, last);
      FailedTestsSnoc(init, last);
      if Extractable(root, tests) {
        var F := FailedTests(init);
        if last.outcome == Some("failed") {
          FailedAppend(RootText(root), F, last, join, pathToString);
        } else {
          assert F + [] == F;
        }
      }
    }
  }

  /** The digest as a whole: a missing "tests" key aborts, otherwise it succeeds exactly on extractable reports and yields "\n", the blocks of the failed tests, and their records. */
  lemma FailingDetailsReference<P>(details: Report, join: (string, string) -> P, pathToString: (P, int) -> string)
    ensures details.tests.None? ==> FailingDetails(details, join, pathToString) == Err(KeyError("tests"))
    ensures details.tests.Some? ==>
      (FailingDetails(details, join, pathToString).Ok? <==> Extractable(details.root, details.tests.value))
    ensures details.tests.Some? && Extractable(details.root, details.tests.value) ==>
      var failed := FailedTests(details.tests.value);
      && AllComplete(failed)
      && FailingDetails(details, join, pathToString)
         == Ok(("\n" + FailedText(RootText(details.root), failed, join, pathToString),
                FailedPaths(RootText(details.root), failed, join)))
  {
    if details.tests.Some? {
      FailingFromReference(details.root, details.tests.value, join, pathToString);
    }
  }

  /** One record per failed test, in report order, naming the test by its last "::" part and its file by root joined with its first "::" part. */
  lemma FailingPathsPerFailure<P>(details: Report, join: (string, string) -> P, pathToString: (P, int) -> string)
    requires FailingDetails(details, join, pathToString).Ok?
    ensures details.tests.Some?
    ensures details.root.Some? || FailedTests(details.tests.value) == []
    ensures var failed := FailedTests(details.tests.value);
            var paths := FailingDetails(details, join, pathToString).value.1;
            && |paths| == |failed|
            && forall i :: 0 <= i < |failed| ==>
                 && failed[i].nodeid.Some?
                 && paths[i].testName == TestName(failed[i].nodeid.value)
                 && paths[i].testPath == join(RootText(details.root), Split(failed[i].nodeid.value, "::")[0])
  {
    FailingDetailsReference(details, join, pathToString);
    var failed := FailedTests(details.tests.value);
    if failed != [] {
      assert failed[0] in details.tests.value by { FailedTestsMembers(details.tests.value, failed[0]); }
    }
  }

  /** The digest always starts with "\n", and it is exactly "\n" (with no records) when no test failed. */
  lemma FailingDetailsEmptyIff<P>(details: Report, join: (string, string) -> P, pathToString: (P, int) -> string)
    requires FailingDetails(details, join, pathToString).Ok?
    ensures var (text, paths) := FailingDetails(details, join, pathToString).value;
            && |text| >= 1 && text[0] == '\n'
            && (IsFailingTestDetailsEmpty(text) <==> FailedTests(details.tests.value) == [])
            && (paths == [] <==> FailedTests(details.tests.value) == [])
  {
    FailingDetailsReference(details, join, pathToString);
    var text := FailingDetails(details, join, pathToString).value.0;
    assert text == "\n" + text[1..];
  }

  /** A report whose tests all have outcomes but none failed digests to exactly "\n" and no records. */
  lemma NoFailuresGiveEmptyDigest<P>(details: Report, join: (string, string) -> P, pathToString: (P, int) -> string)
    requires details.tests.Some?
    requires forall i :: 0 <= i < |details.tests.value| ==>
               details.tests.value[i].outcome.Some? && details.tests.value[i].outcome != Some("failed")
    ensures FailingDetails(details, join, pathToString) == Ok(("\n", []))
    ensures IsFailingTestDetailsEmpty(FailingDetails(details, join, pathToString).value.0)
  {
    FailingDetailsReference(details, join, pathToString);
    var failed := FailedTests(details.tests.value);
    if failed != [] {
      FailedTestsMembers(details.tests.value, failed[0]);
    }
    assert Extractable(details.root, details.tests.value);
    assert failed == [];
    assert "\n" + FailedText(RootText(details.root), failed, join, pathToString) == "\n";
  }

  /** The root is read only for failed tests: without any, leaving it out changes nothing. */
  lemma {:induction false} RootOnlyReadForFailures<P>(root: Option<string>, tests: seq<TestEntry>,
                                                      join: (string, string) -> P, pathToString: (P, int) -> string)
    requires FailedTests(tests) == []
    ensures FailingFrom(None, tests, join, pathToString) == FailingFrom(root, tests, join, pathToString)
    decreases |tests|
  {
    if tests != [] {
      RootOnlyReadForFailures(root, tests[..|tests| - 1], join, pathToString);
    }
  }

  // ---------------------------------------------------------------------------
  // extract_test_output, extract_test_output_multiple_labels

  /** The lines that contain `label`, in their original order. */
  function LinesWith(lineLabel: string, lines: seq<string>): seq<string>
    decreases |lines|
  {
    if lines == [] then []
    else
      var last := lines[|lines| - 1];
      LinesWith(lineLabel, lines[..|lines| - 1]) + (if Contains(last, lineLabel) then [last] else [])
  }

  /** Python `any(label in line for label in labels)`. */
  function ContainsAny(line: string, labels: seq<string>): bool
    decreases |labels|
  {
    labels != [] && (Contains(line, labels[0]) || ContainsAny(line, labels[1..]))
  }

  /** The lines that contain at least one of `labels`, in their original order. */
  function LinesWithAny(labels: seq<string>, lines: seq<string>): seq<string>
    decreases |lines|
  {
    if lines == [] then []
    else
      var last := lines[|lines| - 1];
      LinesWithAny(labels, lines[..|lines| - 1]) + (if ContainsAny(last, labels) then [last] else [])
  }

  /** The filtered output: the kept lines of `output`, each followed by "\n". */
  function TestOutput(lineLabel: string, output: string): string {
    Unlines(LinesWith(lineLabel, SplitLines(output)))
  }

  function TestOutputMultipleLabels(labels: seq<string>, output: string): string {
    Unlines(LinesWithAny(labels, SplitLines(output)))
  }

  /** A line is kept exactly when it is one of the input lines and contains the label. */
  lemma {:induction false} LinesWithMembers(lineLabel: string, lines: seq<string>, x: string)
    ensures x in LinesWith(lineLabel, lines) <==> x in lines && Contains(x, lineLabel)
    decreases |lines|
  {
    if lines != [] {
      var init := lines[..|lines| - 1];
      LinesWithMembers(lineLabel, init, x);
      assert lines == init + [lines[|lines| - 1]];
    }
  }

  /** Lines that all contain the label pass the filter unchanged. */
  lemma {:induction false} LinesWithAllKept(lineLabel: string, lines: seq<string>)
    requires forall i :: 0 <= i < |lines| ==> Contains(lines[i], lineLabel)
    ensures LinesWith(lineLabel, lines) == lines
    decreases |lines|
  {
    if lines != [] {
      var init := lines[..|lines| - 1];
      LinesWithAllKept(lineLabel, init);
      assert lines == init + [lines[|lines| - 1]];
    }
  }

  lemma {:induction false} LinesWithKeepsLabel(lineLabel: string, lines: seq<string>)
    ensures forall i :: 0 <= i < |LinesWith(lineLabel, lines)| ==> Contains(LinesWith(lineLabel, lines)[i], lineLabel)
    ensures AllNoLineBoundary(lines) ==> AllNoLineBoundary(LinesWith(lineLabel, lines))
    decreases |lines|
  {
    if lines != [] {
      var init := lines[..|lines| - 1];
      LinesWithKeepsLabel(lineLabel, init);
      assert forall i :: 0 <= i < |init| ==> init[i] == lines[i];
    }
  }

  /** Filtering by a label a second time changes nothing. */
  lemma TestOutputIdempotent(lineLabel: string, output: string)
    ensures TestOutput(lineLabel, TestOutput(lineLabel, output)) == TestOutput(lineLabel, output)
  {
    var kept := LinesWith(lineLabel, SplitLines(output));
    LinesWithKeepsLabel(lineLabel, SplitLines(output));
    SplitLinesUnlines(kept);
    LinesWithAllKept(lineLabel, kept);
  }

  /** `ContainsAny` holds exactly when some label occurs in the line. */
  lemma {:induction false} ContainsAnyIff(line: string, labels: seq<string>)
    ensures ContainsAny(line, labels) <==> exists i :: 0 <= i < |labels| && Contains(line, labels[i])
    decreases |labels|
  {
    if labels != [] {
      ContainsAnyIff(line, labels[1..]);
      if exists i :: 0 <= i < |labels| && Contains(line, labels[i]) {
        var i :| 0 <= i < |labels| && Contains(line, labels[i]);
        if i > 0 { assert labels[1..][i - 1] == labels[i]; }
      }
    }
  }

  /** With one label the multi-label filter is the single-label filter. */
  lemma {:induction false} LinesWithAnySingle(lineLabel: string, lines: seq<string>)
    ensures LinesWithAny([lineLabel], lines) == LinesWith(lineLabel, lines)
    decreases |lines|
  {
    if lines != [] {
      LinesWithAnySingle(lineLabel, lines[..|lines| - 1]);
      assert ContainsAny(lines[|lines| - 1], [lineLabel]) == Contains(lines[|lines| - 1], lineLabel) by {
        assert [lineLabel][1..] == [];
      }
    }
  }

  lemma {:induction false} LinesWithAnyNone(lines: seq<string>)
    ensures LinesWithAny([], lines) == []
    decreases |lines|
  {
    if lines != [] {
      LinesWithAnyNone(lines[..|lines| - 1]);
    }
  }

  /** A line is kept by the multi-label filter exactly when some label occurs in it. */
  lemma {:induction false} LinesWithAnyMembers(labels: seq<string>, lines: seq<string>, x: string)
    ensures x in LinesWithAny(labels, lines) <==> x in lines && exists i :: 0 <= i < |labels| && Contains(x, labels[i])
    decreases |lines|
  {
    ContainsAnyIff(x, labels);
    if lines != [] {
      var init := lines[..|lines| - 1];
      LinesWithAnyMembers(labels, init, x);
      assert lines == init + [lines[|lines| - 1]];
    }
  }

  /** One label: the same text as `extract_test_output`; no labels: the empty text. */
  lemma TestOutputMultipleLabelsCases(lineLabel: string, output: string)
    ensures TestOutputMultipleLabels([lineLabel], output) == TestOutput(lineLabel, output)
    ensures TestOutputMultipleLabels([], output) == ""
  {
    LinesWithAnySingle(lineLabel, SplitLines(output));
    LinesWithAnyNone(SplitLines(output));
  }

  method ExtractTestOutput(keepLineLabel: string, output: string) returns (filtered: string)
    ensures filtered == TestOutput(keepLineLabel, output)
  {
    filtered := "";
    var lines := SplitLines(output);
    for i := 0 to |lines|
      invariant filtered == Unlines(LinesWith(keepLineLabel, lines[..i]))
    {
      var line := lines[i];
      assert lines[..i + 1][..i] == lines[..i];
      assert lines[..i + 1][i] == line;
      if Contains(line, keepLineLabel) {
        assert LinesWith(keepLineLabel, lines[..i + 1]) == LinesWith(keepLineLabel, lines[..i]) + [line];
        UnlinesAppend(LinesWith(keepLineLabel, lines[..i]), line);
        filtered := filtered + line + "\n";
      } else {
        assert LinesWith(keepLineLabel, lines[..i + 1]) == LinesWith(keepLineLabel, lines[..i]);
      }
    }
    assert lines[..|lines|] == lines;
  }

  method ExtractTestOutputMultipleLabels(keepLineLabels: seq<string>, output: string) returns (filtered: string)
    ensures filtered == TestOutputMultipleLabels(keepLineLabels, output)
  {
    filtered := "";
    var lines := SplitLines(output);
    for i := 0 to |lines|
      invariant filtered == Unlines(LinesWithAny(keepLineLabels, lines[..i]))
    {
      var line := lines[i];
      assert lines[..i + 1][..i] == lines[..i];
      assert lines[..i + 1][i] == line;
      if ContainsAny(line, keepLineLabels) {
        assert LinesWithAny(keepLineLabels, lines[..i + 1]) == LinesWithAny(keepLineLabels, lines[..i]) + [line];
        UnlinesAppend(LinesWithAny(keepLineLabels, lines[..i]), line);
        filtered := filtered + line + "\n";
      } else {
        assert LinesWithAny(keepLineLabels, lines[..i + 1]) == LinesWithAny(keepLineLabels, lines[..i]);
      }
    }
    assert lines[..|lines|] == lines;
  }
}
