# execexam report extraction and display choices, in Dafny

execexam runs a student project's pytest suite and turns pytest's JSON report into text for the console. This project models two parts of it and proves properties of them:

- the extraction layer (`execexam/extract.py`). It produces the summary line of a test run, the per-test assertion listing, the digest of failing tests with one path record per failure, and the label filters over captured test output;
- the message builders of the display layer (`execexam/display.py`): the colon-separated listing of a dictionary, the return-code line and the advice banner. It also models the rule `display_content` uses to decide whether a block is shown and which of its four renderings is used.

Modules:

- `Text` (`text.dfy`) models the Python `str` operations the code relies on: `sub in s`, `s.split(sep)`, `s.rsplit("/", 1)[-1]`, `s.splitlines()` with all of Python's line boundaries, `sep.join(parts)` and `"".join(parts)`. Each comes with properties about it. `split` cuts at the leftmost occurrence (`FirstCut`, Python's `find`), and its pieces join back to the string. `splitlines` takes the longest prefix without a line boundary as its first line, with worked cases for "\r\n", empty lines and a final boundary. `join` and `"".join` are described by what one more part appends.
- `ReportModel` (`report.dfy`) holds the parsed report.
  - A Python dictionary of formatted values is a sequence of (key, value) pairs with distinct keys, kept in insertion order.
  - The nested report records (`tests`, `call`, `crash`) are datatypes whose fields are `None` when the key is absent.
  - Reading an absent key yields `Err(KeyError(key))`, checked in the order the Python code reads the keys.
- `Extract` (`extract.dfy`) covers `extract.py` lines 15-186.
  - Each accumulating loop of the source is a method with a loop, proved equal to a specification function.
  - The lemmas are about those functions. They cover insertion order, read-back of the generated lines, which report inputs abort with which `KeyError`, and a reference "select the failed tests, then format each one" description of the failing digest.
- `Display` (`display.dfy`) has three parts:
  - the colon-separated listing is a function, as the source's comprehension is;
  - the return-code line and the advice banner are methods that build `message` step by step;
  - `display_content` is a function that returns the chosen rendering.

## Model

| member | source | states |
|---|---|---|
| Extract.IsFailingTestDetailsEmpty | execexam/extract.py:15-19 | A digest counts as empty exactly when it is the single character "\n". |
| Extract.Details | execexam/extract.py:22-30 | The summary line is empty exactly when the dictionary is empty; otherwise it starts with "Details: ". |
| Extract.DetailsAppend | execexam/extract.py:26-30 | Entries appear in insertion order: adding an entry at the end extends the line by ", <value> <key>" (the first entry gives "Details: <value> <key>"). |
| Extract.ExtractDetails | execexam/extract.py:22-30 | The loop over the dictionary's items computes the summary line `Details`. |
| Extract.ExtractTestRunDetails | execexam/extract.py:33-40 | A report without "summary" raises KeyError("summary"); otherwise the result is the summary line of its summary dictionary. |
| Extract.AssertionDetails | execexam/extract.py:43-64 | The assertion block is empty exactly when the dictionary is empty. |
| Extract.AssertionDetailsShape | execexam/extract.py:52-62 | A one-entry block is "  - <key>: <value>\n"; each further entry adds "    <key>: <value>\n" at the end. |
| Extract.AssertionDetailsReadBack | execexam/extract.py:43-64 | Read back with splitlines, the block gives exactly one line per entry, in order, the first marked "  - " and the rest indented, when no key or value holds a line boundary. |
| Extract.ExtractTestAssertionDetails | execexam/extract.py:43-64 | The loop with its `first` flag, including the reset of the output list to ["  - "], computes the assertion block. |
| Extract.AssertionDetailsListConcat | execexam/extract.py:67-74 | The text of a list of assertion dictionaries is the in-order concatenation of the texts of its parts. |
| Extract.AssertionDetailsListSingle | execexam/extract.py:67-74 | A list of one assertion dictionary contributes exactly that dictionary's block. |
| Extract.ExtractTestAssertionDetailsList | execexam/extract.py:67-74 | The loop over the list computes the concatenated blocks. |
| Extract.AssertionsReportOkIff | execexam/extract.py:86-98 | Building the assertion report succeeds exactly when every test has a nodeid; any failure is KeyError("nodeid"). |
| Extract.AssertionsReportConcat | execexam/extract.py:86-100 | Sections are laid out in report order: the report of a concatenation of test lists is the concatenation of their reports. |
| Extract.AssertionsReportSingle | execexam/extract.py:86-100 | The report of a single test is its own section: its heading and assertion blocks, or KeyError("nodeid") when it has no nodeid. |
| Extract.AssertionsReportErrPersists | execexam/extract.py:86-88 | The first test without a nodeid aborts the whole report: later tests do not change the result. |
| Extract.ExtractTestAssertionsDetails | execexam/extract.py:77-100 | The loop computes the sections. Each is "\n" + the nodeid after its last "/" + "\n", then the assertion blocks when the "assertions" key is present. A missing nodeid gives KeyError("nodeid"). |
| Text.AfterLastSpec | execexam/extract.py:91 | `rsplit("/", 1)[-1]` gives a suffix of the nodeid that holds no "/"; it is the whole nodeid or is preceded by "/", and it is the whole nodeid when that holds no "/". |
| Text.LastIndexOfSpec | execexam/extract.py:91 | The cut index is that of a "/" with no "/" after it, or -1 when there is none. |
| Extract.NodeidParts | execexam/extract.py:134-140 | The nodeid's "::" parts join back to the nodeid. The file part (first) and the name part (last) hold no "::", and a nodeid without "::" is both. |
| Text.FirstCutSpec | execexam/extract.py:134 | The cut `split` makes is at the leftmost occurrence of the separator: it occurs there, it occurs at no earlier index, and the cut is the string's length exactly when it occurs nowhere. |
| Text.SplitCut | execexam/extract.py:134 | When the separator occurs, the string is the piece before its leftmost occurrence, the separator, and the rest; the pieces are that first piece followed by the pieces of the rest. |
| Text.SplitExample | execexam/extract.py:134 | `"a:::b".split("::")` is ["a", ":b"], as in Python. |
| Text.SplitJoin | execexam/extract.py:134 | `s.split(sep)` joined back with `sep` gives `s`. |
| Text.SplitPartsFree | execexam/extract.py:134 | No piece of `s.split(sep)` contains `sep`. |
| Text.SplitSingleIff | execexam/extract.py:134 | `s.split(sep)` has one piece exactly when `s` does not contain `sep`, and that piece is `s`. |
| Extract.TestFailureKeyErrors | execexam/extract.py:117-151 | Names the key reported missing: a test without an outcome raises KeyError("outcome"). For a failed test it is the first absent key in read order: nodeid, call, crash, the report's root, lineno, message. |
| Extract.FirstKeyErrorDecides | execexam/extract.py:116-151 | When every earlier test is handled and a test's step raises a KeyError, that KeyError is the result of the whole digest. |
| Extract.FailureBlockLines | execexam/extract.py:124-155 | One failing test adds four newline-terminated lines, in order: Name, Path, Line number, Message. |
| Extract.FailureBlockReadBack | execexam/extract.py:124-155 | Read back with splitlines, a failure block gives its four lines when no field holds a line boundary. |
| Extract.ExtractFailingTestDetails | execexam/extract.py:103-157 | The loop follows the source's statement order and early KeyError exits, and computes `FailingDetails`: the "\n"-prefixed digest and the path records, or the first KeyError. |
| Extract.FailingFromErrPersists | execexam/extract.py:116-151 | The first test that raises a KeyError decides the result: later tests do not change it. |
| Extract.FailedTests | execexam/extract.py:116-117 | The selected tests all have outcome "failed", and there are no more of them than tests. |
| Extract.FailedTestsMembers | execexam/extract.py:116-117 | A test is selected exactly when it is in the report and its outcome is exactly "failed". |
| Extract.TestFailureCases | execexam/extract.py:117-155 | One test's step succeeds exactly when its outcome is present and, if it failed, the root and every key read for it are present. A failed test yields its block and record; any other outcome yields nothing. |
| Extract.FailingFromReference | execexam/extract.py:116-157 | The loop's result succeeds exactly when the report is extractable. If so, it equals the reference: the blocks of the failed tests in order and one record per failed test. |
| Extract.FailingDetailsReference | execexam/extract.py:103-157 | A missing "tests" key raises KeyError("tests"). Otherwise the digest succeeds exactly on extractable reports and is "\n" followed by the reference blocks, together with the reference records. |
| Extract.FailedText | execexam/extract.py:153-155 | The reference digest text is empty exactly when no test failed. |
| Extract.FailedPaths | execexam/extract.py:142-144 | The reference holds one path record per failed test. |
| Extract.FailingPathsPerFailure | execexam/extract.py:134-144 | The records are one per failed test, in report order. Each test_name is the last "::" part of the nodeid; each test_path is the root joined with the nodeid before its leftmost "::". Whenever a test failed, the report has a root. |
| Extract.FailingDetailsEmptyIff | execexam/extract.py:15-19 | The digest always starts with "\n". `is_failing_test_details_empty` holds of it, and the record list is empty, exactly when no test failed. |
| Extract.NoFailuresGiveEmptyDigest | execexam/extract.py:112-117 | When every test has an outcome and none failed, the result is ("\n", []) and is recognised as empty. |
| Extract.RootOnlyReadForFailures | execexam/extract.py:117-131 | The report's root is read only for failed tests: without failures, an absent root changes nothing. |
| Text.ContainsIff | execexam/extract.py:167 | `label in line` holds exactly when the label occurs at some index of the line. |
| Text.SplitLinesUnlines | execexam/extract.py:165-168 | Splitting into lines text built from newline-terminated lines without line boundaries gives back those lines. |
| Text.SplitLinesFirst | execexam/extract.py:165 | `splitlines` gives no lines exactly for the empty string. Its first line is the longest prefix without a line boundary; it is the only line when it is all of the string, and otherwise the rest are the lines after its boundary, "\r\n" counting as one. |
| Text.SplitLinesCrLf | execexam/extract.py:165 | `"a\r\nb".splitlines()` is ["a", "b"]. |
| Text.SplitLinesEmptyLine | execexam/extract.py:165 | `"x\n\ny".splitlines()` is ["x", "", "y"]. |
| Text.SplitLinesTrailing | execexam/extract.py:165 | `"a\r\r\n".splitlines()` is ["a", ""]: a lone "\r" is a boundary and the final "\r\n" opens no line. |
| Text.SplitLines | execexam/extract.py:165 | The lines `splitlines` yields hold no line boundary. |
| Text.JoinAppend | execexam/extract.py:30 | `sep.join` of a non-empty list with one more part is the old text, the separator and the part. |
| Text.ConcatAppend | execexam/extract.py:64 | `"".join` of a list with one more part is the old text followed by the part. |
| Extract.LinesWithMembers | execexam/extract.py:165-168 | A line is kept exactly when it is an input line containing the label. |
| Extract.LinesWithAllKept | execexam/extract.py:165-168 | Lines that all contain the label are kept unchanged, in order. |
| Extract.LinesWithKeepsLabel | execexam/extract.py:165-168 | Every kept line contains the label, and kept lines hold no line boundary when the input lines hold none. |
| Extract.TestOutputIdempotent | execexam/extract.py:160-170 | Filtering the filtered output by the same label changes nothing. |
| Extract.ExtractTestOutput | execexam/extract.py:160-170 | The loop computes the kept lines of `output.splitlines()`, each followed by "\n". |
| Extract.ContainsAnyIff | execexam/extract.py:183 | `any(label in line for label in labels)` holds exactly when some label occurs in the line. |
| Extract.LinesWithAnyMembers | execexam/extract.py:180-184 | A line is kept by the many-label filter exactly when it is an input line in which some label occurs. |
| Extract.LinesWithAnySingle | execexam/extract.py:180-184 | With one label, the many-label filter keeps the same lines as the one-label filter. |
| Extract.LinesWithAnyNone | execexam/extract.py:183 | With no labels, no line is kept. |
| Extract.TestOutputMultipleLabelsCases | execexam/extract.py:173-186 | With one label the result equals `extract_test_output`'s; with no labels it is "". |
| Extract.ExtractTestOutputMultipleLabels | execexam/extract.py:173-186 | The loop computes the lines of `output.splitlines()` that contain any label, each followed by "\n". |
| Display.ColonSeparated | execexam/display.py:13-17 | The listing always starts with "\n". |
| Display.ColonSeparatedEmptyIff | execexam/display.py:13-17 | The listing is exactly "\n" when the dictionary is empty, and only then. |
| Display.ColonSeparatedAppend | execexam/display.py:15-16 | Entries appear in insertion order: adding an entry at the end adds "- <key>: <value>\n" at the end. |
| Display.ColonSeparatedLines | execexam/display.py:13-17 | Read back with splitlines, the listing is an empty line and then one "- <key>: <value>" line per entry, in order, when no key or value holds a line boundary. |
| Display.GetDisplayReturnCode | execexam/display.py:20-31 | The message starts with "\n". It carries "All checks passed." exactly when the return code is 0, and "One or more checks failed." exactly when it is not. It ends with "\n" exactly when fancy output is on. |
| Display.DisplayAdvice | execexam/display.py:148-163 | The banner starts and ends with "\n". It carries "none is needed" exactly when the return code is 0, and "will be provided" exactly when it is not. |
| Display.DisplayContent | execexam/display.py:179-233 | Nothing is shown exactly when no report types were given, or when they contain neither this type nor `all`. Otherwise exactly one of four renderings is chosen by `richtext` and `syntax`, and a leading blank line comes exactly when both `richtext` and `newline` are set. Syntax-highlighted code is "\n" + content, and the plain rendering is "<label>\n<content>". |
| Display.NewlineIgnoredInPlainMode | execexam/display.py:185-190 | Without rich text, the `newline` flag changes nothing. |
| Display.AllAlwaysShown | execexam/display.py:179-182 | When `all` is among the requested report types, every block is shown. |
| Display.MoreTypesShowMore | execexam/display.py:179-182 | Requesting more report types never hides a shown block and does not change its rendering. |

## Left out

- `extract_imports_from_test`, `resolve_import_path`, `find_source_file`, `get_source_file_from_test` and `extract_tested_function` (execexam/extract.py:188-297). They depend on Python's `ast` parser, the file system, `sys.path` and `importlib`, none of which is modelled.
- `display_tldr` (execexam/display.py:34-91). It prints through the console and uses `difflib` fuzzy matching.
- execexam/advise.py and scripts/reset.py: they call language-model services, the network and the file system.
- The `rich` console, panels and syntax highlighting. `Display.DisplayContent` returns the rendering it would print rather than printing it.
- `pathlib.Path` joining (`Path(root) / part`) and `convert.path_to_string(path, 4)` are function parameters (`join`, `pathToString`) with the path type left abstract; `convert.py` is not part of this model. The depth argument 4 is the constant `Extract.PathDepth`.
- `enumerations.ReportType` is a type parameter, and `ReportType.all` is passed in as `allType`; `enumerations.py` is not part of this model.
- Dictionary values and counters are taken already formatted with `str()`. Python's formatting of numbers, paths and other objects is not modelled.
- Only `KeyError` is modelled as a failure. A report whose values have the wrong types (a value in "tests" that is not a dictionary, a nodeid that is not a string) would raise other exceptions in Python; the datatypes rule such reports out.
- `Extract.Heading` models `rsplit("/", 1)[-1]` for the one-character separator "/" that the source uses, not for separators in general.
- Strings are sequences of Unicode scalar values, with no normalisation; line boundaries are those Python's `str.splitlines` recognises.
