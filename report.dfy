/**
 * The test runner's JSON report (pytest's JSON report plugin) as the
 * extraction layer reads it, already parsed into dictionaries and lists.
 */
module ReportModel {

  datatype Option<T> = None | Some(value: T)

  /** The exception a missing dictionary key raises; it names the key. */
  datatype KeyError = KeyError(key: string)

  /** A result that is either a value or the `KeyError` that aborted the computation. */
  datatype Result<T> = Ok(value: T) | Err(error: KeyError)

  /** One dictionary entry: its key and its value, both already formatted as text. */
  type Pair = (string, string)

  predicate DistinctKeys(d: seq<Pair>) {
    forall i, j :: 0 <= i < j < |d| ==> d[i].0 != d[j].0
  }

  /** A Python `dict` of formatted values: distinct keys, in insertion order. */
  type Dict = d: seq<Pair> | DistinctKeys(d)

  /** The `crash` record of a test's `call`: line number and message, both already formatted; `None` marks an absent key. */
  datatype Crash = Crash(lineno: Option<string>, message: Option<string>)

  /** The `call` record of a test; `None` marks an absent `crash` key. */
  datatype Call = Call(crash: Option<Crash>)

  /** One dictionary of the report's `tests` list; each field is `None` when its key is absent. */
  datatype TestEntry = TestEntry(
    nodeid: Option<string>,
    outcome: Option<string>,
    call: Option<Call>,
    assertions: Option<seq<Dict>>)

  /** The whole report: its `root`, `summary` and `tests` keys, each `None` when absent. */
  datatype Report = Report(root: Option<string>, summary: Option<Dict>, tests: Option<seq<TestEntry>>)
}
