# aofgrep in Dafny

aofgrep is a grep for Redis append-only files (AOF). It reads the operations of an AOF stream
one at a time. It keeps those that a filter of up to four regular expressions accepts: one for
the command, one for the sub-operation, one for the key and one for any argument. With `-v` it
keeps those the filter rejects. It writes the kept operations to standard output, in AOF form
and in input order.

This project models three parts of it:

- the filter decision `Match` of `filter/filter.go`;
- the older `Match` of `src/filter.go`;
- the driver in `aofgrep.go`: `processInput`, which reads, counts and writes one stream, and
  `main`, which builds the filter and runs `processInput` over every file argument, or over
  standard input.

## Modules

- `Wrappers`: `Option` and `Result` (with `:-` propagation).
- `Aof`: an operation (command, sub-operation, key, arguments) and what one read of the AOF
  reader gives back: an operation, end of stream, or a parse error with its cause.
- `Strings`: ASCII upper-casing (`strings.ToUpper`) and the decimal rendering of `%d`.
- `Regexp`: a compiled pattern as its source plus a "finds a match somewhere in s" predicate.
  `Literal` is a concrete pattern (substring search) used by the examples.
- `Filter`: the current `Match`. It is specified by `Accepts`, the conjunction of the four
  field tests with command and sub-operation upper-cased, and `inverse` negates it.
- `LegacyFilter`: the older `Match`. It does not fold case, and its `inverse` flag is broken
  (see Findings).
- `Driver`: `processInput` as a method with a loop, proved equal to the recursive function
  `Run`. `Explains` describes every way a run can end without the loop; it holds of `Run`
  and admits exactly one outcome.
- `AofGrep`: `main`. It covers building the filter (exit 1 on a pattern that does not compile),
  the loop over the files (exit 1 on a file that cannot be opened) and the standard-input case.

## How effects are represented

- The reader is the sequence of its read results. A read past the end reports end of stream.
- Standard output is the sequence of operations written so far; each stands for its AOF
  serialisation. It is shared by all the files of a run.
- Write failures are a map from the 1-based number of a record write to the error's text. A
  failed write adds nothing to stdout.
- `os.Exit(n)` with a message on stderr becomes the status `Exited(n, message)`. The outcome
  also carries the counters and the stdout at that point.
- `regexp.Compile` and `os.Open` are function parameters.
- The counters an `Exited` outcome carries are never observable, because `os.Exit` ends the
  process before any caller reads them. An exit inside `processInput` carries `processInput`'s
  own counters when it ran over standard input (`Driver.Run`). Inside the file loop it carries
  `main`'s totals from before that file (`AofGrep.Files`), and an open failure carries the
  totals so far. Either way, stdout holds everything written before the exit.
- `Options.debug` stands for the `-d` flag. It is carried only for completeness: the debug
  lines it enables are not modelled.

## Behaviour of the code that the model keeps

- `processed` is incremented before every read, including the read that reports end of
  stream. A stream of n operations therefore ends with `processed == n + 1`
  (`Driver.RunCompletes`, `Driver.SingleMatchExample`). The tests in `aofgrep_test.go` expect n.
  They also call a four-argument `processInput` that returns an error instead of exiting; that
  variant is not the one in `aofgrep.go`. The model follows `aofgrep.go`.
- The parse-error message names `processed`, the 1-based number of the failing read, so a
  failure on the first read says `command 1` (`Driver.ParseErrorExample`). The test expects
  `command 0`.
- A kept record is counted as matched even when its write fails
  (`Driver.StoppedAtWriteError`).
- When `processInput` exits on a file, `main` never adds that file's counters to its totals.

## Model

| member | source | states |
|---|---|---|
| Strings.ToUpper | filter/filter.go:22-25 | the ASCII stand-in for `strings.ToUpper`: the result has the length of its input and holds no lower-case ASCII letter |
| Strings.ToUpperIdempotent | filter/filter.go:22-25 | upper-casing an already upper-cased command or sub-operation changes nothing |
| Strings.DecimalRoundTrip | aofgrep.go:24 | the `%d` rendering of a count reads back as that count |
| Strings.DecimalInjective | aofgrep.go:24 | distinct counts render as distinct digit strings |
| Regexp.AnyFinds | filter/filter.go:34-40 | the in-order scan over the arguments succeeds exactly when some argument contains a match of the pattern |
| Filter.Match | filter/filter.go:17-42 | the decision is `Accepts(op, f)`, negated when `inverse` is set: each present pattern must find a match in its field, command and sub-operation upper-cased, and a present argument pattern in some argument |
| Filter.InverseIsNegation | filter/filter.go:18-41 | for every operation and filter, the inverted decision is the negation of the plain one |
| Filter.UnconstrainedMatchesAll | filter/filter.go:18-33 | the empty filter accepts every operation, and rejects every one when inverted |
| Filter.ParameterNeedsAnArgument | filter/filter.go:34-41 | with an argument pattern, an operation without arguments is rejected, and kept when inverted |
| Filter.ArgumentOrderIrrelevant | filter/filter.go:34-40 | the decision depends on the arguments only as a multiset: reordering them does not change it |
| Filter.CommandMismatchDecides | filter/filter.go:22-23 | a command pattern that finds no match decides the result whatever the other fields hold |
| Filter.CommandAndSubOpCaseInsensitive | filter/filter.go:22-28 | the decision is the same for an operation and for its copy with command and sub-operation upper-cased |
| Filter.CommandMatchExample | filter/filter_test.go:9-22 | `SELECT` matches the command pattern `SELECT`, and the inverted filter rejects it |
| Filter.LowerCaseCommandExample | filter/filter.go:22 | `select`, `Select` and `SeLeCt` all match the command pattern `SELECT` |
| Filter.KeyCaseSensitiveExample | filter/filter.go:28 | the key is not upper-cased: key `k1` fails the pattern `K1` |
| Filter.ArgumentsExample | filter/filter.go:34-40 | arguments `p1`, `p2` match the pattern `p2` and fail the pattern `p3` |
| LegacyFilter.Match | src/filter.go:15-39 | with `inverse` the result is always false; without it, the result is the four field tests on the fields as they are, with no case folding |
| LegacyFilter.InverseNeverMatches | src/filter.go:16-38 | no operation and no filter give true when `inverse` is set |
| LegacyFilter.UnconstrainedMatches | src/filter.go:35-38 | the empty filter accepts every operation when not inverted |
| LegacyFilter.ParameterNeedsAnArgument | src/filter.go:25-33 | with an argument pattern, an operation without arguments is rejected, inverted or not |
| LegacyFilter.AgreesOnUpperCaseFields | src/filter.go:16-38 | on operations whose command and sub-operation are upper case, the plain decision equals the current `Filter.Match` |
| LegacyFilter.AgreesWhenInverted | src/filter.go:16-38 | inverted, the two versions give the same answer exactly on the operations the current filter accepts |
| LegacyFilter.NoCaseFoldingExample | src/filter.go:16 | `select` fails the command pattern `SELECT` here but passes it in `Filter.Match` |
| LegacyFilter.InverseCounterexample | src/filter.go:16-38 | for `SELECT` against the pattern `SADD`, both plain and inverted decisions are false, while `Filter.Match` keeps it when inverted |
| Driver.ReadOps | aofgrep.go:19-23 | the operations read before the stream ends or fails to parse: each is the read at its position, and the read after them is not an operation |
| Driver.Drive | aofgrep.go:17-37 | the loop from a given read on: `processed` ends past the reads done so far, stdout only grows, an exit has code 2 or 3, and `matched` grows by the records written plus one exactly on exit 3 |
| Driver.Run | aofgrep.go:14-38 | a whole call: `processed` is at least 1, stdout only grows, an exit has code 2 or 3, and `matched` is the number of records written, plus one exactly on exit 3 |
| Driver.ProcessInput | aofgrep.go:14-38 | the loop's counters, stdout and exit status are those of `Run` with the `Match` decision |
| Driver.RunExplained | aofgrep.go:14-38 | every run writes exactly the kept operations read so far, all of those writes succeed, and it ends at end of stream, at a parse error (exit 2) or at a failed write (exit 3), with the counters each case implies |
| Driver.ExplainsDetermines | aofgrep.go:14-38 | at most one outcome meets that description, so it specifies `processInput` completely |
| Driver.RunCompletes | aofgrep.go:17-36 | a run returns normally iff the stream ends without a parse error and every kept write succeeds; it then wrote all kept operations, matched their number and processed one more than was read |
| Driver.RunParseError | aofgrep.go:18-26 | a parse error after n operations, with the writes succeeding, exits 2 naming read n + 1 and its cause, after writing the kept operations |
| Driver.RunWriteError | aofgrep.go:28-35 | if some kept write fails, the run exits 3 at the first failing write, having written the kept operations before it |
| Driver.RunCounters | aofgrep.go:15-30 | `matched <= processed`, stdout keeps what it held before, and `matched` is one more than the records written exactly when the run exited with code 3 |
| Driver.FailedWriteWithinKept | aofgrep.go:28-35 | a failed write happens at one of the kept operations of the stream |
| Driver.ReadErrorMessageNamesRecord | aofgrep.go:24 | the parse-error message determines the read number and the cause |
| Driver.WriteErrorMessageNamesRecord | aofgrep.go:32 | the write-error message determines the record number and the cause |
| Driver.KeptMembers | aofgrep.go:28-30 | an operation is in `Kept` iff it was read and the filter keeps it |
| Driver.SingleMatchExample | aofgrep.go:14-38 | one `SELECT 0` record with the command pattern `SELECT`: one match, the record on stdout, `processed` 2 |
| Driver.NoMatchExample | aofgrep_test.go:62-85 | the same record with the pattern `SADD`: no match and nothing written |
| Driver.ParseErrorExample | aofgrep.go:18-26 | a first read that fails to parse exits 2 with `Error processing command 1 Error:` and the cause |
| Driver.WriteErrorExample | aofgrep_test.go:105-121 | a writer failing its first write exits 3 with `Error writing command 1 Error:Some error` |
| AofGrep.CompileOption | aofgrep.go:55-62 | one option gives a field iff it is empty or compiles: absent when empty, its compiled pattern otherwise; else exit 1 with the message naming the option and its source |
| AofGrep.BuildFilter | aofgrep.go:54-87 | a filter iff every non-empty pattern compiles, each field absent when its option is empty and compiled from it otherwise; otherwise exit 1 with the message for the first option, in the order command, subop, key, parameter, that does not compile |
| AofGrep.Files | aofgrep.go:89-105 | the loop over the file arguments: over at least one file, an exit has code 1, 2 or 3 |
| AofGrep.ProcessFiles | aofgrep.go:89-105 | the loop over the file arguments computes `Files`: each file in turn, counters summed, stopping at the first failure |
| AofGrep.FilesAppend | aofgrep.go:90-105 | processing `a + b` is processing `a` and then, if that completed, `b` from where `a` left off |
| AofGrep.FilesCompleted | aofgrep.go:90-105 | a run over the files that completes wrote the kept operations of every file in argument order; its totals are the per-file sums |
| AofGrep.FilesCompletedOpenedAll | aofgrep.go:95-100 | a run over the files that completes opened every file |
| AofGrep.FilesStopAtOpenFailure | aofgrep.go:95-100 | a file that cannot be opened stops the run with exit 1 and the open-error message, after the earlier files' output |
| AofGrep.FilesStopAtExit | aofgrep.go:102-104 | when `processInput` exits on a file, the run ends with its status and output, and the earlier totals are unchanged |
| AofGrep.Grep | aofgrep.go:40-114 | `main` is a pattern failure, or a single run over standard input when there are no file arguments, or the run over the files |

## Left out

- Regular expressions: the engine is not modelled. A compiled pattern is any "finds a match in
  s" predicate, and only substring patterns are built concretely.
- `Strings.ToUpper`: Unicode case mapping is not modelled. Only ASCII `a`-`z` are upper-cased.
  Other characters are left alone, and that is also what Go does for ASCII text.
- The AOF codec: `aof.ReadOperation` and `Operation.ToAof` belong to the `aof` package. A read
  result is given directly, and a written operation stands for its serialisation.
- Partial writes: a write either succeeds in full or fails.
- Flag parsing, `os.Open`, the deferred `Close` calls and the buffering of `bufio.Reader`:
  options arrive parsed, and opening a file is a function parameter.
- Standard error: the debug lines of `-d` (`Parsing file ...` and the final counts) are not
  modelled. Nothing else depends on them. The error messages are kept as the `Exited` message.
- The two debug `fmt.Printf` lines in the argument loop of `filter/filter.go`: they write to
  stdout for each argument tested. The model's stdout holds only the written records.
- `os.Exit` is a returned status. Deferred calls and process teardown are not modelled.
- The four-argument `processInput` that returns an error, called by `aofgrep_test.go`: it is
  not part of `aofgrep.go`, so it is not part of this model. Its tests are modelled only where
  they agree with `aofgrep.go`.
- Integer widths: the Go `int` counters are unbounded here, so overflow is not modelled.

## Findings

| source | as written | input that shows it | evidently intended | confidence | as-written member | corrected member |
|---|---|---|---|---|---|---|
| src/filter.go:16-38 | with `inverse` set, every branch returns false: field mismatches are skipped, a matching argument falls through to `return false`, and the end returns false | operation `SELECT 0`, command pattern `SADD`, `inverse` = true: returns false | true, the negation of the plain decision (false) | not executed | LegacyFilter.InverseCounterexample | Filter.Match |
