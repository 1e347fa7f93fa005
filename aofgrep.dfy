/**
 * `main` (aofgrep.go): build the filter from the four pattern options, then run `processInput`
 * over every file argument in order, on one shared stdout, adding up the counters; with no file
 * argument, run it once over standard input. Flag parsing, `os.Open`, the debug lines on stderr
 * and `os.Exit` are outside the model: options arrive parsed, opening a file is a function
 * parameter, and exits are `Status` values.
 */
module AofGrep {
  import opened Wrappers
  import opened Regexp
  import opened Aof
  import opened Filter
  import opened Driver

  /** The parsed command line: `-command`, `-subop`, `-key`, `-param` (empty when not given), `-d`, `-v`. */
  datatype Options = Options(command: string, subop: string, key: string, param: string, debug: bool, invert: bool)

  /** What `regexp.Compile` returns for a pattern source. */
  datatype Compiled = Compiled(re: Regexp) | CompileError(cause: string)

  /** What `os.Open` returns for a file name: the records its reader will deliver, or the failure. */
  datatype Opened = Opened(input: seq<ReadResult>) | OpenFailed(cause: string)

  function CompileErrorMessage(name: string, source: string, cause: string): string {
    "Can't compile " + name + " regexp:" + source + " Error:" + cause + "\n"
  }

  function OpenErrorMessage(file: string, cause: string): string {
    "Can't open file:" + file + " Error:" + cause + "\n"
  }

  /** A pattern option is usable: empty, or a source that compiles. */
  predicate Compiles(source: string, compile: string -> Compiled) {
    source == "" || compile(source).Compiled?
  }

  /** The field a pattern option turns into: absent exactly when the option is empty, else its compiled pattern. */
  ghost predicate FieldFrom(field: Option<Regexp>, source: string, compile: string -> Compiled) {
    if source == "" then field.None? else field.Some? && compile(source) == Compiled(field.value)
  }

  /**
   * One pattern option: left absent when empty, compiled otherwise; a compile failure exits with
   * code 1 and a message naming the option and its source.
   */
  function CompileOption(name: string, source: string, compile: string -> Compiled): (r: Result<Option<Regexp>, Status>)
    ensures r.Success? <==> Compiles(source, compile)
    ensures r.Success? ==> FieldFrom(r.value, source, compile)
    ensures r.Failure? ==> r.error == Exited(1, CompileErrorMessage(name, source, compile(source).cause))
  {
    if source == "" then Success(None)
    else match compile(source)
      case Compiled(re) => Success(Some(re))
      case CompileError(cause) => Failure(Exited(1, CompileErrorMessage(name, source, cause)))
  }

  /**
   * The filter `main` builds, in the order command, subop, key, parameter. When every option is
   * usable, it has one field per option, each compiled from it; otherwise `main` exits with code 1
   * and the message of the first option that does not compile.
   */
  function BuildFilter(opts: Options, compile: string -> Compiled): (r: Result<Filter, Status>)
    ensures r.Success? <==> Compiles(opts.command, compile) && Compiles(opts.subop, compile)
                            && Compiles(opts.key, compile) && Compiles(opts.param, compile)
    ensures r.Success? ==>
              && FieldFrom(r.value.command, opts.command, compile)
              && FieldFrom(r.value.subOp, opts.subop, compile)
              && FieldFrom(r.value.key, opts.key, compile)
              && FieldFrom(r.value.parameter, opts.param, compile)
    ensures r.Failure? ==>
              r.error == Exited(1,
                if !Compiles(opts.command, compile) then CompileErrorMessage("command", opts.command, compile(opts.command).cause)
                else if !Compiles(opts.subop, compile) then CompileErrorMessage("subop", opts.subop, compile(opts.subop).cause)
                else if !Compiles(opts.key, compile) then CompileErrorMessage("key", opts.key, compile(opts.key).cause)
                else CompileErrorMessage("parameter", opts.param, compile(opts.param).cause))
  {
    var command :- CompileOption("command", opts.command, compile);
    var subOp :- CompileOption("subop", opts.subop, compile);
    var key :- CompileOption("key", opts.key, compile);
    var parameter :- CompileOption("parameter", opts.param, compile);
    Success(Filter(command, subOp, key, parameter))
  }

  /**
   * The file loop of `main` from `acc` on: open the next file (exit 1 if it cannot be opened), run
   * `processInput` over it, stop if that exited, and otherwise add its counters to the totals.
   * When `processInput` exits, the totals are those before the file, as `main` never adds them.
   */
  function Files(files: seq<string>, open: string -> Opened, keep: Operation -> bool, failures: map<nat, string>,
                 acc: Outcome): (r: Outcome)
    ensures files != [] && r.status.Exited? ==> 1 <= r.status.code <= 3
    decreases |files|
  {
    if files == [] then acc
    else match open(files[0])
      case OpenFailed(cause) => acc.(status := Exited(1, OpenErrorMessage(files[0], cause)))
      case Opened(input) =>
        var r := Run(input, keep, failures, acc.stdout);
        if r.status != Completed then acc.(stdout := r.stdout, status := r.status)
        else Files(files[1..], open, keep, failures,
                   Outcome(acc.matched + r.matched, acc.processed + r.processed, r.stdout, Completed))
  }

  method ProcessFiles(files: seq<string>, open: string -> Opened, f: Filter, invert: bool, failures: map<nat, string>,
                      stdout0: seq<Operation>)
    returns (r: Outcome)
    ensures r == Files(files, open, Decision(f, invert), failures, Outcome(0, 0, stdout0, Completed))
  {
    var matched, processed, stdout := 0, 0, stdout0;
    for i := 0 to |files|
      invariant Files(files[i..], open, Decision(f, invert), failures, Outcome(matched, processed, stdout, Completed))
                == Files(files, open, Decision(f, invert), failures, Outcome(0, 0, stdout0, Completed))
    {
      assert files[i..][1..] == files[i + 1..];
      match open(files[i])
      case OpenFailed(cause) =>
        return Outcome(matched, processed, stdout, Exited(1, OpenErrorMessage(files[i], cause)));
      case Opened(input) =>
        var m, p, out, status := ProcessInput(input, f, invert, failures, stdout);
        stdout := out;
        if status != Completed {
          return Outcome(matched, processed, stdout, status);
        }
        matched, processed := matched + m, processed + p;
    }
    assert files[|files|..] == [];
    r := Outcome(matched, processed, stdout, Completed);
  }

  /**
   * Processing the arguments `a + b` is processing `a`, then, if that completed, processing `b`
   * from where `a` left the counters and stdout: files are handled one after another, in order.
   */
  lemma {:induction false} FilesAppend(a: seq<string>, b: seq<string>, open: string -> Opened, keep: Operation -> bool,
                                       failures: map<nat, string>, acc: Outcome)
    requires acc.status == Completed
    ensures var r := Files(a, open, keep, failures, acc);
            Files(a + b, open, keep, failures, acc)
              == if r.status == Completed then Files(b, open, keep, failures, r) else r
    decreases |a|
  {
    if a != [] {
      var ab := a + b;
      assert ab[0] == a[0];
      assert ab[1..] == a[1..] + b;
      match open(a[0])
      case OpenFailed(_) =>
      case Opened(input) =>
        var r := Run(input, keep, failures, acc.stdout);
        if r.status == Completed {
          var acc' := Outcome(acc.matched + r.matched, acc.processed + r.processed, r.stdout, Completed);
          assert Files(ab, open, keep, failures, acc) == Files(a[1..] + b, open, keep, failures, acc');
          assert Files(a, open, keep, failures, acc) == Files(a[1..], open, keep, failures, acc');
          FilesAppend(a[1..], b, open, keep, failures, acc');
        }
    } else {
      assert a + b == b;
    }
  }

  /** The records a file delivers; a file that cannot be opened delivers none. */
  function FileRecords(file: string, open: string -> Opened): seq<ReadResult> {
    match open(file)
    case Opened(input) => input
    case OpenFailed(_) => []
  }

  /** The kept records of every file, file after file in argument order. */
  function AllKept(files: seq<string>, open: string -> Opened, keep: Operation -> bool): seq<Operation>
  {
    if files == [] then []
    else Kept(ReadOps(FileRecords(files[0], open)), keep) + AllKept(files[1..], open, keep)
  }

  /** The sum over the files of what `processInput` reports as processed: records read plus one. */
  function AllProcessed(files: seq<string>, open: string -> Opened): nat
  {
    if files == [] then 0
    else |ReadOps(FileRecords(files[0], open))| + 1 + AllProcessed(files[1..], open)
  }

  /**
   * A run over the file arguments that completes wrote the kept records of every file, in argument
   * order; the totals are the sums of the per-file counters.
   */
  lemma {:induction false} FilesCompleted(files: seq<string>, open: string -> Opened, keep: Operation -> bool,
                                          failures: map<nat, string>, acc: Outcome)
    requires acc.status == Completed
    requires Files(files, open, keep, failures, acc).status == Completed
    ensures var kept := AllKept(files, open, keep);
            Files(files, open, keep, failures, acc)
              == Outcome(acc.matched + |kept|, acc.processed + AllProcessed(files, open), acc.stdout + kept, Completed)
    decreases |files|
  {
    if files != [] {
      match open(files[0])
      case Opened(input) =>
        var r := Run(input, keep, failures, acc.stdout);
        var acc' := Outcome(acc.matched + r.matched, acc.processed + r.processed, r.stdout, Completed);
        assert Files(files, open, keep, failures, acc) == Files(files[1..], open, keep, failures, acc');
        RunCompletes(input, keep, failures, acc.stdout);
        FilesCompleted(files[1..], open, keep, failures, acc');
        var kept0 := Kept(ReadOps(input), keep);
        var rest := AllKept(files[1..], open, keep);
        assert FileRecords(files[0], open) == input;
        assert AllKept(files, open, keep) == kept0 + rest;
        assert r.stdout == acc.stdout + kept0;
        assert r.matched == |kept0|;
        assert r.processed == |ReadOps(FileRecords(files[0], open))| + 1;
        ConcatAssociative(acc.stdout, kept0, rest);
    } else {
      assert acc.stdout + [] == acc.stdout;
    }
  }

  lemma ConcatAssociative(a: seq<Operation>, b: seq<Operation>, c: seq<Operation>)
    ensures a + b + c == a + (b + c)
  {
  }

  /** A run over the file arguments that completes opened every one of them. */
  lemma {:induction false} FilesCompletedOpenedAll(files: seq<string>, open: string -> Opened, keep: Operation -> bool,
                                                   failures: map<nat, string>, acc: Outcome)
    requires Files(files, open, keep, failures, acc).status == Completed
    ensures forall i :: 0 <= i < |files| ==> open(files[i]).Opened?
    decreases |files|
  {
    if files != [] {
      match open(files[0])
      case Opened(input) =>
        var r := Run(input, keep, failures, acc.stdout);
        var acc' := Outcome(acc.matched + r.matched, acc.processed + r.processed, r.stdout, Completed);
        FilesCompletedOpenedAll(files[1..], open, keep, failures, acc');
        forall i | 0 < i < |files|
          ensures open(files[i]).Opened?
        {
          assert files[i] == files[1..][i - 1];
        }
    }
  }

  /**
   * A file that cannot be opened, after the earlier ones completed, stops the run with exit 1:
   * neither it nor any later file is read, and the counters and stdout are those of the earlier files.
   */
  lemma FilesStopAtOpenFailure(files: seq<string>, j: nat, open: string -> Opened, keep: Operation -> bool,
                               failures: map<nat, string>, acc: Outcome, cause: string)
    requires acc.status == Completed
    requires j < |files| && open(files[j]) == OpenFailed(cause)
    requires Files(files[..j], open, keep, failures, acc).status == Completed
    ensures Files(files, open, keep, failures, acc)
              == Files(files[..j], open, keep, failures, acc).(status := Exited(1, OpenErrorMessage(files[j], cause)))
  {
    assert files == files[..j] + files[j..];
    FilesAppend(files[..j], files[j..], open, keep, failures, acc);
    assert files[j..][0] == files[j];
  }

  /**
   * When `processInput` exits on some file, after the earlier ones completed, the run stops with its
   * exit code and message and no later file is opened.
   */
  lemma FilesStopAtExit(files: seq<string>, j: nat, open: string -> Opened, keep: Operation -> bool,
                        failures: map<nat, string>, acc: Outcome, input: seq<ReadResult>)
    requires acc.status == Completed
    requires j < |files| && open(files[j]) == Opened(input)
    requires Files(files[..j], open, keep, failures, acc).status == Completed
    requires Run(input, keep, failures, Files(files[..j], open, keep, failures, acc).stdout).status != Completed
    ensures var before := Files(files[..j], open, keep, failures, acc);
            var r := Run(input, keep, failures, before.stdout);
            Files(files, open, keep, failures, acc) == before.(stdout := r.stdout, status := r.status)
  {
    assert files == files[..j] + files[j..];
    FilesAppend(files[..j], files[j..], open, keep, failures, acc);
    assert files[j..][0] == files[j];
  }

  /** `main`: build the filter, then run over the file arguments, or over standard input when there are none. */
  method Grep(opts: Options, args: seq<string>, stdin: seq<ReadResult>, open: string -> Opened,
              compile: string -> Compiled, failures: map<nat, string>)
    returns (r: Outcome)
    ensures BuildFilter(opts, compile).Failure? ==> r == Outcome(0, 0, [], BuildFilter(opts, compile).error)
    ensures BuildFilter(opts, compile).Success? && args == [] ==>
              r == Run(stdin, Decision(BuildFilter(opts, compile).value, opts.invert), failures, [])
    ensures BuildFilter(opts, compile).Success? && args != [] ==>
              r == Files(args, open, Decision(BuildFilter(opts, compile).value, opts.invert), failures, Outcome(0, 0, [], Completed))
  {
    var built := BuildFilter(opts, compile);
    if built.Failure? {
      return Outcome(0, 0, [], built.error);
    }
    var ftr := built.value;
    if |args| > 0 {
      r := ProcessFiles(args, open, ftr, opts.invert, failures, []);
    } else {
      var matched, processed, stdout, status := ProcessInput(stdin, ftr, opts.invert, failures, []);
      r := Outcome(matched, processed, stdout, status);
    }
  }
}
