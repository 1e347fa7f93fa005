/**
 * `processInput` (aofgrep.go): read records one at a time, count them, write the ones the
 * filter keeps to stdout, and stop at end of stream, at a parse error (exit 2) or at a write
 * error (exit 3). `os.Exit` is modelled as a `Status` value the loop ends with.
 *
 * Stdout is a sequence of records (each standing for its `ToAof` serialisation) shared by all
 * the inputs of a run; `failures` maps the 1-based number of a record write on stdout to the
 * cause of its failure. A failed write adds nothing to stdout.
 */
module Driver {
  import opened Strings
  import opened Aof
  import opened Wrappers
  import opened Regexp
  import opened Filter

  datatype Status = Completed | Exited(code: nat, message: string)

  /** The counters `processInput` returns, the records on stdout, and how the loop ended. */
  datatype Outcome = Outcome(matched: nat, processed: nat, stdout: seq<Operation>, status: Status)

  /** The i-th read (0-based); a reader past its last record reports end of stream. */
  function ReadAt(input: seq<ReadResult>, i: nat): ReadResult {
    if i < |input| then input[i] else Eof
  }

  function ReadErrorMessage(n: nat, cause: string): string {
    "Error processing command " + Decimal(n) + " Error:" + cause + "\n"
  }

  function WriteErrorMessage(n: nat, cause: string): string {
    "Error writing command " + Decimal(n) + " Error:" + cause + "\n"
  }

  /** The write of the record that would follow the records already on stdout fails. */
  predicate WriteFails(failures: map<nat, string>, stdout: seq<Operation>) {
    |stdout| + 1 in failures
  }

  /** Record writes number from + 1 to to all succeed. */
  predicate WritesSucceed(failures: map<nat, string>, from: nat, to: nat) {
    forall w :: from < w <= to ==> w !in failures
  }

  /** The operations the reader delivers before it reports end of stream or a parse error. */
  function ReadOps(input: seq<ReadResult>): (ops: seq<Operation>)
    ensures |ops| <= |input|
    ensures forall i :: 0 <= i < |ops| ==> input[i] == Read(ops[i])
    ensures !ReadAt(input, |ops|).Read?
  {
    if input == [] || !input[0].Read? then [] else [input[0].op] + ReadOps(input[1..])
  }

  /** The operations `keep` accepts, in their order. */
  function Kept(ops: seq<Operation>, keep: Operation -> bool): (r: seq<Operation>)
    ensures |r| <= |ops|
  {
    if ops == [] then []
    else Kept(ops[..|ops| - 1], keep) + (if keep(ops[|ops| - 1]) then [ops[|ops| - 1]] else [])
  }

  /**
   * The loop of `processInput` after `read` reads, with `matched` records matched and `stdout`
   * written so far. `processed` is incremented before each read, so it is `read + 1` when the
   * loop stops.
   */
  function Drive(input: seq<ReadResult>, keep: Operation -> bool, failures: map<nat, string>,
                 read: nat, matched: nat, stdout: seq<Operation>): (r: Outcome)
    ensures read + 1 <= r.processed
    ensures |stdout| <= |r.stdout|
    ensures r.status.Exited? ==> r.status.code == 2 || r.status.code == 3
    ensures r.matched == matched + |r.stdout| - |stdout| + (if r.status.Exited? && r.status.code == 3 then 1 else 0)
    decreases |input| - read
  {
    var processed := read + 1;
    if read >= |input| then Outcome(matched, processed, stdout, Completed)
    else match input[read]
      case Eof => Outcome(matched, processed, stdout, Completed)
      case ParseError(cause) => Outcome(matched, processed, stdout, Exited(2, ReadErrorMessage(processed, cause)))
      case Read(op) =>
        if !keep(op) then Drive(input, keep, failures, processed, matched, stdout)
        else if WriteFails(failures, stdout) then
          Outcome(matched + 1, processed, stdout, Exited(3, WriteErrorMessage(processed, failures[|stdout| + 1])))
        else Drive(input, keep, failures, processed, matched + 1, stdout + [op])
  }

  /** The keep decision `processInput` takes for each record: `Match` with its filter and `-v` flag. */
  function Decision(f: Filter, invert: bool): Operation -> bool {
    op => Match(op, f, invert)
  }

  /** A whole call of `processInput` on a reader, with `stdout` holding what earlier inputs wrote. */
  function Run(input: seq<ReadResult>, keep: Operation -> bool, failures: map<nat, string>, stdout: seq<Operation>): (r: Outcome)
    ensures 1 <= r.processed
    ensures |stdout| <= |r.stdout|
    ensures r.status.Exited? ==> r.status.code == 2 || r.status.code == 3
    ensures r.matched == |r.stdout| - |stdout| + (if r.status.Exited? && r.status.code == 3 then 1 else 0)
  {
    Drive(input, keep, failures, 0, 0, stdout)
  }

  method ProcessInput(input: seq<ReadResult>, f: Filter, invert: bool, failures: map<nat, string>, stdout0: seq<Operation>)
    returns (matched: nat, processed: nat, stdout: seq<Operation>, status: Status)
    ensures Outcome(matched, processed, stdout, status) == Run(input, Decision(f, invert), failures, stdout0)
  {
    processed, matched, stdout, status := 0, 0, stdout0, Completed;
    while true
      invariant processed <= |input|
      invariant Drive(input, Decision(f, invert), failures, processed, matched, stdout) == Run(input, Decision(f, invert), failures, stdout0)
      decreases |input| - processed
    {
      processed := processed + 1;
      match ReadAt(input, processed - 1)
      case Eof =>
        return;
      case ParseError(cause) =>
        status := Exited(2, ReadErrorMessage(processed, cause));
        return;
      case Read(op) =>
        if Match(op, f, invert) {
          var failed := WriteFails(failures, stdout);
          if !failed {
            stdout := stdout + [op];
          }
          matched := matched + 1;
          if failed {
            status := Exited(3, WriteErrorMessage(processed, failures[|stdout| + 1]));
            return;
          }
        }
    }
  }

  /**
   * The records read before the loop stopped, `processed - 1` of them, were dealt with in full:
   * stdout gained exactly the kept ones among them, in order, and every one of those writes succeeded.
   */
  ghost predicate WroteKept(input: seq<ReadResult>, keep: Operation -> bool, failures: map<nat, string>,
                            stdout0: seq<Operation>, r: Outcome)
  {
    && 1 <= r.processed <= |ReadOps(input)| + 1
    && r.stdout == stdout0 + Kept(ReadOps(input)[..r.processed - 1], keep)
    && WritesSucceed(failures, |stdout0|, |r.stdout|)
  }

  /** Normal return: the read after the last record reported end of stream. */
  ghost predicate StoppedAtEof(input: seq<ReadResult>, stdout0: seq<Operation>, r: Outcome) {
    && r.status == Completed
    && r.processed == |ReadOps(input)| + 1
    && ReadAt(input, |ReadOps(input)|) == Eof
    && r.matched == |r.stdout| - |stdout0|
  }

  /** Exit 2: the read after the last record failed to parse; the message names that read. */
  ghost predicate StoppedAtParseError(input: seq<ReadResult>, stdout0: seq<Operation>, r: Outcome) {
    var n := |ReadOps(input)|;
    && ReadAt(input, n).ParseError?
    && r.status == Exited(2, ReadErrorMessage(n + 1, ReadAt(input, n).cause))
    && r.processed == n + 1
    && r.matched == |r.stdout| - |stdout0|
  }

  /**
   * Exit 3: the record just read was kept, counted, and its write failed; no later record was read.
   * The message names that record.
   */
  ghost predicate StoppedAtWriteError(input: seq<ReadResult>, keep: Operation -> bool, failures: map<nat, string>,
                                      stdout0: seq<Operation>, r: Outcome)
  {
    && 1 <= r.processed <= |ReadOps(input)|
    && keep(ReadOps(input)[r.processed - 1])
    && WriteFails(failures, r.stdout)
    && r.status == Exited(3, WriteErrorMessage(r.processed, failures[|r.stdout| + 1]))
    && r.matched == |r.stdout| - |stdout0| + 1
  }

  /** How a call of `processInput` can end, stated without the loop. */
  ghost predicate Explains(input: seq<ReadResult>, keep: Operation -> bool, failures: map<nat, string>,
                           stdout0: seq<Operation>, r: Outcome)
  {
    && WroteKept(input, keep, failures, stdout0, r)
    && (|| StoppedAtEof(input, stdout0, r)
        || StoppedAtParseError(input, stdout0, r)
        || StoppedAtWriteError(input, keep, failures, stdout0, r))
  }

  /** Keeping a prefix and then one more record. */
  lemma KeptStep(ops: seq<Operation>, keep: Operation -> bool, i: nat)
    requires i < |ops|
    ensures Kept(ops[..i + 1], keep) == Kept(ops[..i], keep) + (if keep(ops[i]) then [ops[i]] else [])
  {
    assert ops[..i + 1][..i] == ops[..i];
  }

  /** A longer prefix keeps at least as many records. */
  lemma {:induction false} KeptMonotone(ops: seq<Operation>, keep: Operation -> bool, i: nat, j: nat)
    requires i <= j <= |ops|
    ensures |Kept(ops[..i], keep)| <= |Kept(ops[..j], keep)|
    decreases j - i
  {
    if i < j {
      KeptMonotone(ops, keep, i, j - 1);
      KeptStep(ops, keep, j - 1);
    }
  }

  /** The loop invariant of `processInput`, carried to the end of the loop. */
  lemma {:induction false} DriveExplained(input: seq<ReadResult>, keep: Operation -> bool, failures: map<nat, string>,
                                          stdout0: seq<Operation>, read: nat, matched: nat, stdout: seq<Operation>)
    requires read <= |ReadOps(input)|
    requires stdout == stdout0 + Kept(ReadOps(input)[..read], keep)
    requires matched == |stdout| - |stdout0|
    requires WritesSucceed(failures, |stdout0|, |stdout|)
    ensures Explains(input, keep, failures, stdout0, Drive(input, keep, failures, read, matched, stdout))
    decreases |input| - read, 1
  {
    var ops := ReadOps(input);
    if read == |ops| {
      assert ops[..read] == ops;
      StopExplained(input, keep, failures, stdout0, matched, stdout);
    } else if !keep(ops[read]) {
      KeptStep(ops, keep, read);
      DriveExplained(input, keep, failures, stdout0, read + 1, matched, stdout);
      StepExplained(input, keep, failures, stdout0, read, matched, stdout, matched, stdout);
    } else if WriteFails(failures, stdout) {
      WriteFailureExplained(input, keep, failures, stdout0, read, matched, stdout);
    } else {
      WriteExplained(input, keep, failures, stdout0, read, matched, stdout);
    }
  }

  /** The record just read is kept and written; the loop goes on with it on stdout. */
  lemma {:induction false} WriteExplained(input: seq<ReadResult>, keep: Operation -> bool, failures: map<nat, string>,
                                          stdout0: seq<Operation>, read: nat, matched: nat, stdout: seq<Operation>)
    requires read < |ReadOps(input)|
    requires keep(ReadOps(input)[read]) && !WriteFails(failures, stdout)
    requires stdout == stdout0 + Kept(ReadOps(input)[..read], keep)
    requires matched == |stdout| - |stdout0|
    requires WritesSucceed(failures, |stdout0|, |stdout|)
    ensures Explains(input, keep, failures, stdout0, Drive(input, keep, failures, read, matched, stdout))
    decreases |input| - read, 0
  {
    var ops := ReadOps(input);
    var stdout' := stdout + [ops[read]];
    KeptStep(ops, keep, read);
    assert WritesSucceed(failures, |stdout0|, |stdout'|) by {
      assert |stdout'| == |stdout| + 1;
    }
    DriveExplained(input, keep, failures, stdout0, read + 1, matched + 1, stdout');
    StepExplained(input, keep, failures, stdout0, read, matched, stdout, matched + 1, stdout');
  }

  /** A record that is skipped, or kept and written, leaves the loop's outcome to the next read. */
  lemma StepExplained(input: seq<ReadResult>, keep: Operation -> bool, failures: map<nat, string>,
                      stdout0: seq<Operation>, read: nat, matched: nat, stdout: seq<Operation>,
                      matched': nat, stdout': seq<Operation>)
    requires read < |ReadOps(input)|
    requires var op := ReadOps(input)[read];
             if keep(op)
             then !WriteFails(failures, stdout) && matched' == matched + 1 && stdout' == stdout + [op]
             else matched' == matched && stdout' == stdout
    requires Explains(input, keep, failures, stdout0, Drive(input, keep, failures, read + 1, matched', stdout'))
    ensures Explains(input, keep, failures, stdout0, Drive(input, keep, failures, read, matched, stdout))
  {
    assert input[read] == Read(ReadOps(input)[read]);
  }

  /** The loop stops at the read after the last record: end of stream or a parse error. */
  lemma StopExplained(input: seq<ReadResult>, keep: Operation -> bool, failures: map<nat, string>,
                      stdout0: seq<Operation>, matched: nat, stdout: seq<Operation>)
    requires stdout == stdout0 + Kept(ReadOps(input), keep)
    requires matched == |stdout| - |stdout0|
    requires WritesSucceed(failures, |stdout0|, |stdout|)
    ensures Explains(input, keep, failures, stdout0, Drive(input, keep, failures, |ReadOps(input)|, matched, stdout))
  {
    var ops := ReadOps(input);
    assert ops[..|ops|] == ops;
    var r := Drive(input, keep, failures, |ops|, matched, stdout);
    assert WroteKept(input, keep, failures, stdout0, r);
    if ReadAt(input, |ops|) == Eof {
      assert StoppedAtEof(input, stdout0, r);
    } else {
      assert StoppedAtParseError(input, stdout0, r);
    }
  }

  /** The loop stops at a kept record whose write fails. */
  lemma WriteFailureExplained(input: seq<ReadResult>, keep: Operation -> bool, failures: map<nat, string>,
                              stdout0: seq<Operation>, read: nat, matched: nat, stdout: seq<Operation>)
    requires read < |ReadOps(input)|
    requires keep(ReadOps(input)[read]) && WriteFails(failures, stdout)
    requires stdout == stdout0 + Kept(ReadOps(input)[..read], keep)
    requires matched == |stdout| - |stdout0|
    requires WritesSucceed(failures, |stdout0|, |stdout|)
    ensures Explains(input, keep, failures, stdout0, Drive(input, keep, failures, read, matched, stdout))
  {
    assert input[read] == Read(ReadOps(input)[read]);
  }

  /** Every call of `processInput` ends as `Explains` describes. */
  lemma RunExplained(input: seq<ReadResult>, keep: Operation -> bool, failures: map<nat, string>, stdout0: seq<Operation>)
    ensures Explains(input, keep, failures, stdout0, Run(input, keep, failures, stdout0))
  {
    assert ReadOps(input)[..0] == [];
    DriveExplained(input, keep, failures, stdout0, 0, 0, stdout0);
  }

  /** `Explains` admits one outcome only, so it specifies `processInput` completely. */
  lemma ExplainsDetermines(input: seq<ReadResult>, keep: Operation -> bool, failures: map<nat, string>,
                           stdout0: seq<Operation>, r1: Outcome, r2: Outcome)
    requires Explains(input, keep, failures, stdout0, r1)
    requires Explains(input, keep, failures, stdout0, r2)
    ensures r1 == r2
  {
    ProcessedDetermined(input, keep, failures, stdout0, r1, r2);
    assert r1.stdout == r2.stdout;
    if r1.processed <= |ReadOps(input)| {
      assert StoppedAtWriteError(input, keep, failures, stdout0, r1);
      assert StoppedAtWriteError(input, keep, failures, stdout0, r2);
    } else if ReadAt(input, |ReadOps(input)|) == Eof {
      assert StoppedAtEof(input, stdout0, r1);
      assert StoppedAtEof(input, stdout0, r2);
    } else {
      assert StoppedAtParseError(input, stdout0, r1);
      assert StoppedAtParseError(input, stdout0, r2);
    }
  }

  /** Two outcomes that `Explains` admits stop after the same number of reads. */
  lemma ProcessedDetermined(input: seq<ReadResult>, keep: Operation -> bool, failures: map<nat, string>,
                            stdout0: seq<Operation>, r1: Outcome, r2: Outcome)
    requires Explains(input, keep, failures, stdout0, r1)
    requires Explains(input, keep, failures, stdout0, r2)
    ensures r1.processed == r2.processed
  {
    var n := |ReadOps(input)|;
    if r1.processed <= n {
      FailedWriteIsLast(input, keep, failures, stdout0, r1, r2);
      FailedWriteIsLast(input, keep, failures, stdout0, r2, r1);
    } else if r2.processed <= n {
      FailedWriteIsLast(input, keep, failures, stdout0, r2, r1);
    }
  }

  /** An outcome that stopped at a failed write read at least as far as any other. */
  lemma FailedWriteIsLast(input: seq<ReadResult>, keep: Operation -> bool, failures: map<nat, string>,
                          stdout0: seq<Operation>, r1: Outcome, r2: Outcome)
    requires Explains(input, keep, failures, stdout0, r1)
    requires Explains(input, keep, failures, stdout0, r2)
    requires r1.processed <= |ReadOps(input)|
    ensures r2.processed <= r1.processed
  {
    var ops := ReadOps(input);
    var p := r1.processed;
    assert StoppedAtWriteError(input, keep, failures, stdout0, r1);
    if r2.processed > p {
      KeptStep(ops, keep, p - 1);
      KeptMonotone(ops, keep, p, r2.processed - 1);
    }
  }

  /** A kept record that failed to write lies within the kept records of the whole input. */
  lemma FailedWriteWithinKept(input: seq<ReadResult>, keep: Operation -> bool, failures: map<nat, string>,
                              stdout0: seq<Operation>, r: Outcome)
    requires WroteKept(input, keep, failures, stdout0, r)
    requires StoppedAtWriteError(input, keep, failures, stdout0, r)
    ensures |r.stdout| + 1 <= |stdout0| + |Kept(ReadOps(input), keep)|
  {
    var ops := ReadOps(input);
    KeptStep(ops, keep, r.processed - 1);
    KeptMonotone(ops, keep, r.processed, |ops|);
    assert ops[..|ops|] == ops;
  }

  /**
   * `processInput` returns normally exactly when the stream ends with end of stream and every kept
   * record is written; it has then written the kept records, in order, counted them as matched,
   * and `processed` is one more than the number of records read.
   */
  lemma RunCompletes(input: seq<ReadResult>, keep: Operation -> bool, failures: map<nat, string>, stdout0: seq<Operation>)
    ensures var ops := ReadOps(input);
            var kept := Kept(ops, keep);
            var r := Run(input, keep, failures, stdout0);
            && (r.status == Completed <==> ReadAt(input, |ops|) == Eof && WritesSucceed(failures, |stdout0|, |stdout0| + |kept|))
            && (r.status == Completed ==> r == Outcome(|kept|, |ops| + 1, stdout0 + kept, Completed))
  {
    var ops := ReadOps(input);
    var kept := Kept(ops, keep);
    var r := Run(input, keep, failures, stdout0);
    RunExplained(input, keep, failures, stdout0);
    assert ops[..|ops|] == ops;
    if StoppedAtWriteError(input, keep, failures, stdout0, r) {
      FailedWriteWithinKept(input, keep, failures, stdout0, r);
      assert !WritesSucceed(failures, |stdout0|, |stdout0| + |kept|) by {
        assert |r.stdout| + 1 in failures;
      }
      assert r.status != Completed;
    } else if StoppedAtEof(input, stdout0, r) {
      assert r.stdout == stdout0 + kept;
    } else {
      assert StoppedAtParseError(input, stdout0, r);
      assert r.status != Completed;
    }
  }

  /**
   * A parse error after the last record, with every kept record written, stops `processInput`
   * with exit 2 and a message naming the failed read by its 1-based number.
   */
  lemma RunParseError(input: seq<ReadResult>, keep: Operation -> bool, failures: map<nat, string>, stdout0: seq<Operation>, cause: string)
    requires ReadAt(input, |ReadOps(input)|) == ParseError(cause)
    requires WritesSucceed(failures, |stdout0|, |stdout0| + |Kept(ReadOps(input), keep)|)
    ensures var ops := ReadOps(input);
            var kept := Kept(ops, keep);
            Run(input, keep, failures, stdout0)
              == Outcome(|kept|, |ops| + 1, stdout0 + kept, Exited(2, ReadErrorMessage(|ops| + 1, cause)))
  {
    var ops := ReadOps(input);
    var r := Run(input, keep, failures, stdout0);
    RunExplained(input, keep, failures, stdout0);
    if StoppedAtWriteError(input, keep, failures, stdout0, r) {
      FailedWriteWithinKept(input, keep, failures, stdout0, r);
    } else {
      assert ops[..|ops|] == ops;
    }
  }

  /**
   * When the write of some kept record fails, `processInput` stops there with exit 3: the failing
   * record was counted as matched, nothing after it was read, and the message names it.
   */
  lemma RunWriteError(input: seq<ReadResult>, keep: Operation -> bool, failures: map<nat, string>, stdout0: seq<Operation>)
    requires !WritesSucceed(failures, |stdout0|, |stdout0| + |Kept(ReadOps(input), keep)|)
    ensures var r := Run(input, keep, failures, stdout0);
            && WroteKept(input, keep, failures, stdout0, r)
            && StoppedAtWriteError(input, keep, failures, stdout0, r)
  {
    var ops := ReadOps(input);
    RunExplained(input, keep, failures, stdout0);
    assert ops[..|ops|] == ops;
  }

  /**
   * `matched` never exceeds `processed`, stdout only grows, and `matched` counts the records written,
   * plus the one whose write failed exactly when the run exited with code 3.
   */
  lemma RunCounters(input: seq<ReadResult>, keep: Operation -> bool, failures: map<nat, string>, stdout0: seq<Operation>)
    ensures var r := Run(input, keep, failures, stdout0);
            && r.matched <= r.processed
            && |stdout0| <= |r.stdout|
            && |r.stdout| - |stdout0| <= r.matched <= |r.stdout| - |stdout0| + 1
            && r.stdout[..|stdout0|] == stdout0
            && (r.matched == |r.stdout| - |stdout0| + 1 <==> r.status.Exited? && r.status.code == 3)
  {
    RunExplained(input, keep, failures, stdout0);
  }

  /** A message `prefix N Error:cause` followed by a newline gives back its N and its cause. */
  lemma NumberedMessageParts(prefix: string, n1: nat, cause1: string, n2: nat, cause2: string)
    requires prefix + Decimal(n1) + " Error:" + cause1 + "\n" == prefix + Decimal(n2) + " Error:" + cause2 + "\n"
    ensures n1 == n2 && cause1 == cause2
  {
    var d1, d2 := Decimal(n1), Decimal(n2);
    var t1, t2 := CauseTail(cause1), CauseTail(cause2);
    Regroup(prefix, d1, cause1);
    Regroup(prefix, d2, cause2);
    DropPrefix(prefix, d1 + t1, d2 + t2);
    DigitRunDetermined(d1, t1, d2, t2);
    DecimalInjective(n1, n2);
  }

  /** The part of a numbered message after the number. */
  function CauseTail(cause: string): (t: string)
    ensures |t| == |cause| + 8 && t[7..|t| - 1] == cause && t[0] == ' '
  {
    " Error:" + cause + "\n"
  }

  lemma Regroup(prefix: string, d: string, cause: string)
    ensures prefix + d + " Error:" + cause + "\n" == prefix + (d + CauseTail(cause))
  {
  }

  lemma DropPrefix(prefix: string, a: string, b: string)
    requires prefix + a == prefix + b
    ensures a == b
  {
    assert a == (prefix + a)[|prefix|..];
    assert b == (prefix + b)[|prefix|..];
  }

  /** The parse-error message names the read and the cause it is about. */
  lemma ReadErrorMessageNamesRecord(n1: nat, cause1: string, n2: nat, cause2: string)
    requires ReadErrorMessage(n1, cause1) == ReadErrorMessage(n2, cause2)
    ensures n1 == n2 && cause1 == cause2
  {
    NumberedMessageParts("Error processing command ", n1, cause1, n2, cause2);
  }

  /** The write-error message names the record and the cause it is about. */
  lemma WriteErrorMessageNamesRecord(n1: nat, cause1: string, n2: nat, cause2: string)
    requires WriteErrorMessage(n1, cause1) == WriteErrorMessage(n2, cause2)
    ensures n1 == n2 && cause1 == cause2
  {
    NumberedMessageParts("Error writing command ", n1, cause1, n2, cause2);
  }

  /** Kept holds exactly the operations of the input that `keep` accepts. */
  lemma {:induction false} KeptMembers(ops: seq<Operation>, keep: Operation -> bool, x: Operation)
    ensures x in Kept(ops, keep) <==> x in ops && keep(x)
  {
    if ops != [] {
      var init := ops[..|ops| - 1];
      KeptMembers(init, keep, x);
      assert ops == init + [ops[|ops| - 1]];
    }
  }

  /** The record `SELECT 0` of aofgrep_test.go. */
  const SelectZero: Operation := Operation("SELECT", "", "", ["0"])

  /**
   * One record that matches, then end of stream: it is written and matched once, and `processed`
   * is 2, because it is incremented before the read that reports end of stream.
   */
  lemma SingleMatchExample()
    ensures Run([Read(SelectZero)], Decision(Unconstrained.(command := Some(Literal("SELECT"))), false), map[], [])
              == Outcome(1, 2, [SelectZero], Completed)
  {
    var input, keep := [Read(SelectZero)], Decision(Unconstrained.(command := Some(Literal("SELECT"))), false);
    SelectFacts();
    assert keep(SelectZero);
    assert Drive(input, keep, map[], 1, 1, [SelectZero]) == Outcome(1, 2, [SelectZero], Completed);
    var none: seq<Operation> := [];
    assert !WriteFails(map[], none);
    assert none + [SelectZero] == [SelectZero];
    assert Drive(input, keep, map[], 0, 0, none) == Drive(input, keep, map[], 1, 1, [SelectZero]);
  }

  /** A record that does not match is not written and not counted as matched. */
  lemma NoMatchExample()
    ensures Run([Read(SelectZero)], Decision(Unconstrained.(command := Some(Literal("SADD"))), false), map[], [])
              == Outcome(0, 2, [], Completed)
  {
    SelectFacts();
    SaddNotInSelect();
    var input, keep := [Read(SelectZero)], Decision(Unconstrained.(command := Some(Literal("SADD"))), false);
    assert !keep(SelectZero);
    assert Drive(input, keep, map[], 1, 0, []) == Outcome(0, 2, [], Completed);
  }

  /** A first record that fails to parse: exit 2, naming read number 1. */
  lemma ParseErrorExample(cause: string)
    ensures Run([ParseError(cause)], Decision(Unconstrained, false), map[], [])
              == Outcome(0, 1, [], Exited(2, "Error processing command 1 Error:" + cause + "\n"))
  {
    assert Decimal(1) == "1";
    assert ReadErrorMessage(1, cause) == "Error processing command 1 Error:" + cause + "\n";
  }

  /** A writer that fails its first write: exit 3 with the message aofgrep_test.go expects. */
  lemma WriteErrorExample()
    ensures Run([Read(SelectZero), Read(SelectZero)], Decision(Unconstrained.(command := Some(Literal("SELECT"))), false),
                map[1 := "Some error"], [])
              == Outcome(1, 1, [], Exited(3, "Error writing command 1 Error:Some error\n"))
  {
    var keep := Decision(Unconstrained.(command := Some(Literal("SELECT"))), false);
    SelectFacts();
    assert keep(SelectZero);
    assert Decimal(1) == "1";
    assert WriteErrorMessage(1, "Some error") == "Error writing command 1 Error:Some error\n";
  }
}
