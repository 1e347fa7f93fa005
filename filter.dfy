/**
 * The match predicate of the `filter` package (filter/filter.go): four optional patterns,
 * AND across the fields, OR across the arguments, command and sub-operation upper-cased
 * before matching, and inversion as the negation of the whole decision.
 */
module Filter {
  import opened Wrappers
  import opened Strings
  import opened Regexp
  import opened Aof

  /** Each pattern is absent (nil) or a compiled regular expression. */
  datatype Filter = Filter(command: Option<Regexp>, subOp: Option<Regexp>, key: Option<Regexp>, parameter: Option<Regexp>)

  /** `filter.Filter{}`: no pattern at all. */
  const Unconstrained: Filter := Filter(None, None, None, None)

  /** An absent pattern constrains nothing; a present one must find a match in `s`. */
  predicate Allows(p: Option<Regexp>, s: string) {
    p.None? || p.value.finds(s)
  }

  /**
   * The non-inverted decision, stated declaratively over the strings the patterns are applied to:
   * every present field pattern finds a match in its field, and an argument pattern, when present,
   * finds a match in at least one argument.
   */
  predicate FieldsAccepted(f: Filter, command: string, subOp: string, key: string, arguments: seq<string>) {
    && Allows(f.command, command)
    && Allows(f.subOp, subOp)
    && Allows(f.key, key)
    && (f.parameter.None? || exists i :: 0 <= i < |arguments| && f.parameter.value.finds(arguments[i]))
  }

  /** What a non-inverted match means for this package: command and sub-operation are upper-cased first. */
  predicate Accepts(op: Operation, f: Filter) {
    FieldsAccepted(f, ToUpper(op.command), ToUpper(op.subOp), op.key, op.arguments)
  }

  /** `Match(op, filter, inverse)`: the chain of guarded early returns, `rCode` being the failure answer. */
  function Match(op: Operation, f: Filter, inverse: bool): (r: bool)
    ensures r == if inverse then !Accepts(op, f) else Accepts(op, f)
  {
    var rCode := inverse;
    if f.command.Some? && !f.command.value.finds(ToUpper(op.command)) then rCode
    else if f.subOp.Some? && !f.subOp.value.finds(ToUpper(op.subOp)) then rCode
    else if f.key.Some? && !f.key.value.finds(op.key) then rCode
    else if f.parameter.None? then !rCode
    else
      if AnyFinds(f.parameter.value, op.arguments) then !rCode else rCode
  }

  /** The inverted answer is the exact negation of the non-inverted one, whatever the filter. */
  lemma InverseIsNegation(op: Operation, f: Filter)
    ensures Match(op, f, true) == !Match(op, f, false)
  {
  }

  /** With no pattern, every record matches, and none does when inverted. */
  lemma UnconstrainedMatchesAll(op: Operation, inverse: bool)
    ensures Match(op, Unconstrained, inverse) == !inverse
  {
  }

  /** An argument pattern cannot match an operation without arguments. */
  lemma ParameterNeedsAnArgument(op: Operation, f: Filter)
    requires f.parameter.Some? && op.arguments == []
    ensures !Match(op, f, false) && Match(op, f, true)
  {
  }

  /** The argument test is existential: reordering the arguments does not change the decision. */
  lemma ArgumentOrderIrrelevant(op: Operation, f: Filter, inverse: bool, arguments: seq<string>)
    requires multiset(arguments) == multiset(op.arguments)
    ensures Match(op.(arguments := arguments), f, inverse) == Match(op, f, inverse)
  {
    if f.parameter.Some? {
      var re := f.parameter.value;
      if exists i :: 0 <= i < |op.arguments| && re.finds(op.arguments[i]) {
        var i :| 0 <= i < |op.arguments| && re.finds(op.arguments[i]);
        assert op.arguments[i] in multiset(arguments);
        var j :| 0 <= j < |arguments| && arguments[j] == op.arguments[i];
      }
      if exists j :: 0 <= j < |arguments| && re.finds(arguments[j]) {
        var j :| 0 <= j < |arguments| && re.finds(arguments[j]);
        assert arguments[j] in multiset(op.arguments);
        var i :| 0 <= i < |op.arguments| && op.arguments[i] == arguments[j];
      }
    }
  }

  /**
   * A command pattern that finds no match returns at once: the sub-operation, key and argument
   * patterns cannot change the answer.
   */
  lemma CommandMismatchDecides(op: Operation, f: Filter, inverse: bool, subOp: Option<Regexp>, key: Option<Regexp>, parameter: Option<Regexp>)
    requires f.command.Some? && !f.command.value.finds(ToUpper(op.command))
    ensures Match(op, f.(subOp := subOp, key := key, parameter := parameter), inverse) == inverse
  {
  }

  /**
   * Command and sub-operation are matched case-insensitively: an operation matches exactly when
   * the same operation with those two fields upper-cased does.
   */
  lemma CommandAndSubOpCaseInsensitive(op: Operation, f: Filter, inverse: bool)
    ensures Match(op, f, inverse) == Match(op.(command := ToUpper(op.command), subOp := ToUpper(op.subOp)), f, inverse)
  {
    ToUpperIdempotent(op.command);
    ToUpperIdempotent(op.subOp);
  }

  /** `SELECT` is upper-case and contains itself. */
  lemma SelectFacts()
    ensures ToUpper("SELECT") == "SELECT"
    ensures Contains("SELECT", "SELECT")
  {
    UpperCaseIsFixed("SELECT");
    assert OccursAt("SELECT", "SELECT", 0);
  }

  /** `SADD` occurs nowhere in `SELECT`. */
  lemma SaddNotInSelect()
    ensures !Contains("SELECT", "SADD")
  {
    forall i: nat | i <= |"SELECT"|
      ensures !OccursAt("SELECT", "SADD", i)
    {
      if i == 0 {
        assert "SELECT"[1] != "SADD"[1];
      } else if i == 1 {
        assert "SELECT"[1] != "SADD"[0];
      } else if i == 2 {
        assert "SELECT"[2] != "SADD"[0];
      }
    }
  }

  /** The case of filter_test.go: `SELECT` against the pattern `SELECT` matches, and not when inverted. */
  lemma CommandMatchExample()
    ensures var op := Operation("SELECT", "", "", []);
            var f := Unconstrained.(command := Some(Literal("SELECT")));
            Match(op, f, false) && !Match(op, f, true)
  {
    SelectFacts();
  }

  /** Any spelling of `select` matches the pattern `SELECT`, because the command is upper-cased. */
  lemma LowerCaseCommandExample()
    ensures var f := Unconstrained.(command := Some(Literal("SELECT")));
            && Match(Operation("select", "", "", []), f, false)
            && Match(Operation("Select", "", "", []), f, false)
            && Match(Operation("SeLeCt", "", "", []), f, false)
  {
    ToUpperEach("select", "SELECT");
    SelectSpellingMatches("select");
    ToUpperEach("Select", "SELECT");
    SelectSpellingMatches("Select");
    ToUpperEach("SeLeCt", "SELECT");
    SelectSpellingMatches("SeLeCt");
  }

  /** A command that upper-cases to `SELECT` matches the pattern `SELECT`. */
  lemma SelectSpellingMatches(command: string)
    requires ToUpper(command) == "SELECT"
    ensures Match(Operation(command, "", "", []), Unconstrained.(command := Some(Literal("SELECT"))), false)
  {
    SelectFacts();
  }

  /** The key is matched as it is: key `k1` does not match the pattern `K1`. */
  lemma KeyCaseSensitiveExample()
    ensures !Match(Operation("SET", "", "k1", ["v"]), Unconstrained.(key := Some(Literal("K1"))), false)
  {
    assert !OccursAt("k1", "K1", 0) by {
      assert "k1"[0] != "K1"[0];
    }
  }

  /** Arguments `p1`, `p2`: the pattern `p2` matches one of them, the pattern `p3` neither. */
  lemma ArgumentsExample()
    ensures var op := Operation("SADD", "", "s", ["p1", "p2"]);
            && Match(op, Unconstrained.(parameter := Some(Literal("p2"))), false)
            && !Match(op, Unconstrained.(parameter := Some(Literal("p3"))), false)
  {
    var args := ["p1", "p2"];
    assert OccursAt(args[1], "p2", 0);
    assert !OccursAt(args[0], "p3", 0) by {
      assert args[0][1] != "p3"[1];
    }
    assert !OccursAt(args[1], "p3", 0) by {
      assert args[1][1] != "p3"[1];
    }
    assert !Contains(args[0], "p3");
    assert !Contains(args[1], "p3");
  }
}
