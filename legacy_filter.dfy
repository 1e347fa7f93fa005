/**
 * The earlier `Match` of the `filter` package (src/filter.go). Its `Filter` struct has the same
 * four optional patterns as the current one, so the datatype is shared. Fields are matched as
 * they are, without upper-casing, and under inversion every field check is skipped.
 */
module LegacyFilter {
  import opened Wrappers
  import opened Strings
  import opened Regexp
  import opened Aof
  import Filter

  /**
   * `Match(op, filter, inverse)` as src/filter.go writes it. A failing field check returns false
   * only when not inverted; the argument loop returns true only when not inverted, and false after it.
   */
  function Match(op: Operation, f: Filter.Filter, inverse: bool): (r: bool)
    ensures inverse ==> !r
    ensures !inverse ==> (r <==> Filter.FieldsAccepted(f, op.command, op.subOp, op.key, op.arguments))
  {
    if f.command.Some? && !f.command.value.finds(op.command) && !inverse then false
    else if f.subOp.Some? && !f.subOp.value.finds(op.subOp) && !inverse then false
    else if f.key.Some? && !f.key.value.finds(op.key) && !inverse then false
    else if f.parameter.Some? then
      AnyFinds(f.parameter.value, op.arguments) && !inverse
    else !inverse
  }

  /** Inversion is broken: with `inverse` set no record is ever kept. */
  lemma InverseNeverMatches(op: Operation, f: Filter.Filter)
    ensures !Match(op, f, true)
  {
  }

  /** With no pattern and no inversion every record matches. */
  lemma UnconstrainedMatches(op: Operation)
    ensures Match(op, Filter.Unconstrained, false)
  {
  }

  /** A present argument pattern rejects an operation without arguments, inverted or not. */
  lemma ParameterNeedsAnArgument(op: Operation, f: Filter.Filter, inverse: bool)
    requires f.parameter.Some? && op.arguments == []
    ensures !Match(op, f, inverse)
  {
  }

  /**
   * On operations whose command and sub-operation are already upper-case, the non-inverted
   * decision is the same as that of the current `Filter.Match`.
   */
  lemma AgreesOnUpperCaseFields(op: Operation, f: Filter.Filter)
    requires IsUpperCase(op.command) && IsUpperCase(op.subOp)
    ensures Match(op, f, false) == Filter.Match(op, f, false)
  {
    UpperCaseIsFixed(op.command);
    UpperCaseIsFixed(op.subOp);
  }

  /**
   * Inverted, the two versions agree exactly on the operations the current filter accepts, for
   * which both answer false; on every other operation this one answers false and the current one true.
   */
  lemma AgreesWhenInverted(op: Operation, f: Filter.Filter)
    ensures Match(op, f, true) == Filter.Match(op, f, true) <==> Filter.Accepts(op, f)
  {
  }

  /** No case folding: `select` fails the pattern `SELECT` here, where `Filter.Match` accepts it. */
  lemma NoCaseFoldingExample()
    ensures var op := Operation("select", "", "", []);
            var f := Filter.Unconstrained.(command := Some(Literal("SELECT")));
            !Match(op, f, false) && Filter.Match(op, f, false)
  {
    UpperNotInLower();
    ToUpperEach("select", "SELECT");
    Filter.SelectFacts();
  }

  /** `SELECT` occurs nowhere in `select`. */
  lemma UpperNotInLower()
    ensures !Contains("select", "SELECT")
  {
    forall i: nat | i <= |"select"|
      ensures !OccursAt("select", "SELECT", i)
    {
      if i == 0 {
        assert "select"[0] != "SELECT"[0];
      }
    }
  }

  /**
   * The inversion defect on a concrete input: `SELECT` does not match the command pattern `SADD`,
   * so the inverted filter should keep it; this `Match` rejects it, the current one keeps it.
   */
  lemma InverseCounterexample()
    ensures var op := Operation("SELECT", "", "", ["0"]);
            var f := Filter.Unconstrained.(command := Some(Literal("SADD")));
            && !Match(op, f, false)
            && !Match(op, f, true)
            && Filter.Match(op, f, true)
  {
    Filter.SaddNotInSelect();
    Filter.SelectFacts();
  }
}
