/**
 * Compiled regular expressions. The regex engine (`regexp.Compile`, `FindStringIndex`)
 * is not part of this model: a compiled pattern is known only by its source text and by
 * its find test, which holds of a string exactly when `FindStringIndex` returns non-nil.
 */
module Regexp {

  datatype Regexp = Regexp(source: string, finds: string -> bool)

  /** `lit` occurs in `s` starting at position i. */
  predicate OccursAt(s: string, lit: string, i: nat) {
    i + |lit| <= |s| && s[i..i + |lit|] == lit
  }

  /** `lit` occurs somewhere inside `s`. */
  predicate Contains(s: string, lit: string) {
    exists i: nat | i <= |s| :: OccursAt(s, lit, i)
  }

  /** A pattern without metacharacters, such as `SELECT`: it finds a match wherever its text occurs. */
  function Literal(lit: string): (re: Regexp)
    ensures re.source == lit
    ensures forall s :: re.finds(s) == Contains(s, lit)
  {
    Regexp(lit, s => Contains(s, lit))
  }

  /**
   * The argument loop of `Match`: scans the arguments in order and stops at the first one
   * in which the pattern finds a match. It succeeds exactly when some argument contains a match.
   */
  function AnyFinds(re: Regexp, args: seq<string>): (r: bool)
    ensures r <==> exists i :: 0 <= i < |args| && re.finds(args[i])
  {
    if args == [] then false
    else
      assert forall i :: 1 <= i < |args| ==> args[i] == args[1..][i - 1];
      re.finds(args[0]) || AnyFinds(re, args[1..])
  }
}
