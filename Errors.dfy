/** The analyzer's diagnostics. `reportError` prints to standard error; here
    each report is a value appended to an error log. `row` and `col` are the
    node's own zero-based position (the printed text adds one to each). */
module Errors {

  datatype Report =
    | At(row: int, col: int, msg: string)
    | General(msg: string)

  const MissingMain: Report := General("Main function is not declared")

  const IntegerIndexMsg: string := "Expression type must be integer"
  const BooleanTestMsg: string := "Expression type must be boolean"
  const AssignMismatchMsg: string := "Types do not match"
  const ArgumentsMsg: string := "Arguments do not match function declaration"
  const OperatorMsg: string := "Invalid expression type for operator"
  const ReturnMsg: string := "Return expression does not match function return type"
  const VoidVariableMsg: string := "The type \"void\" is not allowed for variables"

  function UndeclaredFunctionMsg(f: string): string {
    "Function \"" + f + "\" called before declaration"
  }

  function UndeclaredVariableMsg(x: string): string {
    "Variable \"" + x + "\" used before declaration"
  }

  function RedeclaredMsg(isFunction: bool, name: string): string {
    (if isFunction then "Function" else "Variable") + " \"" + name + "\" is already declared"
  }

  /** `after` is `before` followed only by positioned reports: the log only
      grows, and only the final main check adds a report without a position. */
  ghost predicate Extends(before: seq<Report>, after: seq<Report>) {
    |before| <= |after| && after[..|before|] == before &&
    forall i :: |before| <= i < |after| ==> after[i].At?
  }

  lemma ExtendsTrans(a: seq<Report>, b: seq<Report>, c: seq<Report>)
    requires Extends(a, b) && Extends(b, c)
    ensures Extends(a, c)
  {
    assert c[..|a|] == c[..|b|][..|a|];
  }
}
