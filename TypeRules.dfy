/** The type rules of SemanticAnalyzer.java that compute without touching
    the analyzer's state: the operator classification tables, the reading of
    a node's resolved type, and the checks on operators, call arguments and
    return statements. */
module TypeRules {
  import opened Absyn
  import opened Errors

  /** The input category of `==` and `!=`: both operands share either type. */
  const EITHER_TYPE: int := 3

  const EqualityOperators: seq<int> := [EQUAL, NEQUAL]
  const IntInputOperators: seq<int> := [ADD, SUBT, MULT, DIV, UMINUS, LT, GT, LTE, GTE]
  const BoolInputOperators: seq<int> := [OR, AND, BNOT]
  const IntOutputOperators: seq<int> := [ADD, SUBT, MULT, DIV, UMINUS]
  const BoolOutputOperators: seq<int> := [LT, GT, LTE, GTE, EQUAL, NEQUAL, OR, AND, BNOT]

  /** arrContains: a linear scan of a constant table. */
  function ArrContains(arr: seq<int>, obj: int): (r: bool)
    ensures r <==> obj in arr
  {
    if arr == [] then false
    else if arr[0] == obj then true
    else ArrContains(arr[1..], obj)
  }

  function OperatorInputType(op: int): int {
    if ArrContains(EqualityOperators, op) then EITHER_TYPE
    else if ArrContains(IntInputOperators, op) then INT
    else if ArrContains(BoolInputOperators, op) then BOOL
    else -1
  }

  function OperatorOutputType(op: int): int {
    if ArrContains(IntOutputOperators, op) then INT
    else if ArrContains(BoolOutputOperators, op) then BOOL
    else -1
  }

  /** Every operator code 0..13 lies in exactly one input table and exactly
      one output table; any other code lies in none and gets -1 for both. */
  lemma OperatorClassification(op: int)
    ensures (op == EQUAL || op == NEQUAL) <==> OperatorInputType(op) == EITHER_TYPE
    ensures (ADD <= op <= UMINUS || LT <= op <= GTE) <==> OperatorInputType(op) == INT
    ensures (OR <= op <= BNOT) <==> OperatorInputType(op) == BOOL
    ensures (ADD <= op <= UMINUS) <==> OperatorOutputType(op) == INT
    ensures (LT <= op <= BNOT) <==> OperatorOutputType(op) == BOOL
    ensures !(0 <= op <= 13) <==> OperatorInputType(op) == -1
    ensures !(0 <= op <= 13) <==> OperatorOutputType(op) == -1
    ensures 0 <= op <= 13 ==>
      (if op in EqualityOperators then 1 else 0) + (if op in IntInputOperators then 1 else 0) +
      (if op in BoolInputOperators then 1 else 0) == 1 &&
      (if op in IntOutputOperators then 1 else 0) + (if op in BoolOutputOperators then 1 else 0) == 1
  {
  }

  /** getType: the code of a node's resolved type, -1 when it has none. */
  function TypeOf(dtype: Option<Dec>): int {
    match dtype
    case None => -1
    case Some(d) => d.DecType().typ
  }

  /** isType: holds only for a variable declaration of that type, never for
      a function declaration whatever its result type. */
  predicate IsType(dtype: Option<Dec>, code: int) {
    dtype.Some? && dtype.value.VarDecl? && dtype.value.v.typ.typ == code
  }

  /** getDummyDec: an anonymous scalar of the given type (its Java name is null). */
  function DummyDec(code: int): (d: Dec)
    ensures TypeOf(Some(d)) == code && IsType(Some(d), code)
  {
    VarDecl(SimpleDec(-1, -1, NameTy(-1, -1, code), ""))
  }

  /** A call of a function returning bool resolves to the FunctionDec itself,
      which isType does not accept, so it is reported when used as an if or
      while test (and a call returning int is reported as an index). */
  lemma CallResultIsNeverAVariableType(f: Dec, code: int)
    requires f.FunctionDec?
    ensures !IsType(Some(f), code)
    ensures TypeOf(Some(f)) == f.result.typ
  {
  }

  /** The operand rule each category states, written from the categories
      rather than from the tables: equality operands share a type;
      arithmetic and relational operands are INT and boolean ones BOOL,
      except that a NilExp operand (the missing one of a unary operator) is
      not checked; an unknown code accepts only untyped operands. */
  predicate OperandsFit(op: int, leftNil: bool, rightNil: bool, lt: int, rt: int) {
    if op == EQUAL || op == NEQUAL then lt == rt
    else
      var want := if LT <= op <= GTE || ADD <= op <= UMINUS then INT
                  else if OR <= op <= BNOT then BOOL
                  else -1;
      (leftNil || lt == want) && (rightNil || rt == want)
  }

  /** The checks of visit(OpExp), given the resolved types of its operands. */
  function OperatorReports(e: Exp, lt: int, rt: int): (r: seq<Report>)
    requires e.OpExp?
    ensures r == [] <==> OperandsFit(e.op, e.left.NilExp?, e.right.NilExp?, lt, rt)
    ensures (e.op == EQUAL || e.op == NEQUAL) ==> r == (if lt != rt then [At(e.row, e.col, OperatorMsg)] else [])
    ensures !(e.op == EQUAL || e.op == NEQUAL) ==>
      |r| == (if !e.left.NilExp? && lt != OperatorInputType(e.op) then 1 else 0) +
             (if !e.right.NilExp? && rt != OperatorInputType(e.op) then 1 else 0)
    ensures forall k :: 0 <= k < |r| ==>
      (r[k].At? && r[k].msg == OperatorMsg &&
       (r[k].row, r[k].col) in {(e.row, e.col), (e.left.row, e.left.col), (e.right.row, e.right.col)})
  {
    OperatorClassification(e.op);
    var it := OperatorInputType(e.op);
    if it == EITHER_TYPE then
      (if lt != rt then [At(e.row, e.col, OperatorMsg)] else [])
    else
      (if !e.left.NilExp? && lt != it then [At(e.left.row, e.left.col, OperatorMsg)] else []) +
      (if !e.right.NilExp? && rt != it then [At(e.right.row, e.right.col, OperatorMsg)] else [])
  }

  // ---- Call arguments -----------------------------------------------------

  /** Outcome of matching a call's arguments against the callee's parameters. */
  datatype ArgCheck =
    | ArgsMatch
    | ArityAtCall         // one list is empty and the other is not: reported at the call
    | MismatchAt(index: nat)  // reported at this argument; checking stops there

  /** What the argument check finds: a match exactly when the type lists are
      equal; an arity report exactly when one list is empty and the other is
      not; otherwise a mismatch at the first position whose types differ or
      that is the last of one list while the other goes on. */
  predicate ArgCheckFits(r: ArgCheck, argTypes: seq<int>, paramTypes: seq<int>) {
    (r.ArgsMatch? <==> argTypes == paramTypes) &&
    (r.ArityAtCall? <==> ((|argTypes| == 0) != (|paramTypes| == 0))) &&
    (r.MismatchAt? ==>
      r.index < |argTypes| && r.index < |paramTypes| &&
      argTypes[..r.index] == paramTypes[..r.index] &&
      (argTypes[r.index] != paramTypes[r.index] ||
       (|argTypes| != |paramTypes| && (r.index + 1 == |argTypes| || r.index + 1 == |paramTypes|))))
  }

  /** The check's outcome is determined by the two type lists. */
  lemma ArgCheckUnique(r1: ArgCheck, r2: ArgCheck, argTypes: seq<int>, paramTypes: seq<int>)
    requires ArgCheckFits(r1, argTypes, paramTypes) && ArgCheckFits(r2, argTypes, paramTypes)
    ensures r1 == r2
  {
    if r1.MismatchAt? && r2.MismatchAt? {
      MismatchFirst(r1.index, r2.index, argTypes, paramTypes);
      MismatchFirst(r2.index, r1.index, argTypes, paramTypes);
    }
  }

  /** A mismatch found at j leaves the positions before it matching, so no
      earlier position i qualifies as well. */
  lemma MismatchFirst(i: nat, j: nat, argTypes: seq<int>, paramTypes: seq<int>)
    requires ArgCheckFits(MismatchAt(i), argTypes, paramTypes) && ArgCheckFits(MismatchAt(j), argTypes, paramTypes)
    ensures !(i < j)
  {
  }

  /** The report visit(CallExp) makes for a check outcome: none for a match,
      one at the call for an arity mismatch, one at the mismatching argument. */
  function ArgumentReport(callRow: int, callCol: int, args: seq<Exp>, r: ArgCheck): (rs: seq<Report>)
    requires r.MismatchAt? ==> r.index < |args|
    ensures |rs| == if r.ArgsMatch? then 0 else 1
    ensures r.ArityAtCall? ==> rs == [At(callRow, callCol, ArgumentsMsg)]
    ensures r.MismatchAt? ==> rs == [At(args[r.index].row, args[r.index].col, ArgumentsMsg)]
  {
    match r
    case ArgsMatch => []
    case ArityAtCall => [At(callRow, callCol, ArgumentsMsg)]
    case MismatchAt(i) => [At(args[i].row, args[i].col, ArgumentsMsg)]
  }

  /** The argument check of visit(CallExp), over the argument types and the
      parameter types: at most one report per call, made exactly when the
      two lists differ, at the first position where a type differs or where
      the shorter list ends. */
  method CheckArguments(argTypes: seq<int>, paramTypes: seq<int>) returns (r: ArgCheck)
    ensures ArgCheckFits(r, argTypes, paramTypes)
  {
    if (|argTypes| > 0 && |paramTypes| == 0) || (|argTypes| == 0 && |paramTypes| > 0) {
      return ArityAtCall;
    }
    var i := 0;
    while i < |argTypes| && i < |paramTypes|
      invariant 0 <= i <= |argTypes| && i <= |paramTypes|
      invariant argTypes[..i] == paramTypes[..i]
      invariant i > 0 ==> (i < |argTypes| <==> i < |paramTypes|)
    {
      if argTypes[i] != paramTypes[i] || (i + 1 < |paramTypes| && i + 1 >= |argTypes|)
         || (i + 1 >= |paramTypes| && i + 1 < |argTypes|) {
        return MismatchAt(i);
      }
      assert argTypes[..i + 1] == argTypes[..i] + [argTypes[i]];
      assert paramTypes[..i + 1] == paramTypes[..i] + [paramTypes[i]];
      i := i + 1;
    }
    assert argTypes == argTypes[..i] && paramTypes == paramTypes[..i];
    return ArgsMatch;
  }

  // ---- Return statements --------------------------------------------------

  /** The report for one direct statement of a function's top-level block. */
  function ReturnReport(s: Exp, dtype: Option<Dec>, resultType: int): seq<Report> {
    if s.ReturnExp? && TypeOf(dtype) != resultType then [At(s.exp.row, s.exp.col, ReturnMsg)] else []
  }

  /** The reports of the return check over a block's direct statements, given
      each statement's resolved type. */
  function ReturnReports(stmts: seq<Exp>, dtypes: seq<Option<Dec>>, resultType: int): seq<Report>
    requires |dtypes| == |stmts|
    decreases |stmts|
  {
    if stmts == [] then []
    else ReturnReports(stmts[..|stmts| - 1], dtypes[..|stmts| - 1], resultType) +
         ReturnReport(stmts[|stmts| - 1], dtypes[|stmts| - 1], resultType)
  }

  /** The loop of visit(FunctionDec) that checks return types. */
  method CheckReturns(stmts: seq<Exp>, dtypes: seq<Option<Dec>>, resultType: int) returns (r: seq<Report>)
    requires |dtypes| == |stmts|
    ensures r == ReturnReports(stmts, dtypes, resultType)
  {
    r := [];
    var i := 0;
    while i < |stmts|
      invariant 0 <= i <= |stmts|
      invariant r == ReturnReports(stmts[..i], dtypes[..i], resultType)
    {
      assert stmts[..i + 1][..i] == stmts[..i] && dtypes[..i + 1][..i] == dtypes[..i];
      r := r + ReturnReport(stmts[i], dtypes[i], resultType);
      i := i + 1;
    }
    assert stmts[..i] == stmts && dtypes[..i] == dtypes;
  }

  /** Every report of the return check belongs to a direct return statement
      whose resolved type is not the function's result type. */
  lemma {:induction false} ReturnReportsSound(stmts: seq<Exp>, dtypes: seq<Option<Dec>>, resultType: int)
    requires |dtypes| == |stmts|
    ensures forall k :: 0 <= k < |ReturnReports(stmts, dtypes, resultType)| ==>
      exists i :: 0 <= i < |stmts| && stmts[i].ReturnExp? && TypeOf(dtypes[i]) != resultType &&
        ReturnReports(stmts, dtypes, resultType)[k] == At(stmts[i].exp.row, stmts[i].exp.col, ReturnMsg)
    decreases |stmts|
  {
    if stmts != [] {
      var n := |stmts| - 1;
      var pre, pdt := stmts[..n], dtypes[..n];
      ReturnReportsSound(pre, pdt, resultType);
      var rp := ReturnReports(pre, pdt, resultType);
      var r := ReturnReports(stmts, dtypes, resultType);
      assert r == rp + ReturnReport(stmts[n], dtypes[n], resultType);
      forall k | 0 <= k < |ReturnReports(stmts, dtypes, resultType)|
        ensures exists i :: 0 <= i < |stmts| && stmts[i].ReturnExp? && TypeOf(dtypes[i]) != resultType &&
                  ReturnReports(stmts, dtypes, resultType)[k] == At(stmts[i].exp.row, stmts[i].exp.col, ReturnMsg)
      {
        if k < |rp| {
          var i :| 0 <= i < |pre| && pre[i].ReturnExp? && TypeOf(pdt[i]) != resultType &&
                   rp[k] == At(pre[i].exp.row, pre[i].exp.col, ReturnMsg);
          assert stmts[i] == pre[i] && dtypes[i] == pdt[i];
          assert r[k] == rp[k];
          assert 0 <= i < |stmts| && stmts[i].ReturnExp? && TypeOf(dtypes[i]) != resultType &&
                 r[k] == At(stmts[i].exp.row, stmts[i].exp.col, ReturnMsg);
        } else {
          assert stmts[n].ReturnExp? && TypeOf(dtypes[n]) != resultType;
          assert r[k] == At(stmts[n].exp.row, stmts[n].exp.col, ReturnMsg);
        }
      }
    } else {
      assert ReturnReports(stmts, dtypes, resultType) == [];
    }
  }

  /** Every direct return statement whose resolved type is not the
      function's result type is reported. */
  lemma {:induction false} ReturnReportsComplete(stmts: seq<Exp>, dtypes: seq<Option<Dec>>, resultType: int)
    requires |dtypes| == |stmts|
    ensures forall i :: 0 <= i < |stmts| && stmts[i].ReturnExp? && TypeOf(dtypes[i]) != resultType ==>
      At(stmts[i].exp.row, stmts[i].exp.col, ReturnMsg) in ReturnReports(stmts, dtypes, resultType)
    decreases |stmts|
  {
    if stmts != [] {
      var n := |stmts| - 1;
      var pre, pdt := stmts[..n], dtypes[..n];
      ReturnReportsComplete(pre, pdt, resultType);
      var r := ReturnReports(stmts, dtypes, resultType);
      assert r == ReturnReports(pre, pdt, resultType) + ReturnReport(stmts[n], dtypes[n], resultType);
      forall i | 0 <= i < |stmts| && stmts[i].ReturnExp? && TypeOf(dtypes[i]) != resultType
        ensures At(stmts[i].exp.row, stmts[i].exp.col, ReturnMsg) in r
      {
        if i < n {
          assert pre[i] == stmts[i] && pdt[i] == dtypes[i];
        }
      }
    }
  }

  /** A block without direct return statements is never reported, so the
      returns nested in an if or a while go unchecked. */
  lemma {:induction false} ReturnReportsOnlyDirect(stmts: seq<Exp>, dtypes: seq<Option<Dec>>, resultType: int)
    requires |dtypes| == |stmts|
    requires forall i :: 0 <= i < |stmts| ==> !stmts[i].ReturnExp?
    ensures ReturnReports(stmts, dtypes, resultType) == []
    decreases |stmts|
  {
    if stmts != [] {
      var n := |stmts| - 1;
      assert forall i :: 0 <= i < n ==> stmts[..n][i] == stmts[i];
      ReturnReportsOnlyDirect(stmts[..n], dtypes[..n], resultType);
    }
  }
}
